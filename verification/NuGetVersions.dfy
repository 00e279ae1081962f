/** NuGet versions: how they are read, and printed. A version has one to four numbers,
    and labels without regard to case.
 */
module NuGetVersions {
  import opened Options
  import opened Orders
  import opened Decimal
  import Strings

  /** Always four numbers. */
  type Version = Ranked

  // ---- parsing ----

  const MAX_LENGTH: nat := 1024
  const PART_LIMIT: nat := 0x8000_0000

  predicate IsDecimal(s: string) {
    s != "" && AllDigits(s)
  }

  predicate IsLabelChar(c: char) {
    '0' <= c <= '9' || 'a' <= c <= 'z' || 'A' <= c <= 'Z' || c == '-'
  }

  predicate IsLabel(s: string) {
    s != "" && forall i :: 0 <= i < |s| ==> IsLabelChar(s[i])
  }

  predicate AreLabels(labels: seq<string>) {
    forall i :: 0 <= i < |labels| ==> IsLabel(labels[i])
  }

  /** The numbers the pieces denote, if each is a number of at most 31 bits. */
  function Numbers(pieces: seq<string>): Option<seq<int>> {
    if pieces == [] then Some([])
    else
      var before, last := Numbers(pieces[..|pieces| - 1]), pieces[|pieces| - 1];
      if before.Some? && IsDecimal(last) && ValueOf(last) < PART_LIMIT then Some(before.value + [ValueOf(last)]) else None
  }

  /** The text of the numbers, and of the labels if there are any. */
  function NumericText(raw: string): string {
    Strings.Cut(Strings.Cut(raw, '+').0, '-').0
  }

  function LabelText(raw: string): Option<string> {
    Strings.Cut(Strings.Cut(raw, '+').0, '-').1
  }

  function Labels(raw: string): seq<string> {
    if LabelText(raw) == None then [] else Strings.Split(LabelText(raw).value, '.')
  }

  predicate MetadataIsValid(raw: string) {
    var metadata := Strings.Cut(raw, '+').1;
    metadata.Some? ==> AreLabels(Strings.Split(metadata.value, '.'))
  }

  function LowerAll(labels: seq<string>): seq<string> {
    if labels == [] then [] else [Strings.ToLower(labels[0])] + LowerAll(labels[1..])
  }

  function Parse(raw: string): Option<Version> {
    var pieces := Strings.Split(NumericText(raw), '.');
    if raw == "" || |raw| > MAX_LENGTH || !MetadataIsValid(raw) || !AreLabels(Labels(raw)) || |pieces| > 4 || Numbers(pieces) == None
    then None
    else Some(Ranked(Pad(Numbers(pieces).value, 4), LowerAll(Labels(raw))))
  }

  lemma {:induction false} NumbersStop(pieces: seq<string>, i: nat)
    requires i <= |pieces| && Numbers(pieces[..i]) == None
    ensures Numbers(pieces) == None
  {
    if i == |pieces| {
      assert pieces[..i] == pieces;
    } else {
      assert pieces[..|pieces| - 1][..i] == pieces[..i];
      NumbersStop(pieces[..|pieces| - 1], i);
    }
  }

  lemma {:induction false} NumbersEach(pieces: seq<string>)
    ensures Numbers(pieces).Some? ==> |Numbers(pieces).value| == |pieces|
    ensures Numbers(pieces).Some? ==> forall i :: 0 <= i < |pieces| ==> IsDecimal(pieces[i]) && Numbers(pieces).value[i] == ValueOf(pieces[i]) < PART_LIMIT
  {
    if pieces != [] {
      NumbersEach(pieces[..|pieces| - 1]);
    }
  }

  /** Lowering a text and splitting it, in either order. */
  lemma {:induction false} SplitLowered(s: string)
    ensures Strings.Split(Strings.ToLower(s), '.') == LowerAll(Strings.Split(s, '.'))
  {
    if s != [] {
      SplitLowered(s[1..]);
      var rest := Strings.Split(s[1..], '.');
      assert [[s[0]] + rest[0]][0][1..] == rest[0];
    }
  }

  lemma NumbersOfNone()
    ensures Numbers([]) == Some([])
  {
  }

  lemma NumbersNext(pieces: seq<string>, i: nat)
    requires i < |pieces|
    ensures var before := Numbers(pieces[..i]);
      Numbers(pieces[..i + 1]) == if before.Some? && IsDecimal(pieces[i]) && ValueOf(pieces[i]) < PART_LIMIT
                                  then Some(before.value + [ValueOf(pieces[i])]) else None
  {
    assert pieces[..i + 1][..i] == pieces[..i];
  }

  method ParseVersion(raw: string) returns (r: Option<Version>)
    ensures r == Parse(raw)
  {
    hide Strings.Cut, Strings.Split, Strings.ToLower, IsLabel, Numbers;
    if |raw| == 0 || |raw| > MAX_LENGTH {
      return None;
    }
    var (version, metadata) := Strings.Cut(raw, '+');
    if metadata.Some? && !AreLabels(Strings.Split(metadata.value, '.')) {
      return None;
    }
    var (numeric, prerelease) := Strings.Cut(version, '-');
    var pre: seq<string> := [];
    if prerelease.Some? {
      if !AreLabels(Strings.Split(prerelease.value, '.')) {
        return None;
      }
      pre := Strings.Split(Strings.ToLower(prerelease.value), '.');
      SplitLowered(prerelease.value);
    }
    var pieces := Strings.Split(numeric, '.');
    if |pieces| > 4 {
      return None;
    }
    var parts: seq<int> := [0, 0, 0, 0];
    NumbersOfNone();
    for i := 0 to |pieces|
      invariant Numbers(pieces[..i]).Some? && |Numbers(pieces[..i]).value| == i
      invariant parts == Pad(Numbers(pieces[..i]).value, 4)
    {
      NumbersNext(pieces, i);
      if !IsDecimal(pieces[i]) || ValueOf(pieces[i]) >= PART_LIMIT {
        NumbersStop(pieces, i + 1);
        return None;
      }
      parts := parts[i := ValueOf(pieces[i])];
    }
    assert pieces[..|pieces|] == pieces;
    r := Some(Ranked(parts, pre));
  }

  // ---- printing ----

  function Numerals(parts: seq<int>): seq<string> {
    seq(|parts|, i requires 0 <= i < |parts| => if parts[i] < 0 then "" else Numeral(parts[i]))
  }

  function Print(v: Version): string {
    Strings.Join(Numerals(v.numbers), '.') + if v.labels == [] then "" else ['-'] + Strings.Join(v.labels, '.')
  }

  predicate WellFormed(v: Version) {
    && |v.numbers| == 4 && (forall i :: 0 <= i < 4 ==> 0 <= v.numbers[i] < PART_LIMIT)
    && AreLabels(v.labels) && LowerAll(v.labels) == v.labels
  }

  lemma NumbersLast(pieces: seq<string>, last: string)
    requires Numbers(pieces).Some? && IsDecimal(last) && ValueOf(last) < PART_LIMIT
    ensures Numbers(pieces + [last]) == Some(Numbers(pieces).value + [ValueOf(last)])
  {
    var all := pieces + [last];
    assert all[..|all| - 1] == pieces && all[|all| - 1] == last;
    hide ValueOf, IsDecimal, PART_LIMIT;
  }

  lemma NumeralsLast(parts: seq<int>, last: int)
    requires last >= 0
    ensures Numerals(parts + [last]) == Numerals(parts) + [Numeral(last)]
  {
    hide Numeral;
  }

  lemma {:induction false} NumbersOfNumerals(parts: seq<int>)
    requires forall i :: 0 <= i < |parts| ==> 0 <= parts[i] < PART_LIMIT
    ensures Numbers(Numerals(parts)) == Some(parts)
  {
    if parts != [] {
      var rest, last := parts[..|parts| - 1], parts[|parts| - 1];
      hide Numbers, Numerals, Numeral, ValueOf, PART_LIMIT;
      NumbersOfNumerals(rest);
      NumeralDenotes(last);
      NumeralsLast(rest, last);
      assert parts == rest + [last];
      NumbersLast(Numerals(rest), Numeral(last));
    }
  }

  lemma LacksOthers(s: string, c: char)
    requires (AllDigits(s) && !IsDigit(c)) || (IsLabel(s) && !IsLabelChar(c))
    ensures c !in s
  {
    forall i | 0 <= i < |s|
      ensures s[i] != c
    {
    }
  }

  lemma NumericTextOf(parts: seq<int>)
    requires |parts| == 4
    ensures var numeric := Strings.Join(Numerals(parts), '.');
      '-' !in numeric && '+' !in numeric && Strings.Split(numeric, '.') == Numerals(parts)
  {
    var numerals := Numerals(parts);
    forall i | 0 <= i < |numerals|
      ensures '-' !in numerals[i] && '+' !in numerals[i] && '.' !in numerals[i]
    {
      LacksOthers(numerals[i], '-');
      LacksOthers(numerals[i], '+');
      LacksOthers(numerals[i], '.');
    }
    Strings.JoinLacks(numerals, '.', '-');
    Strings.JoinLacks(numerals, '.', '+');
    Strings.SplitJoined(numerals, '.');
  }

  lemma LabelTextOf(labels: seq<string>)
    requires labels != [] && AreLabels(labels)
    ensures '+' !in Strings.Join(labels, '.') && Strings.Split(Strings.Join(labels, '.'), '.') == labels
  {
    forall i | 0 <= i < |labels|
      ensures '+' !in labels[i] && '.' !in labels[i]
    {
      LacksOthers(labels[i], '+');
      LacksOthers(labels[i], '.');
    }
    Strings.JoinLacks(labels, '.', '+');
    Strings.SplitJoined(labels, '.');
  }

  /** A printed version reads back as itself. */
  lemma PrintedVersionReads(v: Version)
    requires WellFormed(v) && |Print(v)| <= MAX_LENGTH
    ensures Parse(Print(v)) == Some(v)
  {
    var raw := Print(v);
    var numeric, labels := Strings.Join(Numerals(v.numbers), '.'), Strings.Join(v.labels, '.');
    PrintIsNotEmpty(v);
    NumericTextOf(v.numbers);
    NumbersOfNumerals(v.numbers);
    Strings.CutOff(numeric, '-', labels);
    if v.labels != [] {
      LabelTextOf(v.labels);
    }
    hide Strings.Join, Strings.Split, Strings.Cut, Numbers, Numerals, LowerAll, IsLabel;
    assert Pad(v.numbers, 4) == v.numbers;
    assert '+' !in raw;
    Strings.CutOff(raw, '+', "");
    assert raw == if v.labels == [] then numeric else numeric + ['-'] + labels;
  }

  lemma PrintIsNotEmpty(v: Version)
    requires WellFormed(v)
    ensures Print(v) != ""
  {
    assert Numerals(v.numbers)[0] != "";
  }
}
