/** The two comparisons of versions, written apart: on which versions they agree.
 */
module VersionAgreement {
  import opened Options
  import opened Orders
  import opened Decimal
  import Strings
  import N = NuGetVersions
  import U = NuGetUpdates
  import O = OverrideVersions

  /** A label both read alike: lower-case, no number too large for an int, and no
      negative int. */
  predicate IsPlain(text: string) {
    && Strings.ToLower(text) == text
    && (N.IsDecimal(text) ==> ValueOf(text) < O.INT_LIMIT)
    && !IsNegativeInt(text)
  }

  /** A hyphen and digits that are read as an int. */
  predicate IsNegativeInt(text: string) {
    text != "" && text[0] == '-' && O.Atoi(text).Some?
  }

  predicate HasPlainLabels(raw: string) {
    ArePlain(N.Labels(raw))
  }

  predicate ArePlain(labels: seq<string>) {
    forall i :: 0 <= i < |labels| ==> IsPlain(labels[i])
  }

  // ---- plain labels compare alike ----

  lemma PlainNumber(text: string)
    requires N.IsLabel(text) && IsPlain(text)
    ensures O.Atoi(text) == if N.IsDecimal(text) then Some(ValueOf(text)) else None
  {
    assert N.IsLabelChar(text[0]);
    assert N.IsDecimal(text) ==> IsDigit(text[0]);
  }

  lemma LabelsAgree(a: string, b: string)
    requires N.IsLabel(a) && IsPlain(a) && N.IsLabel(b) && IsPlain(b)
    ensures U.CompareLabels(a, b) == O.CompareLabels(a, b)
  {
    PlainNumber(a);
    PlainNumber(b);
    if N.IsDecimal(a) && N.IsDecimal(b) {
      U.NumericLabelsCompareAsNumbers(a, b);
    }
  }

  lemma {:induction false} LabelListsAgree(a: seq<string>, b: seq<string>)
    requires N.AreLabels(a) && ArePlain(a) && N.AreLabels(b) && ArePlain(b)
    ensures CompareLists(U.CompareLabels, a, b) == CompareLists(O.CompareLabels, a, b)
  {
    hide U.CompareLabels, O.CompareLabels, IsPlain, N.IsLabel;
    if a != [] && b != [] {
      LabelsAgree(a[0], b[0]);
      LabelListsAgree(a[1..], b[1..]);
    }
  }

  lemma {:induction false} LoweredIsSame(labels: seq<string>)
    requires ArePlain(labels)
    ensures N.LowerAll(labels) == labels
  {
    hide IsNegativeInt;
    if labels != [] {
      assert ArePlain(labels[1..]);
      LoweredIsSame(labels[1..]);
    }
  }

  // ---- what both read ----

  lemma {:induction false} NumbersAreCore(pieces: seq<string>)
    requires N.Numbers(pieces).Some?
    ensures O.Core(pieces) == N.Numbers(pieces)
  {
    if pieces != [] {
      var last := pieces[|pieces| - 1];
      assert N.IsDecimal(last) ==> IsDigit(last[0]);
      NumbersAreCore(pieces[..|pieces| - 1]);
    }
  }

  /** What NuGet reads, the other reads too: without the zeros that fill up to four
      numbers, and with its labels as they are written. */
  lemma BothRead(raw: string)
    requires N.Parse(raw).Some?
    ensures var v, o, numbers := N.Parse(raw).value, O.Parse(raw), N.Numbers(Strings.Split(N.NumericText(raw), '.'));
      && o.Some? && numbers == Some(o.value.numbers) && |o.value.numbers| <= 4 && Pad(o.value.numbers, 4) == v.numbers
      && o.value.labels == N.Labels(raw) && v.labels == N.LowerAll(N.Labels(raw)) && N.AreLabels(N.Labels(raw))
  {
    hide Strings.Cut, Strings.Split, N.Numbers, O.Core, N.LowerAll;
    var pieces, labels := Strings.Split(N.NumericText(raw), '.'), N.Labels(raw);
    NumbersAreCore(pieces);
    N.NumbersEach(pieces);
    assert O.NoneEmpty(labels);
  }

  /** Both put two versions with plain labels in the same order. */
  lemma ComparisonsAgree(left: string, right: string)
    requires N.Parse(left).Some? && HasPlainLabels(left)
    requires N.Parse(right).Some? && HasPlainLabels(right)
    ensures O.CompareTexts(left, right) == Some(U.Compare(N.Parse(left).value, N.Parse(right).value))
  {
    BothRead(left);
    BothRead(right);
    LoweredIsSame(N.Labels(left));
    LoweredIsSame(N.Labels(right));
    var v, w, a, b := N.Parse(left).value, N.Parse(right).value, O.Parse(left).value, O.Parse(right).value;
    hide N.Parse, O.Parse, N.Labels, ArePlain, CompareLists, U.CompareLabels, O.CompareLabels, Pad, N.AreLabels;
    O.CompareAtLength(a, b, 4);
    LabelListsAgree(v.labels, w.labels);
  }

  // ---- versions that differ in their labels only ----

  lemma {:induction false} SameListsAreEqual<T(!new)>(cmp: (T, T) -> int, a: seq<T>)
    requires IsPreorder(cmp)
    ensures CompareLists(cmp, a, a) == 0
  {
    if a != [] {
      SameListsAreEqual(cmp, a[1..]);
      assert cmp(a[0], a[0]) == -cmp(a[0], a[0]);
    }
  }

  /** The same numbers leave the decision to the labels. */
  lemma LabelsDecide(x: string, y: string)
    requires N.Parse(x).Some? && N.Parse(y).Some? && N.NumericText(x) == N.NumericText(y)
    ensures O.CompareTexts(x, y) == Some(CompareTails(O.CompareLabels, N.Labels(x), N.Labels(y)))
    ensures U.Compare(N.Parse(x).value, N.Parse(y).value)
      == CompareTails(U.CompareLabels, N.LowerAll(N.Labels(x)), N.LowerAll(N.Labels(y)))
  {
    BothRead(x);
    BothRead(y);
    var v, a, b := N.Parse(x).value, O.Parse(x).value, O.Parse(y).value;
    hide N.Parse, O.Parse, N.Labels, CompareLists, U.CompareLabels, O.CompareLabels, Pad, N.AreLabels, N.LowerAll, N.NumericText, Strings.Split;
    O.CompareAtLength(a, b, 4);
    CompareIntsIsPreorder();
    SameListsAreEqual(CompareInts, v.numbers);
  }

  lemma CompareIntsIsPreorder()
    ensures IsPreorder(CompareInts)
  {
  }

  lemma {:induction false} CommonPrefix<T(!new)>(cmp: (T, T) -> int, p: seq<T>, a: seq<T>, b: seq<T>)
    requires IsPreorder(cmp)
    ensures CompareLists(cmp, p + a, p + b) == CompareLists(cmp, a, b)
  {
    if p == [] {
      assert p + a == a && p + b == b;
    } else {
      assert (p + a)[1..] == p[1..] + a && (p + b)[1..] == p[1..] + b;
      CommonPrefix(cmp, p[1..], a, b);
      assert cmp(p[0], p[0]) == -cmp(p[0], p[0]);
    }
  }

  lemma {:induction false} LowerAllConcat(a: seq<string>, b: seq<string>)
    ensures N.LowerAll(a + b) == N.LowerAll(a) + N.LowerAll(b)
  {
    if a == [] {
      assert a + b == b;
    } else {
      assert (a + b)[1..] == a[1..] + b;
      LowerAllConcat(a[1..], b);
    }
  }

  // ---- a label that is not plain gives a version they disagree on ----

  /** A plain label that the two comparisons put on different sides of the given one. */
  function Witness(text: string): string {
    if Strings.ToLower(text) != text then Strings.ToLower(text) else if IsNegativeInt(text) then "1" else "-"
  }

  lemma {:induction false} LowerCases(s: string)
    ensures Strings.ToLower(Strings.ToLower(s)) == Strings.ToLower(s) && |Strings.ToLower(s)| == |s|
    ensures Strings.ToLower(s) != s ==> Strings.Compare(s, Strings.ToLower(s)) == -1 && !AllDigits(s) && !AllDigits(Strings.ToLower(s))
    ensures N.IsLabel(s) ==> N.IsLabel(Strings.ToLower(s))
  {
    if s != [] {
      var t := Strings.ToLower(s);
      LowerCases(s[1..]);
      assert s == [s[0]] + s[1..] && t == [t[0]] + t[1..] && t[1..] == Strings.ToLower(s[1..]);
      assert N.IsLabel(s) && s[1..] != [] ==> N.IsLabel(s[1..]);
    }
  }

  lemma CapitalIsNoInt(s: string)
    requires Strings.ToLower(s) != s && N.IsLabel(s)
    ensures O.Atoi(s) == None && O.Atoi(Strings.ToLower(s)) == None
    ensures !N.IsDecimal(s) && !N.IsDecimal(Strings.ToLower(s))
  {
    var t := Strings.ToLower(s);
    LowerCases(s);
    LowerCases(s[1..]);
    assert s == [s[0]] + s[1..] && t == [t[0]] + t[1..] && t[1..] == Strings.ToLower(s[1..]);
    assert N.IsLabelChar(s[0]);
    assert s[0] == '-' ==> s[1..] != Strings.ToLower(s[1..]);
  }

  lemma OneIsPlain()
    ensures N.IsLabel("1") && IsPlain("1") && N.IsDecimal("1") && ValueOf("1") == 1 && O.Atoi("1") == Some(1)
    ensures N.IsLabel("-") && IsPlain("-") && !N.IsDecimal("-") && O.Atoi("-") == None
  {
    assert "1"[0] == '1' && |"1"| == 1 && ValueOf("1"[..0]) == 0;
    assert "-"[0] == '-' && |"-"| == 1;
    assert Strings.ToLower("1") == "1" && Strings.ToLower("-") == "-";
  }

  /** What the two comparisons say of a label that is not plain and its witness. */
  lemma WitnessDiffers(s: string)
    requires N.IsLabel(s) && !IsPlain(s)
    ensures N.IsLabel(Witness(s)) && IsPlain(Witness(s)) && |Witness(s)| <= |s|
    ensures var u, o := U.CompareLabels(Strings.ToLower(s), Witness(s)), O.CompareLabels(s, Witness(s));
      (u >= 0 && o == -1) || (u == -1 && o == 1)
  {
    var w := Witness(s);
    LowerCases(s);
    OneIsPlain();
    if Strings.ToLower(s) != s {
      CapitalIsNoInt(s);
      Strings.CompareIsZero(w, w);
    } else if IsNegativeInt(s) {
      assert !IsDigit(s[0]);
      NegativeInt(s);
    } else {
      assert IsDigit(s[0]) && "-"[0] == '-';
      hide Strings.ToLower, ValueOf;
    }
  }

  lemma NegativeInt(s: string)
    requires IsNegativeInt(s)
    ensures O.Atoi(s).value <= 0 && !N.IsDecimal(s)
  {
    assert !IsDigit(s[0]);
  }

  /** Lists that part at a label that is not plain are put in different orders. */
  lemma ListsDisagree(p: seq<string>, s: string, rest: seq<string>)
    requires ArePlain(p) && N.IsLabel(s) && !IsPlain(s)
    ensures var x, y := p + ([s] + rest), p + [Witness(s)];
      CompareTails(U.CompareLabels, N.LowerAll(x), N.LowerAll(y)) != CompareTails(O.CompareLabels, x, y)
  {
    var w := Witness(s);
    WitnessDiffers(s);
    LoweredIsSame(p);
    LoweredIsSame([w]);
    LowerAllConcat(p, [s] + rest);
    LowerAllConcat([s], rest);
    LowerAllConcat(p, [w]);
    assert N.LowerAll([s]) == [Strings.ToLower(s)];
    U.LabelsArePreordered();
    O.LabelsArePreordered();
    hide U.CompareLabels, O.CompareLabels, IsPlain, N.IsLabel, Witness, Strings.ToLower, N.LowerAll;
    CommonPrefix(O.CompareLabels, p, [s] + rest, [w]);
    CommonPrefix(U.CompareLabels, p, [Strings.ToLower(s)] + N.LowerAll(rest), [w]);
    ListHeads(O.CompareLabels, s, rest, w);
    ListHeads(U.CompareLabels, Strings.ToLower(s), N.LowerAll(rest), w);
  }

  lemma ListHeads(cmp: (string, string) -> int, s: string, rest: seq<string>, w: string)
    ensures CompareLists(cmp, [s] + rest, [w]) == if cmp(s, w) != 0 then cmp(s, w) else CompareInts(|rest|, 0)
  {
    assert ([s] + rest)[1..] == rest && [w][1..] == [];
  }

  // ---- the version with the witness ----

  function WithLabels(numeric: string, labels: seq<string>): string {
    numeric + ['-'] + Strings.Join(labels, '.')
  }

  lemma WithLabelsReads(numeric: string, labels: seq<string>)
    requires '-' !in numeric && '+' !in numeric && labels != [] && N.AreLabels(labels)
    ensures var raw := WithLabels(numeric, labels);
      N.NumericText(raw) == numeric && N.Labels(raw) == labels && N.MetadataIsValid(raw)
  {
    var raw, text := WithLabels(numeric, labels), Strings.Join(labels, '.');
    N.LabelTextOf(labels);
    hide Strings.Join, Strings.Split, Strings.Cut, N.AreLabels;
    Strings.CutOff(numeric, '-', text);
    assert '+' !in raw;
    Strings.CutOff(raw, '+', "");
  }

  /** A list cut short at a label, with a shorter one in its place, joins to a shorter
      text. */
  lemma {:induction false} JoinShorter(p: seq<string>, s: string, rest: seq<string>, w: string)
    requires |w| <= |s|
    ensures |Strings.Join(p + [w], '.')| <= |Strings.Join(p + ([s] + rest), '.')|
  {
    if p == [] {
      assert p + [w] == [w] && p + ([s] + rest) == [s] + rest;
    } else {
      assert (p + [w])[1..] == p[1..] + [w] && (p + ([s] + rest))[1..] == p[1..] + ([s] + rest);
      JoinShorter(p[1..], s, rest, w);
    }
  }

  lemma LengthOf(raw: string)
    requires N.LabelText(raw).Some?
    ensures |WithLabels(N.NumericText(raw), N.Labels(raw))| <= |raw|
    ensures '-' !in N.NumericText(raw) && '+' !in N.NumericText(raw)
  {
    hide Strings.Cut, Strings.Split, Strings.Join;
    Strings.CutParts(raw, '+');
    Strings.CutParts(Strings.Cut(raw, '+').0, '-');
    Strings.JoinSplit(N.LabelText(raw).value, '.');
  }

  /** The version with the labels before i and the witness of the label at i. */
  function Counterpart(raw: string, i: nat): string
    requires i < |N.Labels(raw)|
  {
    WithLabels(N.NumericText(raw), N.Labels(raw)[..i] + [Witness(N.Labels(raw)[i])])
  }

  /** A shorter text with the same numbers and with labels is a version too. */
  lemma ReadsLike(raw: string, y: string)
    requires N.Parse(raw).Some? && 0 < |y| <= |raw| && N.NumericText(y) == N.NumericText(raw)
    requires N.MetadataIsValid(y) && N.AreLabels(N.Labels(y))
    ensures N.Parse(y).Some?
  {
    hide N.NumericText, N.Labels, N.MetadataIsValid, N.AreLabels, Strings.Split, N.Numbers, N.LowerAll;
  }

  lemma WitnessInPlace(labels: seq<string>, i: nat)
    requires N.AreLabels(labels) && i < |labels| && !IsPlain(labels[i]) && ArePlain(labels[..i])
    ensures N.IsLabel(labels[i]) && labels == labels[..i] + ([labels[i]] + labels[i + 1..])
    ensures var more := labels[..i] + [Witness(labels[i])];
      N.AreLabels(more) && ArePlain(more) && |Strings.Join(more, '.')| <= |Strings.Join(labels, '.')|
  {
    hide Witness, IsPlain, N.IsLabel, Strings.Join;
    WitnessDiffers(labels[i]);
    JoinShorter(labels[..i], labels[i], labels[i + 1..], Witness(labels[i]));
    assert labels == labels[..i] + ([labels[i]] + labels[i + 1..]);
  }

  lemma CounterpartReads(raw: string, i: nat)
    requires N.Parse(raw).Some? && i < |N.Labels(raw)| && !IsPlain(N.Labels(raw)[i]) && ArePlain(N.Labels(raw)[..i])
    ensures var y := Counterpart(raw, i);
      && N.Parse(y).Some? && HasPlainLabels(y) && N.NumericText(y) == N.NumericText(raw)
      && N.Labels(y) == N.Labels(raw)[..i] + [Witness(N.Labels(raw)[i])]
  {
    BothRead(raw);
    assert N.LabelText(raw).Some?;
    hide N.Parse, N.LabelText, N.NumericText, N.Labels, Witness, IsPlain, N.AreLabels, ArePlain, N.MetadataIsValid, Strings.Join, N.LowerAll, O.Parse,
         N.Numbers, Strings.Split, Pad;
    WitnessInPlace(N.Labels(raw), i);
    LengthOf(raw);
    WithLabelsReads(N.NumericText(raw), N.Labels(raw)[..i] + [Witness(N.Labels(raw)[i])]);
    ReadsLike(raw, Counterpart(raw, i));
  }

  lemma CounterpartDisagrees(raw: string, i: nat)
    requires N.Parse(raw).Some? && i < |N.Labels(raw)| && !IsPlain(N.Labels(raw)[i]) && ArePlain(N.Labels(raw)[..i])
    ensures var y := Counterpart(raw, i);
      && N.Parse(y).Some? && HasPlainLabels(y)
      && O.CompareTexts(raw, y) != Some(U.Compare(N.Parse(raw).value, N.Parse(y).value))
  {
    BothRead(raw);
    hide N.Parse, N.LabelText, N.NumericText, N.Labels, Witness, IsPlain, N.IsLabel, Counterpart, O.CompareTexts, U.Compare, CompareTails, N.LowerAll,
         ArePlain, N.AreLabels, O.Parse, N.Numbers, Strings.Split, Pad, O.CompareLabels, U.CompareLabels, Strings.Join;
    var labels := N.Labels(raw);
    CounterpartReads(raw, i);
    WitnessInPlace(labels, i);
    LabelsDecide(raw, Counterpart(raw, i));
    ListsDisagree(labels[..i], labels[i], labels[i + 1..]);
  }

  lemma {:induction false} FirstNotPlain(labels: seq<string>) returns (i: nat)
    requires !ArePlain(labels)
    ensures i < |labels| && !IsPlain(labels[i]) && ArePlain(labels[..i])
  {
    hide IsPlain;
    var n := |labels| - 1;
    if ArePlain(labels[..n]) {
      i := n;
    } else {
      i := FirstNotPlain(labels[..n]);
      assert labels[..n][..i] == labels[..i];
    }
  }

  ghost predicate ComparesAlike(x: string, y: string)
    requires N.Parse(x).Some? && N.Parse(y).Some?
  {
    O.CompareTexts(x, y) == Some(U.Compare(N.Parse(x).value, N.Parse(y).value))
  }

  /** Exactly the versions with plain labels are put alike among those with plain
      labels. */
  lemma ComparisonsAgreeExactly(x: string)
    requires N.Parse(x).Some?
    ensures HasPlainLabels(x) <==> forall y :: N.Parse(y).Some? && HasPlainLabels(y) ==> ComparesAlike(x, y)
  {
    hide N.Parse, N.Labels, ArePlain, IsPlain, O.CompareTexts, U.Compare, Counterpart;
    if HasPlainLabels(x) {
      forall y | N.Parse(y).Some? && HasPlainLabels(y)
        ensures ComparesAlike(x, y)
      {
        ComparisonsAgree(x, y);
      }
    } else {
      var i := FirstNotPlain(N.Labels(x));
      CounterpartDisagrees(x, i);
      assert !ComparesAlike(x, Counterpart(x, i));
    }
  }

  // ---- where they part ----

  lemma ListsOfOne(cmp: (string, string) -> int, a: string, b: string)
    ensures CompareTails(cmp, [a], [b]) == cmp(a, b)
    ensures N.LowerAll([a]) == [Strings.ToLower(a)]
  {
    assert [a][1..] == [] && [b][1..] == [];
    assert CompareLists(cmp, [a][1..], [b][1..]) == 0;
  }

  /** Versions that differ in their one label only. */
  lemma OneLabel(a: string, b: string)
    requires N.IsLabel(a) && N.IsLabel(b) && |a| <= 1000 && |b| <= 1000
    ensures var x, y := WithLabels("1", [a]), WithLabels("1", [b]);
      && N.Parse(x).Some? && N.Parse(y).Some?
      && O.CompareTexts(x, y) == Some(O.CompareLabels(a, b))
      && U.Compare(N.Parse(x).value, N.Parse(y).value) == U.CompareLabels(Strings.ToLower(a), Strings.ToLower(b))
  {
    hide N.Parse, N.NumericText, N.Labels, N.LowerAll, N.IsLabel, O.CompareTexts, U.Compare, O.CompareLabels, U.CompareLabels, CompareTails,
         Strings.ToLower, WithLabels;
    OneLabelReads(a);
    OneLabelReads(b);
    LabelsDecide(WithLabels("1", [a]), WithLabels("1", [b]));
    ListsOfOne(O.CompareLabels, a, b);
    ListsOfOne(O.CompareLabels, b, a);
    ListsOfOne(U.CompareLabels, Strings.ToLower(a), Strings.ToLower(b));
  }

  lemma OneNumber()
    ensures '-' !in "1" && '+' !in "1" && Strings.Split("1", '.') == ["1"] && N.Numbers(["1"]) == Some([1])
  {
    OneIsPlain();
    assert "1"[0] == '1' && |"1"| == 1;
    Strings.SplitPiece("1", '.', "");
    var pieces := ["1"];
    assert pieces[..|pieces| - 1] == [] && pieces[|pieces| - 1] == "1";
    assert N.Numbers(pieces[..|pieces| - 1]) == Some([]);
    assert N.Numbers(pieces) == Some([] + [1]);
    assert [] + [1] == [1];
  }

  lemma OneLabelReads(a: string)
    requires N.IsLabel(a) && |a| <= 1000
    ensures var x := WithLabels("1", [a]);
      N.Parse(x).Some? && N.NumericText(x) == "1" && N.Labels(x) == [a]
  {
    OneNumber();
    assert |"1"| == 1;
    assert Strings.Join([a], '.') == a;
    hide N.NumericText, N.Labels, N.MetadataIsValid, N.IsLabel, N.Numbers, Strings.Split, Strings.Join, N.LowerAll;
    var x := WithLabels("1", [a]);
    assert N.AreLabels([a]);
    WithLabelsReads("1", [a]);
    assert x != "" && |x| <= N.MAX_LENGTH;
    assert N.AreLabels(N.Labels(x)) && N.MetadataIsValid(x);
    assert Strings.Split(N.NumericText(x), '.') == ["1"];
  }

  /** Capitals sort before small letters in one comparison and with them in the
      other. */
  lemma CapitalsDisagree()
    ensures var x, y := WithLabels("1", ["B"]), WithLabels("1", ["a"]);
      && N.Parse(x).Some? && N.Parse(y).Some?
      && U.Compare(N.Parse(x).value, N.Parse(y).value) == 1 && O.CompareTexts(x, y) == Some(-1)
  {
    assert "B"[0] == 'B' && |"B"| == 1 && "a"[0] == 'a' && |"a"| == 1 && "b"[0] == 'b' && |"b"| == 1;
    OneLabel("B", "a");
    CapitalLabelsDisagree();
    hide *;
  }

  lemma CapitalLabelsDisagree()
    ensures U.CompareLabels(Strings.ToLower("B"), Strings.ToLower("a")) == 1
    ensures O.CompareLabels("B", "a") == -1
  {
    assert Strings.ToLower("B") == "b" && Strings.ToLower("a") == "a";
    assert "B"[0] == 'B' && "a"[0] == 'a' && "b"[0] == 'b';
    assert !IsDigit("B"[0]) && !IsDigit("a"[0]) && !IsDigit("b"[0]);
  }

  /** A hyphen and digits is a name in one comparison and a negative number in the
      other. */
  lemma HyphensDisagree(text: string)
    requires N.IsLabel(text) && |text| <= 1000 && IsNegativeInt(text)
    ensures var x, y := WithLabels("1", [text]), WithLabels("1", ["1"]);
      && N.Parse(x).Some? && N.Parse(y).Some?
      && U.Compare(N.Parse(x).value, N.Parse(y).value) == 1 && O.CompareTexts(x, y) == Some(-1)
  {
    OneIsPlain();
    NegativeInt(text);
    NegativeStaysLow(text);
    hide N.Parse, N.IsLabel, ValueOf, O.Atoi, WithLabels;
    OneLabel(text, "1");
  }

  lemma NegativeStaysLow(text: string)
    requires IsNegativeInt(text)
    ensures !N.IsDecimal(Strings.ToLower(text))
  {
    assert Strings.ToLower(text)[0] == '-';
  }

  /** A number too large for an int stays a number in one comparison and becomes a
      name in the other. */
  lemma LargeNumbersDisagree(text: string)
    requires N.IsDecimal(text) && ValueOf(text) >= O.INT_LIMIT && |text| <= 1000
    ensures var x, y := WithLabels("1", [text]), WithLabels("1", ["-"]);
      && N.Parse(x).Some? && N.Parse(y).Some?
      && U.Compare(N.Parse(x).value, N.Parse(y).value) == -1 && O.CompareTexts(x, y) == Some(1)
  {
    OneIsPlain();
    DigitsAreLow(text);
    assert N.IsLabel(text);
    LargeLabelsDisagree(text);
    hide N.Parse, N.IsLabel, ValueOf, WithLabels, O.CompareLabels, U.CompareLabels;
    OneLabel(text, "-");
  }

  lemma {:induction false} DigitsAreLow(text: string)
    requires AllDigits(text)
    ensures Strings.ToLower(text) == text
  {
    if text != [] {
      DigitsAreLow(text[1..]);
      assert IsDigit(text[0]) && text == [text[0]] + text[1..];
    }
  }

  lemma LargeLabelsDisagree(text: string)
    requires N.IsDecimal(text) && ValueOf(text) >= O.INT_LIMIT
    ensures U.CompareLabels(text, "-") == -1 && O.CompareLabels(text, "-") == 1
  {
    assert IsDigit(text[0]) && "-"[0] == '-' && |"-"| == 1;
  }
}
