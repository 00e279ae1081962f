/** The precedence of NuGet versions, by item 11 of Semantic Versioning 2.0.0 but for
    their four numbers and lowered labels, and the choice of an update.
 */
module NuGetUpdates {
  import opened Options
  import opened Orders
  import opened Decimal
  import opened NuGetVersions
  import Strings

  // ---- precedence ----

  /** Numbers below names; numbers by length and then digits, without leading
      zeros; names by their characters. */
  function CompareLabels(a: string, b: string): int {
    if IsDecimal(a) != IsDecimal(b) then (if IsDecimal(a) then -1 else 1)
    else if IsDecimal(a) then
      var x, y := TrimZeros(a), TrimZeros(b);
      if |x| != |y| then CompareInts(|x|, |y|) else Strings.Compare(x, y)
    else Strings.Compare(a, b)
  }

  /** Digit strings of any length compare as the numbers they denote. */
  lemma NumericLabelsCompareAsNumbers(a: string, b: string)
    requires IsDecimal(a) && IsDecimal(b)
    ensures CompareLabels(a, b) == CompareInts(ValueOf(a), ValueOf(b))
  {
    TrimmedZeros(a);
    TrimmedZeros(b);
    var x, y := TrimZeros(a), TrimZeros(b);
    if |x| < |y| {
      ShorterIsLess(x, y);
    } else if |y| < |x| {
      ShorterIsLess(y, x);
    } else {
      SameLengthOrder(x, y);
    }
  }

  lemma LabelsAntisymmetric(a: string, b: string)
    ensures CompareLabels(a, b) == -CompareLabels(b, a)
  {
    if IsDecimal(a) && IsDecimal(b) {
      NumericLabelsCompareAsNumbers(a, b);
      NumericLabelsCompareAsNumbers(b, a);
    } else {
      Strings.CompareIsAntisymmetric(a, b);
    }
  }

  lemma LabelsTransitive(a: string, b: string, c: string)
    requires CompareLabels(a, b) <= 0 && CompareLabels(b, c) <= 0
    ensures CompareLabels(a, c) <= 0
  {
    if IsDecimal(a) && IsDecimal(b) && IsDecimal(c) {
      NumericLabelsCompareAsNumbers(a, b);
      NumericLabelsCompareAsNumbers(b, c);
      NumericLabelsCompareAsNumbers(a, c);
    } else if !IsDecimal(a) && !IsDecimal(b) && !IsDecimal(c) {
      Strings.CompareIsTransitive(a, b, c);
    }
  }

  lemma LabelsArePreordered()
    ensures IsPreorder(CompareLabels)
  {
    hide CompareLabels;
    forall a, b
      ensures CompareLabels(a, b) == -CompareLabels(b, a)
    {
      LabelsAntisymmetric(a, b);
    }
    forall a, b, c | CompareLabels(a, b) <= 0 && CompareLabels(b, c) <= 0
      ensures CompareLabels(a, c) <= 0
    {
      LabelsTransitive(a, b, c);
    }
  }

  function Compare(v: Version, w: Version): int {
    CompareRanked(CompareLabels, v, w)
  }

  /** Precedence is a total preorder of versions. */
  lemma PrecedenceIsPreorder()
    ensures IsPreorder(Compare)
  {
    hide CompareRanked;
    LabelsArePreordered();
    RankedIsPreorder(CompareLabels);
    var ranked := (a: Ranked, b: Ranked) => CompareRanked(CompareLabels, a, b);
    assert forall a, b :: ranked(a, b) == Compare(a, b);
  }

  method CompareVersions(v: Version, other: Version) returns (c: int)
    requires |v.numbers| == |other.numbers| == 4
    ensures c == Compare(v, other)
  {
    hide CompareLists, CompareLabels;
    assert v.numbers[0..] == v.numbers && other.numbers[0..] == other.numbers;
    for i := 0 to 4
      invariant CompareLists(CompareInts, v.numbers, other.numbers) == CompareLists(CompareInts, v.numbers[i..], other.numbers[i..])
    {
      NextElement(CompareInts, v.numbers, other.numbers, i);
      c := CompareInts(v.numbers[i], other.numbers[i]);
      if c != 0 {
        return;
      }
    }
    EndOfLists(CompareInts, v.numbers[4..], other.numbers[4..]);
    if |v.labels| == 0 || |other.labels| == 0 {
      if |v.labels| == |other.labels| {
        return 0;
      }
      return if |v.labels| == 0 then 1 else -1;
    }
    c := ComparePre(v.labels, other.labels);
  }

  method ComparePre(a: seq<string>, b: seq<string>) returns (c: int)
    ensures c == CompareLists(CompareLabels, a, b)
  {
    hide CompareLists;
    var i := 0;
    assert a[0..] == a && b[0..] == b;
    while i < |a| && i < |b|
      invariant i <= |a| && i <= |b|
      invariant CompareLists(CompareLabels, a, b) == CompareLists(CompareLabels, a[i..], b[i..])
    {
      NextElement(CompareLabels, a, b, i);
      var x, y := a[i], b[i];
      var xn, yn := IsDecimal(x), IsDecimal(y);
      if xn != yn {
        return if xn then -1 else 1;
      }
      if xn {
        x, y := TrimZeros(x), TrimZeros(y);
        c := CompareInts(|x|, |y|);
        if c != 0 {
          return;
        }
      }
      c := Strings.Compare(x, y);
      if c != 0 {
        return;
      }
      i := i + 1;
    }
    EndOfLists(CompareLabels, a[i..], b[i..]);
    c := CompareInts(|a|, |b|);
  }

  // ---- choosing an update ----

  datatype Selection = Latest(raw: string) | NoVersions | BadCurrent | BadVersion

  /** A stable pin is not moved to a prerelease. */
  predicate Eligible(base: Version, v: Version) {
    base.labels == [] ==> v.labels == []
  }

  /** raw is a version of the pin's channel that nothing eligible exceeds; the first
      such in the list, and only if it exceeds the pin. */
  ghost predicate IsBest(current: string, versions: seq<string>, raw: string) {
    && Parse(current).Some? && Parse(raw).Some?
    && var base, best := Parse(current).value, Parse(raw).value;
    && Eligible(base, best)
    && Compare(best, base) >= 0
    && (forall i :: 0 <= i < |versions| ==> NotAbove(base, Parse(versions[i]), best))
    && (raw == current || exists k :: 0 <= k < |versions| && versions[k] == raw && Compare(best, base) > 0 && FirstAt(base, versions, k, best))
  }

  predicate NotAbove(base: Version, v: Option<Version>, best: Version) {
    v.Some? && (Eligible(base, v.value) ==> Compare(v.value, best) <= 0)
  }

  ghost predicate FirstAt(base: Version, versions: seq<string>, k: nat, best: Version) {
    forall i :: 0 <= i < k && i < |versions| ==> Below(base, Parse(versions[i]), best)
  }

  predicate Below(base: Version, v: Option<Version>, best: Version) {
    v.Some? && (Eligible(base, v.value) ==> Compare(v.value, best) < 0)
  }

  lemma ParsedHasFourParts(raw: string)
    ensures Parse(raw).Some? ==> |Parse(raw).value.numbers| == 4
  {
    NumbersEach(Strings.Split(NumericText(raw), '.'));
  }

  lemma OneMoreVersion(current: string, before: seq<string>, next: string, raw: string)
    requires IsBest(current, before, raw) && Parse(next).Some?
    ensures var base, v := Parse(current).value, Parse(next).value;
      IsBest(current, before + [next], if Eligible(base, v) && Compare(v, Parse(raw).value) > 0 then next else raw)
  {
    hide Compare, Parse, Eligible;
    PrecedenceIsPreorder();
    var base, best, v, after := Parse(current).value, Parse(raw).value, Parse(next).value, before + [next];
    assert Compare(v, v) == 0 && Compare(best, base) == -Compare(base, best) && Compare(v, best) == -Compare(best, v);
    assert Compare(v, base) == -Compare(base, v);
    if Eligible(base, v) && Compare(v, best) > 0 {
      EqualsCompareAlike(Compare, base, best, v);
      forall i | 0 <= i < |before|
        ensures Below(base, Parse(after[i]), v)
      {
        assert NotAbove(base, Parse(before[i]), best);
        if Eligible(base, Parse(before[i]).value) {
          EqualsCompareAlike(Compare, Parse(before[i]).value, best, v);
        }
      }
      assert after[|before|] == next && FirstAt(base, after, |before|, v);
    } else {
      forall i | 0 <= i < |after|
        ensures NotAbove(base, Parse(after[i]), best)
      {
        if i < |before| {
          assert NotAbove(base, Parse(before[i]), best);
        }
      }
      if raw != current {
        var k :| 0 <= k < |before| && before[k] == raw && FirstAt(base, before, k, best);
        assert after[k] == raw;
        forall i | 0 <= i < k
          ensures Below(base, Parse(after[i]), best)
        {
          assert Below(base, Parse(before[i]), best);
        }
        assert FirstAt(base, after, k, best);
      }
    }
  }

  lemma BestOfNone(current: string)
    requires Parse(current).Some?
    ensures IsBest(current, [], current)
  {
    hide Compare;
    PrecedenceIsPreorder();
    var base := Parse(current).value;
    assert Compare(base, base) == -Compare(base, base);
  }

  /** The greatest version of the pin's channel, or the pin. */
  method SelectUpdate(current: string, versions: seq<string>) returns (r: Selection)
    ensures r.NoVersions? <==> versions == []
    ensures r.BadCurrent? <==> versions != [] && Parse(current) == None
    ensures r.BadVersion? <==> versions != [] && Parse(current).Some? && exists i :: 0 <= i < |versions| && Parse(versions[i]) == None
    ensures r.Latest? ==> IsBest(current, versions, r.raw)
  {
    hide Parse, Compare, IsBest;
    if |versions| == 0 {
      return NoVersions;
    }
    var parsed := ParseVersion(current);
    if parsed == None {
      return BadCurrent;
    }
    var base := parsed.value;
    var best, latest := base, current;
    BestOfNone(current);
    for i := 0 to |versions|
      invariant forall k :: 0 <= k < i ==> Parse(versions[k]).Some?
      invariant Parse(latest) == Some(best) && IsBest(current, versions[..i], latest)
    {
      var raw := versions[i];
      var v := ParseVersion(raw);
      if v == None {
        return BadVersion;
      }
      OneMoreVersion(current, versions[..i], raw, latest);
      assert versions[..i + 1] == versions[..i] + [raw];
      if |base.labels| == 0 && |v.value.labels| != 0 {
        continue;
      }
      ParsedHasFourParts(raw);
      ParsedHasFourParts(latest);
      var c := CompareVersions(v.value, best);
      if c > 0 {
        best, latest := v.value, raw;
      }
    }
    assert versions[..|versions|] == versions;
    r := Latest(latest);
  }
}
