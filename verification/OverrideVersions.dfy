/** The versions that bound an override's range: any count of numbers, each an int,
    and labels compared as ints where they are.
 */
module OverrideVersions {
  import opened Options
  import opened Orders
  import opened Decimal
  import Strings

  const INT_LIMIT: int := 0x8000_0000_0000_0000

  /** The 64-bit int a text denotes: digits after an optional sign. */
  function Atoi(s: string): Option<int> {
    var signed := s != "" && (s[0] == '-' || s[0] == '+');
    var digits := if signed then s[1..] else s;
    if digits == "" || !AllDigits(digits) then None
    else
      var value: int := ValueOf(digits);
      var n := if signed && s[0] == '-' then -value else value;
      if -INT_LIMIT <= n < INT_LIMIT then Some(n) else None
  }

  // ---- parsing ----

  function Core(pieces: seq<string>): Option<seq<int>> {
    if pieces == [] then Some([])
    else
      var before, last := Core(pieces[..|pieces| - 1]), Atoi(pieces[|pieces| - 1]);
      if before.Some? && last.Some? && last.value >= 0 then Some(before.value + [last.value]) else None
  }

  predicate NoneEmpty(labels: seq<string>) {
    forall i :: 0 <= i < |labels| ==> labels[i] != ""
  }

  function Parse(raw: string): Option<Ranked> {
    var (numeric, prerelease) := Strings.Cut(Strings.Cut(raw, '+').0, '-');
    var core := Core(Strings.Split(numeric, '.'));
    var labels := if prerelease == None then [] else Strings.Split(prerelease.value, '.');
    if core == None || !NoneEmpty(labels) then None else Some(Ranked(core.value, labels))
  }

  // ---- precedence ----

  function CompareLabels(a: string, b: string): int {
    var x, y := Atoi(a), Atoi(b);
    if x.Some? && y.Some? then CompareInts(x.value, y.value)
    else if x.Some? then -1
    else if y.Some? then 1
    else Strings.Compare(a, b)
  }

  lemma LabelsArePreordered()
    ensures IsPreorder(CompareLabels)
  {
    hide Atoi, Strings.Compare;
    forall a, b
      ensures CompareLabels(a, b) == -CompareLabels(b, a)
    {
      Strings.CompareIsAntisymmetric(a, b);
    }
    forall a, b, c | CompareLabels(a, b) <= 0 && CompareLabels(b, c) <= 0
      ensures CompareLabels(a, c) <= 0
    {
      if Atoi(a) == None && Atoi(b) == None && Atoi(c) == None {
        Strings.CompareIsTransitive(a, b, c);
      }
    }
  }

  function Longer(a: Ranked, b: Ranked): nat {
    if |b.numbers| > |a.numbers| then |b.numbers| else |a.numbers|
  }

  /** The shorter list of numbers counts as followed by zeros. */
  function Compare(a: Ranked, b: Ranked): int {
    var n := Longer(a, b);
    CompareRanked(CompareLabels, Ranked(Pad(a.numbers, n), a.labels), Ranked(Pad(b.numbers, n), b.labels))
  }

  /** More zeros on both sides make no difference. */
  lemma {:induction false} PaddingIsFree(a: seq<int>, b: seq<int>, n: nat, m: nat)
    requires |a| <= n <= m && |b| <= n
    ensures CompareLists(CompareInts, Pad(a, m), Pad(b, m)) == CompareLists(CompareInts, Pad(a, n), Pad(b, n))
    decreases n
  {
    if n == 0 {
      ZerosAreEqual(Pad(a, m));
    } else {
      PadHeadTail(a, n);
      PadHeadTail(a, m);
      PadHeadTail(b, n);
      PadHeadTail(b, m);
      hide Pad;
      PaddingIsFree(Tail(a), Tail(b), n - 1, m - 1);
    }
  }

  function Tail(a: seq<int>): seq<int> {
    if a == [] then [] else a[1..]
  }

  lemma PadHeadTail(a: seq<int>, n: nat)
    requires |a| <= n && n > 0
    ensures Pad(a, n)[0] == if a == [] then 0 else a[0]
    ensures Pad(a, n)[1..] == Pad(Tail(a), n - 1)
  {
  }

  lemma {:induction false} ZerosAreEqual(z: seq<int>)
    ensures CompareLists(CompareInts, z, z) == 0
  {
    if z != [] {
      ZerosAreEqual(z[1..]);
    }
  }

  lemma CompareAtLength(a: Ranked, b: Ranked, n: nat)
    requires Longer(a, b) <= n
    ensures Compare(a, b) == CompareRanked(CompareLabels, Ranked(Pad(a.numbers, n), a.labels), Ranked(Pad(b.numbers, n), b.labels))
  {
    PaddingIsFree(a.numbers, b.numbers, Longer(a, b), n);
  }

  /** Precedence is a total preorder of versions of any length. */
  lemma PrecedenceIsPreorder()
    ensures IsPreorder(Compare)
  {
    hide CompareRanked, CompareLabels, Pad;
    LabelsArePreordered();
    forall a, b
      ensures Compare(a, b) == -Compare(b, a)
    {
      var n := Longer(a, b);
      RankedAntisymmetric(CompareLabels, Ranked(Pad(a.numbers, n), a.labels), Ranked(Pad(b.numbers, n), b.labels));
    }
    forall a, b, c | Compare(a, b) <= 0 && Compare(b, c) <= 0
      ensures Compare(a, c) <= 0
    {
      var n := |a.numbers| + |b.numbers| + |c.numbers|;
      CompareAtLength(a, b, n);
      CompareAtLength(b, c, n);
      CompareAtLength(a, c, n);
      RankedTransitive(CompareLabels, Ranked(Pad(a.numbers, n), a.labels), Ranked(Pad(b.numbers, n), b.labels), Ranked(Pad(c.numbers, n), c.labels));
    }
  }

  // ---- the program's loops ----

  lemma {:induction false} CoreStops(pieces: seq<string>, i: nat)
    requires i <= |pieces| && Core(pieces[..i]) == None
    ensures Core(pieces) == None
  {
    if i == |pieces| {
      assert pieces[..i] == pieces;
    } else {
      assert pieces[..|pieces| - 1][..i] == pieces[..i];
      CoreStops(pieces[..|pieces| - 1], i);
    }
  }

  method ParseVersion(raw: string) returns (r: Option<Ranked>)
    ensures r == Parse(raw)
  {
    hide Strings.Cut, Strings.Split, Atoi;
    var value := Strings.Cut(raw, '+').0;
    var (numeric, prerelease) := Strings.Cut(value, '-');
    var parts := Strings.Split(numeric, '.');
    var core: seq<int> := [];
    for i := 0 to |parts|
      invariant Core(parts[..i]) == Some(core)
    {
      assert parts[..i + 1][..i] == parts[..i];
      var n := Atoi(parts[i]);
      if n == None || n.value < 0 {
        CoreStops(parts, i + 1);
        return None;
      }
      core := core + [n.value];
    }
    assert parts[..|parts|] == parts;
    var labels: seq<string> := [];
    if prerelease.Some? {
      labels := Strings.Split(prerelease.value, '.');
      for i := 0 to |labels|
        invariant NoneEmpty(labels[..i])
      {
        if labels[i] == "" {
          return None;
        }
      }
      assert labels[..|labels|] == labels;
    }
    r := Some(Ranked(core, labels));
  }

  /** None when either version does not parse. */
  function CompareTexts(left: string, right: string): Option<int> {
    var a, b := Parse(left), Parse(right);
    if a == None || b == None then None else Some(Compare(a.value, b.value))
  }

  method CompareVersions(left: string, right: string) returns (r: Option<int>)
    ensures r == CompareTexts(left, right)
  {
    hide Parse, CompareLists, CompareLabels;
    var a := ParseVersion(left);
    if a == None {
      return None;
    }
    var b := ParseVersion(right);
    if b == None {
      return None;
    }
    var c := CompareCores(a.value.numbers, b.value.numbers);
    if c != 0 {
      return Some(c);
    }
    var x, y := a.value.labels, b.value.labels;
    if |x| == 0 && |y| == 0 {
      return Some(0);
    }
    if |x| == 0 {
      return Some(1);
    }
    if |y| == 0 {
      return Some(-1);
    }
    c := ComparePrerelease(x, y);
    r := Some(c);
  }

  method CompareCores(a: seq<int>, b: seq<int>) returns (c: int)
    ensures c == CompareLists(CompareInts, Pad(a, LongerOf(a, b)), Pad(b, LongerOf(a, b)))
  {
    hide CompareLists;
    var length := |a|;
    if |b| > length {
      length := |b|;
    }
    ghost var x, y := Pad(a, length), Pad(b, length);
    assert x[0..] == x && y[0..] == y;
    for i := 0 to length
      invariant CompareLists(CompareInts, x, y) == CompareLists(CompareInts, x[i..], y[i..])
    {
      NextElement(CompareInts, x, y, i);
      var av, bv := 0, 0;
      if i < |a| {
        av := a[i];
      }
      if i < |b| {
        bv := b[i];
      }
      if av < bv {
        return -1;
      }
      if av > bv {
        return 1;
      }
    }
    EndOfLists(CompareInts, x[length..], y[length..]);
    c := 0;
  }

  function LongerOf(a: seq<int>, b: seq<int>): nat {
    if |b| > |a| then |b| else |a|
  }

  method ComparePrerelease(a: seq<string>, b: seq<string>) returns (c: int)
    ensures c == CompareLists(CompareLabels, a, b)
  {
    hide CompareLists, Atoi;
    var i := 0;
    assert a[0..] == a && b[0..] == b;
    while i < |a| && i < |b|
      invariant i <= |a| && i <= |b|
      invariant CompareLists(CompareLabels, a, b) == CompareLists(CompareLabels, a[i..], b[i..])
    {
      NextElement(CompareLabels, a, b, i);
      var av, bv := Atoi(a[i]), Atoi(b[i]);
      if av.Some? && bv.Some? {
        if av.value < bv.value {
          return -1;
        }
        if av.value > bv.value {
          return 1;
        }
      } else if av.Some? {
        return -1;
      } else if bv.Some? {
        return 1;
      } else {
        c := Strings.Compare(a[i], b[i]);
        if c != 0 {
          return;
        }
      }
      i := i + 1;
    }
    EndOfLists(CompareLabels, a[i..], b[i..]);
    c := CompareInts(|a|, |b|);
  }

  // ---- ranges ----

  datatype Range = Range(minInclusive: string, maxInclusive: string)

  /** None when the version or a bound does not parse. */
  function Contains(r: Range, version: string): Option<bool> {
    var low, high := CompareTexts(version, r.minInclusive), CompareTexts(version, r.maxInclusive);
    if low == None || high == None then None else Some(low.value >= 0 && high.value <= 0)
  }

  method VersionInRange(version: string, r: Range) returns (inside: Option<bool>)
    ensures inside == Contains(r, version)
  {
    var min := CompareVersions(version, r.minInclusive);
    if min == None {
      return None;
    }
    var max := CompareVersions(version, r.maxInclusive);
    if max == None {
      return None;
    }
    inside := Some(min.value >= 0 && max.value <= 0);
  }

  /** A range is an interval: what lies between two of its versions is in it. */
  lemma RangeIsInterval(r: Range, a: string, b: string, c: string)
    requires Contains(r, a) == Some(true) && Contains(r, c) == Some(true)
    requires CompareTexts(a, b).Some? && CompareTexts(a, b).value <= 0 && CompareTexts(b, c).Some? && CompareTexts(b, c).value <= 0
    ensures Contains(r, b) == Some(true)
  {
    hide Parse, Compare;
    PrecedenceIsPreorder();
    var low, high := Parse(r.minInclusive).value, Parse(r.maxInclusive).value;
    var x, y, z := Parse(a).value, Parse(b).value, Parse(c).value;
    assert Compare(x, low) == -Compare(low, x) && Compare(y, low) == -Compare(low, y);
    assert Compare(low, x) <= 0 && Compare(x, y) <= 0;
    assert Compare(y, z) <= 0 && Compare(z, high) <= 0;
  }

  /** A range is empty exactly when its bounds are the wrong way round. */
  lemma RangeHoldsItsBounds(r: Range, version: string)
    requires CompareTexts(r.minInclusive, r.maxInclusive).Some?
    ensures CompareTexts(r.minInclusive, r.maxInclusive).value <= 0 ==>
        Contains(r, r.minInclusive) == Some(true) && Contains(r, r.maxInclusive) == Some(true)
    ensures CompareTexts(r.minInclusive, r.maxInclusive).value > 0 ==> Contains(r, version) != Some(true)
  {
    hide Parse, Compare;
    PrecedenceIsPreorder();
    var low, high := Parse(r.minInclusive).value, Parse(r.maxInclusive).value;
    assert Compare(low, low) == 0 && Compare(high, high) == 0 && Compare(high, low) == -Compare(low, high);
    if Contains(r, version) == Some(true) {
      var v := Parse(version).value;
      assert Compare(low, v) == -Compare(v, low);
      assert Compare(low, v) <= 0 && Compare(v, high) <= 0;
    }
  }
}
