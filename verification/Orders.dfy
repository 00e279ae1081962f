/** Comparisons with a sign as their answer, and lists compared element by element.
 */
module Orders {

  /** The answers are those of a total preorder. */
  ghost predicate IsPreorder<T(!new)>(cmp: (T, T) -> int) {
    && (forall a, b :: cmp(a, b) == -cmp(b, a))
    && (forall a, b, c :: cmp(a, b) <= 0 && cmp(b, c) <= 0 ==> cmp(a, c) <= 0)
  }

  function CompareInts(a: int, b: int): int {
    if a < b then -1 else if a > b then 1 else 0
  }

  /** By the first elements that differ; otherwise the shorter list is lower. */
  function CompareLists<T>(cmp: (T, T) -> int, a: seq<T>, b: seq<T>): int {
    if a == [] || b == [] then CompareInts(|a|, |b|)
    else if cmp(a[0], b[0]) != 0 then cmp(a[0], b[0])
    else CompareLists(cmp, a[1..], b[1..])
  }

  lemma NextElement<T>(cmp: (T, T) -> int, a: seq<T>, b: seq<T>, i: nat)
    requires i < |a| && i < |b|
    ensures CompareLists(cmp, a[i..], b[i..]) == if cmp(a[i], b[i]) != 0 then cmp(a[i], b[i]) else CompareLists(cmp, a[i + 1..], b[i + 1..])
  {
    assert a[i..][1..] == a[i + 1..] && b[i..][1..] == b[i + 1..];
  }

  lemma EndOfLists<T>(cmp: (T, T) -> int, a: seq<T>, b: seq<T>)
    requires a == [] || b == []
    ensures CompareLists(cmp, a, b) == CompareInts(|a|, |b|)
  {
  }

  lemma {:induction false} ListsAntisymmetric<T(!new)>(cmp: (T, T) -> int, a: seq<T>, b: seq<T>)
    requires IsPreorder(cmp)
    ensures CompareLists(cmp, a, b) == -CompareLists(cmp, b, a)
  {
    if a != [] && b != [] {
      ListsAntisymmetric(cmp, a[1..], b[1..]);
    }
  }

  /** Elements that compare equal compare alike with a third. */
  lemma EqualsCompareAlike<T(!new)>(cmp: (T, T) -> int, a: T, b: T, c: T)
    requires IsPreorder(cmp) && cmp(a, b) <= 0 && cmp(b, c) <= 0
    ensures cmp(a, c) <= 0
    ensures cmp(a, c) == 0 ==> cmp(a, b) == 0 && cmp(b, c) == 0
    ensures cmp(a, b) == 0 && cmp(b, c) == 0 ==> cmp(a, c) == 0
  {
    assert cmp(b, a) == -cmp(a, b) && cmp(c, b) == -cmp(b, c) && cmp(c, a) == -cmp(a, c);
  }

  lemma {:induction false} ListsTransitive<T(!new)>(cmp: (T, T) -> int, a: seq<T>, b: seq<T>, c: seq<T>)
    requires IsPreorder(cmp)
    requires CompareLists(cmp, a, b) <= 0 && CompareLists(cmp, b, c) <= 0
    ensures CompareLists(cmp, a, c) <= 0
  {
    if a != [] && b != [] && c != [] {
      EqualsCompareAlike(cmp, a[0], b[0], c[0]);
      if cmp(a[0], b[0]) == 0 && cmp(b[0], c[0]) == 0 {
        ListsTransitive(cmp, a[1..], b[1..], c[1..]);
      }
    }
  }

  /** Lists under an order of their elements are in order themselves. */
  lemma ListsChain<T(!new)>(cmp: (T, T) -> int, a: seq<T>, b: seq<T>, c: seq<T>)
    requires IsPreorder(cmp)
    requires CompareLists(cmp, a, b) <= 0 && CompareLists(cmp, b, c) <= 0
    ensures CompareLists(cmp, a, c) <= 0
    ensures CompareLists(cmp, a, c) == 0 ==> CompareLists(cmp, a, b) == 0 && CompareLists(cmp, b, c) == 0
  {
    ListsTransitive(cmp, a, b, c);
    ListsAntisymmetric(cmp, a, b);
    ListsAntisymmetric(cmp, b, c);
    ListsAntisymmetric(cmp, a, c);
    if CompareLists(cmp, a, c) == 0 {
      ListsTransitive(cmp, b, c, a);
      ListsTransitive(cmp, c, a, b);
    }
  }

  /** The numbers, followed by zeros up to n of them. */
  function Pad(numbers: seq<int>, n: nat): (padded: seq<int>)
    ensures |numbers| <= n ==> |padded| == n
  {
    numbers + seq(if |numbers| < n then n - |numbers| else 0, _ => 0)
  }

  /** Labels after a version's numbers: none at all is the highest. */
  function CompareTails<T>(cmp: (T, T) -> int, a: seq<T>, b: seq<T>): int {
    if a == [] && b == [] then 0
    else if a == [] then 1
    else if b == [] then -1
    else CompareLists(cmp, a, b)
  }

  /** A version's numbers and the labels after them. */
  datatype Ranked = Ranked(numbers: seq<int>, labels: seq<string>)

  /** The numbers decide before the labels do. */
  function CompareRanked(cmp: (string, string) -> int, a: Ranked, b: Ranked): int {
    var c := CompareLists(CompareInts, a.numbers, b.numbers);
    if c != 0 then c else CompareTails(cmp, a.labels, b.labels)
  }

  lemma RankedAntisymmetric(cmp: (string, string) -> int, a: Ranked, b: Ranked)
    requires IsPreorder(cmp)
    ensures CompareRanked(cmp, a, b) == -CompareRanked(cmp, b, a)
  {
    ListsAntisymmetric(CompareInts, a.numbers, b.numbers);
    ListsAntisymmetric(cmp, a.labels, b.labels);
  }

  lemma RankedTransitive(cmp: (string, string) -> int, a: Ranked, b: Ranked, c: Ranked)
    requires IsPreorder(cmp) && CompareRanked(cmp, a, b) <= 0 && CompareRanked(cmp, b, c) <= 0
    ensures CompareRanked(cmp, a, c) <= 0
  {
    hide CompareLists;
    ListsChain(CompareInts, a.numbers, b.numbers, c.numbers);
    if CompareLists(CompareInts, a.numbers, c.numbers) == 0 && a.labels != [] && b.labels != [] && c.labels != [] {
      ListsChain(cmp, a.labels, b.labels, c.labels);
    }
  }

  /** Precedence orders all versions, whatever the order of their labels. */
  lemma RankedIsPreorder(cmp: (string, string) -> int)
    requires IsPreorder(cmp)
    ensures IsPreorder((a: Ranked, b: Ranked) => CompareRanked(cmp, a, b))
  {
    hide CompareRanked;
    forall a, b
      ensures CompareRanked(cmp, a, b) == -CompareRanked(cmp, b, a)
    {
      RankedAntisymmetric(cmp, a, b);
    }
    forall a, b, c | CompareRanked(cmp, a, b) <= 0 && CompareRanked(cmp, b, c) <= 0
      ensures CompareRanked(cmp, a, c) <= 0
    {
      RankedTransitive(cmp, a, b, c);
    }
  }

  // ---- precedence, said without comparing ----

  /** a stands before b in a lexicon: at some place where all before it are alike, a has
      the lower element, or ends. */
  ghost predicate Lexicographic<T(!new)>(below: (T, T) -> bool, a: seq<T>, b: seq<T>) {
    exists k: nat :: k <= |a| && k < |b| && FirstDifference(below, a, b, k)
  }

  ghost predicate FirstDifference<T(!new)>(below: (T, T) -> bool, a: seq<T>, b: seq<T>, k: nat)
    requires k <= |a| && k < |b|
  {
    && (forall i :: 0 <= i < k ==> !below(a[i], b[i]) && !below(b[i], a[i]))
    && (k == |a| || below(a[k], b[k]))
  }

  lemma DifferenceInTail<T(!new)>(below: (T, T) -> bool, a: seq<T>, b: seq<T>, k: nat)
    requires a != [] && b != [] && k < |a| && k + 1 < |b| && !below(a[0], b[0]) && !below(b[0], a[0])
    ensures FirstDifference(below, a, b, k + 1) <==> FirstDifference(below, a[1..], b[1..], k)
  {
    var x, y := a[1..], b[1..];
    assert forall i :: 0 <= i < k ==> x[i] == a[i + 1] && y[i] == b[i + 1];
    if FirstDifference(below, a[1..], b[1..], k) {
      forall i | 0 <= i < k + 1
        ensures !below(a[i], b[i]) && !below(b[i], a[i])
      {
        assert i > 0 ==> x[i - 1] == a[i] && y[i - 1] == b[i];
      }
    }
  }

  lemma LexicographicTails<T(!new)>(below: (T, T) -> bool, a: seq<T>, b: seq<T>)
    requires a != [] && b != [] && !below(a[0], b[0]) && !below(b[0], a[0])
    ensures Lexicographic(below, a, b) <==> Lexicographic(below, a[1..], b[1..])
  {
    if k: nat :| k <= |a| && k < |b| && FirstDifference(below, a, b, k) {
      DifferenceInTail(below, a, b, k - 1);
    }
    if k: nat :| k <= |a[1..]| && k < |b[1..]| && FirstDifference(below, a[1..], b[1..], k) {
      DifferenceInTail(below, a, b, k);
    }
  }

  /** What the sign of a comparison means for the elements. */
  ghost predicate SignOf<T(!new)>(cmp: (T, T) -> int, below: (T, T) -> bool) {
    forall a, b :: (below(a, b) <==> cmp(a, b) < 0) && (below(b, a) <==> cmp(a, b) > 0)
  }

  /** Comparing element by element puts lists in the order of a lexicon. */
  lemma {:induction false} ListsAreLexicographic<T(!new)>(cmp: (T, T) -> int, below: (T, T) -> bool, a: seq<T>, b: seq<T>)
    requires SignOf(cmp, below)
    ensures CompareLists(cmp, a, b) < 0 <==> Lexicographic(below, a, b)
  {
    if a == [] {
      assert b != [] ==> FirstDifference(below, a, b, 0);
    } else if b != [] {
      assert (below(a[0], b[0]) <==> cmp(a[0], b[0]) < 0) && (below(b[0], a[0]) <==> cmp(a[0], b[0]) > 0);
      if below(a[0], b[0]) {
        assert FirstDifference(below, a, b, 0);
      } else if below(b[0], a[0]) {
        assert forall k: nat :: k <= |a| && k < |b| ==> !FirstDifference(below, a, b, k);
      } else {
        LexicographicTails(below, a, b);
        ListsAreLexicographic(cmp, below, a[1..], b[1..]);
      }
    }
  }

  ghost predicate LowerNumber(a: int, b: int) {
    a < b
  }

  /** Labels after the same numbers: any are below none, and otherwise as in a lexicon. */
  ghost predicate LabelsBelow(below: (string, string) -> bool, a: seq<string>, b: seq<string>) {
    a != [] && (b == [] || Lexicographic(below, a, b))
  }

  /** v is lower than w: by the numbers, and if these are the same, by the labels. */
  ghost predicate RankedBelow(below: (string, string) -> bool, v: Ranked, w: Ranked) {
    Lexicographic(LowerNumber, v.numbers, w.numbers) || (v.numbers == w.numbers && LabelsBelow(below, v.labels, w.labels))
  }

  lemma {:induction false} NumbersAreEqual(a: seq<int>, b: seq<int>)
    ensures CompareLists(CompareInts, a, b) == 0 <==> a == b
  {
    if a != [] && b != [] {
      NumbersAreEqual(a[1..], b[1..]);
      assert a == [a[0]] + a[1..] && b == [b[0]] + b[1..];
    }
  }

  /** The comparison of versions puts them in that order. */
  lemma RankedMeans(cmp: (string, string) -> int, below: (string, string) -> bool, v: Ranked, w: Ranked)
    requires SignOf(cmp, below)
    ensures CompareRanked(cmp, v, w) < 0 <==> RankedBelow(below, v, w)
  {
    assert SignOf(CompareInts, LowerNumber);
    ListsAreLexicographic(CompareInts, LowerNumber, v.numbers, w.numbers);
    NumbersAreEqual(v.numbers, w.numbers);
    ListsAreLexicographic(cmp, below, v.labels, w.labels);
    hide CompareLists, Lexicographic, SignOf;
  }
}
