/** Stable sorting of sequences under a comparison.
 */
module SeqSort {
  import opened Orders

  /** Puts an element behind those that are not greater. */
  function Insert<T>(cmp: (T, T) -> int, s: seq<T>, x: T): seq<T> {
    if s == [] then [x] else if cmp(x, s[0]) < 0 then [x] + s else [s[0]] + Insert(cmp, s[1..], x)
  }

  function Sort<T>(cmp: (T, T) -> int, s: seq<T>): seq<T> {
    if s == [] then [] else Insert(cmp, Sort(cmp, s[..|s| - 1]), s[|s| - 1])
  }

  ghost predicate IsSorted<T>(cmp: (T, T) -> int, s: seq<T>) {
    forall i, j :: 0 <= i < j < |s| ==> cmp(s[i], s[j]) <= 0
  }

  lemma {:induction false} InsertKeeps<T>(cmp: (T, T) -> int, s: seq<T>, x: T)
    ensures multiset(Insert(cmp, s, x)) == multiset(s) + multiset{x}
  {
    if s != [] && cmp(x, s[0]) >= 0 {
      InsertKeeps(cmp, s[1..], x);
      assert s == [s[0]] + s[1..];
    }
  }

  /** The head is not above the rest, and the rest is in order. */
  ghost predicate IsBelow<T>(cmp: (T, T) -> int, x: T, s: seq<T>) {
    forall i :: 0 <= i < |s| ==> cmp(x, s[i]) <= 0
  }

  lemma SortedByHead<T>(cmp: (T, T) -> int, x: T, s: seq<T>)
    ensures IsSorted(cmp, [x] + s) <==> IsSorted(cmp, s) && IsBelow(cmp, x, s)
  {
    var r := [x] + s;
    forall i | 0 <= i < |s|
      ensures r[i + 1] == s[i]
    {
    }
    if IsSorted(cmp, r) {
      forall i, j | 0 <= i < j < |s|
        ensures cmp(s[i], s[j]) <= 0
      {
        assert cmp(r[i + 1], r[j + 1]) <= 0;
      }
      forall i | 0 <= i < |s|
        ensures cmp(x, s[i]) <= 0
      {
        assert cmp(r[0], r[i + 1]) <= 0;
      }
    }
  }

  lemma BelowAll<T(!new)>(cmp: (T, T) -> int, x: T, y: T, s: seq<T>)
    requires IsPreorder(cmp) && cmp(x, y) <= 0 && IsBelow(cmp, y, s)
    ensures IsBelow(cmp, x, [y] + s)
  {
  }

  lemma {:induction false} InsertSorts<T(!new)>(cmp: (T, T) -> int, s: seq<T>, x: T)
    requires IsPreorder(cmp) && IsSorted(cmp, s)
    ensures IsSorted(cmp, Insert(cmp, s, x))
  {
    if s != [] {
      var head, rest := s[0], s[1..];
      assert s == [head] + rest;
      assert cmp(x, head) == -cmp(head, x);
      hide IsSorted, IsBelow, IsPreorder;
      SortedByHead(cmp, head, rest);
      if cmp(x, head) < 0 {
        BelowAll(cmp, x, head, rest);
        SortedByHead(cmp, x, s);
      } else {
        InsertSorts(cmp, rest, x);
        InsertAbove(cmp, head, rest, x);
        SortedByHead(cmp, head, Insert(cmp, rest, x));
      }
    }
  }

  lemma InsertAbove<T(!new)>(cmp: (T, T) -> int, head: T, s: seq<T>, x: T)
    requires cmp(head, x) <= 0 && IsBelow(cmp, head, s)
    ensures IsBelow(cmp, head, Insert(cmp, s, x))
  {
    InsertKeeps(cmp, s, x);
    var rest := Insert(cmp, s, x);
    forall j | 0 <= j < |rest|
      ensures cmp(head, rest[j]) <= 0
    {
      assert rest[j] in multiset(rest);
      assert rest[j] == x || rest[j] in s;
    }
  }

  /** Sorting rearranges, and puts in order. */
  lemma {:induction false} SortSorts<T(!new)>(cmp: (T, T) -> int, s: seq<T>)
    requires IsPreorder(cmp)
    ensures multiset(Sort(cmp, s)) == multiset(s) && IsSorted(cmp, Sort(cmp, s))
  {
    if s != [] {
      var n := |s| - 1;
      SortSorts(cmp, s[..n]);
      InsertKeeps(cmp, Sort(cmp, s[..n]), s[n]);
      InsertSorts(cmp, Sort(cmp, s[..n]), s[n]);
      assert s == s[..n] + [s[n]];
    }
  }

  lemma {:induction false} InsertLast<T(!new)>(cmp: (T, T) -> int, s: seq<T>, x: T)
    requires IsPreorder(cmp) && forall i :: 0 <= i < |s| ==> cmp(s[i], x) <= 0
    ensures Insert(cmp, s, x) == s + [x]
  {
    if s != [] {
      assert cmp(x, s[0]) == -cmp(s[0], x);
      InsertLast(cmp, s[1..], x);
    }
  }

  /** What is in order stays as it is. */
  lemma {:induction false} SortOfSorted<T(!new)>(cmp: (T, T) -> int, s: seq<T>)
    requires IsPreorder(cmp) && IsSorted(cmp, s)
    ensures Sort(cmp, s) == s
  {
    if s != [] {
      var n := |s| - 1;
      SortOfSorted(cmp, s[..n]);
      InsertLast(cmp, s[..n], s[n]);
    }
  }

  /** Elements that compare equal are equal. */
  ghost predicate IsDistinguishing<T>(cmp: (T, T) -> int, s: seq<T>) {
    forall i, j :: 0 <= i < |s| && 0 <= j < |s| && cmp(s[i], s[j]) == 0 ==> s[i] == s[j]
  }

  lemma LastsAreEqual<T(!new)>(cmp: (T, T) -> int, a: seq<T>, b: seq<T>)
    requires IsPreorder(cmp) && IsSorted(cmp, a) && IsSorted(cmp, b) && multiset(a) == multiset(b) && IsDistinguishing(cmp, a) && a != [] && b != []
    ensures a[|a| - 1] == b[|b| - 1]
  {
    var x, y := a[|a| - 1], b[|b| - 1];
    assert x in multiset(b) && y in multiset(a);
    assert x in b && y in a;
    assert cmp(x, y) <= 0 || x == y;
    assert cmp(y, x) <= 0 || x == y;
    assert cmp(x, y) == -cmp(y, x);
  }

  lemma WithoutLast<T>(a: seq<T>, b: seq<T>, n: nat)
    requires |a| == |b| == n + 1 && a[n] == b[n] && multiset(a) == multiset(b)
    ensures multiset(a[..n]) == multiset(b[..n])
  {
    assert a == a[..n] + [a[n]] && b == b[..n] + [b[n]];
    assert multiset(a) == multiset(a[..n]) + multiset{a[n]} && multiset(b) == multiset(b[..n]) + multiset{b[n]};
    assert multiset(a[..n]) == multiset(a) - multiset{a[n]};
  }

  lemma PrefixOf<T>(cmp: (T, T) -> int, s: seq<T>, n: nat)
    requires n <= |s|
    ensures IsSorted(cmp, s) ==> IsSorted(cmp, s[..n])
    ensures IsDistinguishing(cmp, s) ==> IsDistinguishing(cmp, s[..n])
  {
  }

  lemma {:induction false} SortedIsUnique<T(!new)>(cmp: (T, T) -> int, a: seq<T>, b: seq<T>)
    requires IsPreorder(cmp) && IsSorted(cmp, a) && IsSorted(cmp, b) && multiset(a) == multiset(b) && IsDistinguishing(cmp, a)
    ensures a == b
  {
    hide IsSorted, IsDistinguishing, IsPreorder;
    assert |a| == |multiset(a)| && |b| == |multiset(b)|;
    if a != [] {
      var n := |a| - 1;
      LastsAreEqual(cmp, a, b);
      WithoutLast(a, b, n);
      PrefixOf(cmp, a, n);
      PrefixOf(cmp, b, n);
      SortedIsUnique(cmp, a[..n], b[..n]);
      assert a == a[..n] + [a[n]] && b == b[..n] + [b[n]];
    }
  }

  /** With distinct keys, the order before makes no difference. */
  lemma SortForgetsOrder<T(!new)>(cmp: (T, T) -> int, a: seq<T>, b: seq<T>)
    requires IsPreorder(cmp) && multiset(a) == multiset(b) && IsDistinguishing(cmp, a)
    ensures Sort(cmp, a) == Sort(cmp, b)
  {
    SortSorts(cmp, a);
    SortSorts(cmp, b);
    var x := Sort(cmp, a);
    forall i, j | 0 <= i < |x| && 0 <= j < |x| && cmp(x[i], x[j]) == 0
      ensures x[i] == x[j]
    {
      assert x[i] in multiset(a) && x[j] in multiset(a);
    }
    SortedIsUnique(cmp, x, Sort(cmp, b));
  }
}
