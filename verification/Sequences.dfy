/** Sequences without repetition, and the sets of their elements.
 */
module Sequences {
  predicate NoRepeats<T(==)>(s: seq<T>) {
    forall i, j :: 0 <= i < j < |s| ==> s[i] != s[j]
  }

  function SetOf<T>(s: seq<T>): set<T> {
    set x | x in s
  }

  lemma {:induction false} SizeOf<T>(s: seq<T>)
    ensures |SetOf(s)| <= |s|
    ensures NoRepeats(s) <==> |SetOf(s)| == |s|
  {
    if s == [] {
      assert SetOf(s) == {};
    } else {
      var rest, last := s[..|s| - 1], s[|s| - 1];
      SizeOf(rest);
      assert SetOf(s) == SetOf(rest) + {last};
      assert NoRepeats(s) <==> NoRepeats(rest) && last !in rest;
      assert last in rest ==> SetOf(s) == SetOf(rest);
    }
  }

  /** Without repetition, told by counting. */
  lemma NoRepeatsIn<T>(a: seq<T>, b: seq<T>)
    requires multiset(a) == multiset(b) && NoRepeats(a)
    ensures NoRepeats(b)
  {
    assert |a| == |multiset(a)| == |multiset(b)| == |b|;
    forall x
      ensures x in SetOf(a) <==> x in SetOf(b)
    {
      assert x in multiset(a) <==> x in multiset(b);
    }
    assert SetOf(a) == SetOf(b);
    SizeOf(a);
    SizeOf(b);
  }

  lemma Included<T>(a: set<T>, b: set<T>)
    requires a <= b && |a| >= |b|
    ensures a == b
  {
    assert |b - a| == |b| - |a|;
    assert b == a + (b - a);
  }

  /** All numbers below n, each once. */
  predicate IsPermutation(order: seq<nat>, n: nat) {
    |order| == n && NoRepeats(order) && forall i :: 0 <= i < n ==> order[i] < n
  }

  function IndexOf<T(==)>(s: seq<T>, x: T): (i: nat)
    requires x in s
    ensures i < |s| && s[i] == x
  {
    if s[0] == x then 0 else 1 + IndexOf(s[1..], x)
  }

  /** Two lists without repetition of the same elements are permutations of one another. */
  lemma Permuted<T>(a: seq<T>, b: seq<T>) returns (order: seq<nat>)
    requires NoRepeats(b) && |a| == |b| && forall x :: x in b ==> x in a
    ensures IsPermutation(order, |a|) && forall i :: 0 <= i < |b| ==> a[order[i]] == b[i]
  {
    order := seq(|b|, i requires 0 <= i < |b| => IndexOf(a, b[i]));
    assert forall i :: 0 <= i < |b| ==> a[order[i]] == b[i];
  }
}
