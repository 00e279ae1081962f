/** Maps of counts: adding up, counting by a key, differences.
 */
module Counts {

  // ---- 64-bit numbers ----

  predicate IsInt64(n: int) {
    -0x8000_0000_0000_0000 <= n < 0x8000_0000_0000_0000
  }

  /** A 64-bit signed result keeps its low 64 bits. */
  function Wrap64(n: int): int {
    (n + 0x8000_0000_0000_0000) % 0x1_0000_0000_0000_0000 - 0x8000_0000_0000_0000
  }

  /** Exactly the 64-bit numbers are kept as they are. */
  lemma WrapKeeps(n: int)
    ensures IsInt64(Wrap64(n)) && (Wrap64(n) == n <==> IsInt64(n))
    ensures n >= 0 ==> Wrap64(n) <= n
  {
  }

  /** It makes no difference how often a sum is wrapped on the way. */
  lemma WrapAdds(x: int, y: int)
    ensures Wrap64(Wrap64(x) + y) == Wrap64(x + y)
  {
    var q := (x + 0x8000_0000_0000_0000) / 0x1_0000_0000_0000_0000;
    assert Wrap64(x) == x - q * 0x1_0000_0000_0000_0000;
  }

  ghost predicate AllInt64<K(!new)>(m: map<K, int>) {
    forall k :: k in m ==> IsInt64(m[k])
  }

  // ---- sums ----

  function At<K>(m: map<K, int>, k: K): int {
    if k in m then m[k] else 0
  }

  ghost function Sum<K>(m: map<K, int>): int {
    if m == map[] then 0
    else
      var k :| k in m;
      m[k] + Sum(m - {k})
  }

  ghost predicate HasNegative<K(!new)>(m: map<K, int>) {
    exists k :: k in m && m[k] < 0
  }

  lemma {:induction false} SumOne<K>(m: map<K, int>, k: K)
    requires k in m
    ensures Sum(m) == m[k] + Sum(m - {k})
    decreases |m|
  {
    var p :| p in m && Sum(m) == m[p] + Sum(m - {p});
    if p != k {
      SumOne(m - {p}, k);
      SumOne(m - {k}, p);
      assert m - {p} - {k} == m - {k} - {p};
    }
  }

  lemma SumChange<K>(m: map<K, int>, k: K, v: int)
    ensures Sum(m[k := v]) == Sum(m) - At(m, k) + v
  {
    SumOne(m[k := v], k);
    assert m[k := v] - {k} == m - {k};
    if k in m {
      SumOne(m, k);
    } else {
      assert m - {k} == m;
    }
  }

  lemma {:induction false} SumIsNotNegative<K(!new)>(m: map<K, int>)
    requires !HasNegative(m)
    ensures Sum(m) >= 0
    decreases |m|
  {
    if m != map[] {
      var k :| k in m;
      SumOne(m, k);
      NegativeOrRest(m, k);
      SumIsNotNegative(m - {k});
    }
  }

  // ---- counting ----

  function AddOne<K>(m: map<K, int>, k: K): map<K, int> {
    m[k := At(m, k) + 1]
  }

  /** How many of the items have each key. */
  function CountBy<S, K>(items: seq<S>, key: S -> K): map<K, int> {
    if items == [] then map[] else AddOne(CountBy(items[..|items| - 1], key), key(items[|items| - 1]))
  }

  /** How many of the items are such. */
  function HowMany<S>(items: seq<S>, such: S -> bool): nat {
    if items == [] then 0 else HowMany(items[..|items| - 1], such) + if such(items[|items| - 1]) then 1 else 0
  }

  lemma CountOneMore<S, K>(items: seq<S>, item: S, key: S -> K)
    ensures CountBy(items + [item], key) == AddOne(CountBy(items, key), key(item))
  {
    assert (items + [item])[..|items|] == items;
  }

  /** Every item is counted under one key. */
  lemma {:induction false} CountsAddUp<S, K(!new)>(items: seq<S>, key: S -> K)
    ensures Sum(CountBy(items, key)) == |items|
    ensures forall k :: k in CountBy(items, key) ==> CountBy(items, key)[k] > 0
  {
    if items != [] {
      var before, k := CountBy(items[..|items| - 1], key), key(items[|items| - 1]);
      CountsAddUp(items[..|items| - 1], key);
      SumChange(before, k, At(before, k) + 1);
    }
  }

  lemma {:induction false} CountedIs<S, K>(items: seq<S>, key: S -> K, k: K)
    ensures At(CountBy(items, key), k) == HowMany(items, s => key(s) == k)
  {
    if items != [] {
      CountedIs(items[..|items| - 1], key, k);
    }
  }

  lemma {:induction false} HowManyAtMost<S(!new)>(items: seq<S>, some: S -> bool, more: S -> bool)
    requires forall s :: some(s) ==> more(s)
    ensures HowMany(items, some) <= HowMany(items, more) <= |items|
  {
    if items != [] {
      HowManyAtMost(items[..|items| - 1], some, more);
    }
  }

  lemma WrapOfZero()
    ensures Wrap64(0) == 0
  {
  }

  lemma NoCounts<K(!new)>(m: map<K, int>)
    requires m == map[]
    ensures Sum(m) == 0 && !HasNegative(m)
  {
  }

  lemma SummedOneMore<K(!new)>(todo: map<K, int>, k: K)
    requires k in todo
    ensures Sum(todo) == todo[k] + Sum(todo - {k})
    ensures HasNegative(todo) <==> todo[k] < 0 || HasNegative(todo - {k})
  {
    SumOne(todo, k);
    NegativeOrRest(todo, k);
  }

  /** Adds up a map of counts in 64 bits, in any order. */
  method SumCounts<K(==, !new)>(values: map<K, int>) returns (sum: int, negative: bool)
    ensures sum == Wrap64(Sum(values))
    ensures negative <==> HasNegative(values)
  {
    hide *;
    var todo := values;
    sum, negative := 0, false;
    ghost var exact := 0;
    WrapOfZero();
    while todo != map[]
      invariant sum == Wrap64(exact) && exact + Sum(todo) == Sum(values)
      invariant HasNegative(values) <==> negative || HasNegative(todo)
      decreases |todo|
    {
      var k :| k in todo;
      SummedOneMore(todo, k);
      if todo[k] < 0 {
        negative := true;
      }
      WrapAdds(exact, todo[k]);
      sum, exact := Wrap64(sum + todo[k]), exact + todo[k];
      todo := todo - {k};
    }
    NoCounts(todo);
  }

  lemma NegativeOrRest<K(!new)>(m: map<K, int>, k: K)
    requires k in m
    ensures HasNegative(m) <==> m[k] < 0 || HasNegative(m - {k})
  {
    if HasNegative(m) && m[k] >= 0 {
      var x :| x in m && m[x] < 0;
      assert x in m - {k} && (m - {k})[x] < 0;
    }
    if HasNegative(m - {k}) {
      var x :| x in m - {k} && (m - {k})[x] < 0;
      assert x in m && m[x] < 0;
    }
  }

  // ---- differences ----

  /** What has to be added in 64 bits to a to make b; keys that need nothing are left
      out. */
  function Delta<K>(a: map<K, int>, b: map<K, int>): map<K, int> {
    map k | k in a.Keys + b.Keys && At(a, k) != At(b, k) :: Wrap64(At(b, k) - At(a, k))
  }

  lemma WrappedDifference(x: int, y: int)
    requires IsInt64(x) && IsInt64(y)
    ensures Wrap64(y - x) == 0 <==> x == y
    ensures Wrap64(Wrap64(-x) + y) == Wrap64(y - x)
    ensures Wrap64(x + Wrap64(y - x)) == y
  {
    hide Wrap64;
    WrapAdds(-x, y);
    WrapAdds(y - x, x);
    WrapKeeps(y);
    WrapKeeps(y - x);
    WrapToZero(y - x);
  }

  lemma WrapToZero(n: int)
    requires -0x1_0000_0000_0000_0000 < n < 0x1_0000_0000_0000_0000
    ensures Wrap64(n) == 0 <==> n == 0
  {
  }

  /** Adding the delta to a gives b, and a key is left out only where they agree. */
  lemma DeltaLeadsTo<K(!new)>(a: map<K, int>, b: map<K, int>)
    requires AllInt64(a) && AllInt64(b)
    ensures forall k :: Wrap64(At(a, k) + At(Delta(a, b), k)) == At(b, k)
    ensures forall k :: k in Delta(a, b) ==> Delta(a, b)[k] != 0
  {
    hide Wrap64;
    forall k
      ensures Wrap64(At(a, k) + At(Delta(a, b), k)) == At(b, k)
      ensures k in Delta(a, b) ==> Delta(a, b)[k] != 0
    {
      WrappedDifference(At(a, k), At(b, k));
      WrapKeeps(At(b, k));
    }
  }

  lemma DeltaAt<K(!new)>(a: map<K, int>, b: map<K, int>, k: K)
    requires AllInt64(a) && AllInt64(b)
    ensures Wrap64(At(b, k) - At(a, k)) == 0 <==> At(a, k) == At(b, k)
    ensures Wrap64(Wrap64(-At(a, k)) + At(b, k)) == Wrap64(At(b, k) - At(a, k))
  {
    WrappedDifference(At(a, k), At(b, k));
  }

  /** Subtracts one map, adds the other, drops the zeros, each in any order. */
  method MapDelta<K(==, !new)>(a: map<K, int>, b: map<K, int>) returns (out: map<K, int>)
    requires AllInt64(a) && AllInt64(b)
    ensures out == Delta(a, b)
  {
    hide Wrap64, IsInt64, AllInt64;
    out := map[];
    var todo := a.Keys;
    while todo != {}
      invariant todo <= a.Keys && out.Keys == a.Keys - todo
      invariant forall k :: k in out ==> out[k] == Wrap64(-a[k])
    {
      var k :| k in todo;
      out := out[k := Wrap64(At(out, k) - a[k])];
      todo := todo - {k};
    }
    forall k | k in out
      ensures out[k] == Wrap64(-At(a, k))
    {
      assert At(a, k) == a[k];
    }
    WrapOfZero();
    todo := b.Keys;
    while todo != {}
      invariant todo <= b.Keys && out.Keys == a.Keys + (b.Keys - todo)
      invariant forall k :: k in out ==> out[k] == if k in todo then Wrap64(-At(a, k)) else Wrap64(At(b, k) - At(a, k))
    {
      var k :| k in todo;
      DeltaAt(a, b, k);
      assert At(out, k) == Wrap64(-At(a, k));
      out := out[k := Wrap64(At(out, k) + b[k])];
      todo := todo - {k};
    }
    todo := out.Keys;
    ghost var full := out;
    forall k | k in full
      ensures full[k] == Wrap64(At(b, k) - At(a, k)) && (full[k] == 0 <==> At(a, k) == At(b, k))
    {
      DeltaAt(a, b, k);
    }
    while todo != {}
      invariant todo <= full.Keys
      invariant forall k :: k in out <==> k in full && (k in todo || full[k] != 0)
      invariant forall k :: k in out ==> out[k] == full[k]
    {
      var k :| k in todo;
      if out[k] == 0 {
        out := out - {k};
      }
      todo := todo - {k};
    }
  }
}
