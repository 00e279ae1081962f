/** Sets of strings in ascending order.
 */
module Sorting {
  import opened Strings

  ghost predicate Ascending(s: seq<string>) {
    forall i, j :: 0 <= i < j < |s| ==> Less(s[i], s[j])
  }

  ghost function Least(keys: set<string>): (least: string)
    requires keys != {}
    ensures least in keys && forall k :: k in keys ==> k == least || Less(least, k)
  {
    var k :| k in keys;
    if keys == {k} then k
    else
      var rest := Least(keys - {k});
      CompareIsZero(k, rest);
      CompareIsAntisymmetric(k, rest);
      if Less(k, rest) then
        assert forall x :: x in keys - {k} && x != rest ==> Less(k, x) by {
          forall x | x in keys - {k} && x != rest
            ensures Less(k, x)
          {
            CompareIsTransitive(k, rest, x);
          }
        }
        k
      else
        rest
  }

  ghost function Sorted(keys: set<string>): seq<string> {
    if keys == {} then [] else [Least(keys)] + Sorted(keys - {Least(keys)})
  }

  lemma {:induction false} SortedHas(keys: set<string>, k: string)
    ensures k in Sorted(keys) <==> k in keys
  {
    if keys != {} {
      SortedHas(keys - {Least(keys)}, k);
    }
  }

  /** Ascending order says it all. */
  lemma {:induction false} AscendingIsSorted(s: seq<string>, keys: set<string>)
    requires Ascending(s) && forall k :: k in s <==> k in keys
    ensures s == Sorted(keys)
  {
    if s == [] {
      assert keys == {};
    } else {
      assert s[0] in keys;
      var least := Least(keys);
      assert least in s;
      CompareIsAntisymmetric(s[0], least);
      assert s[0] == least;
      assert s == [least] + s[1..];
      forall k
        ensures k in s[1..] <==> k in keys - {least}
      {
        CompareIsAntisymmetric(least, least);
      }
      AscendingIsSorted(s[1..], keys - {least});
    }
  }

  /** Puts a key in its place. */
  function Insert(s: seq<string>, k: string): seq<string> {
    if s == [] then [k] else if Less(k, s[0]) then [k] + s else [s[0]] + Insert(s[1..], k)
  }

  lemma {:induction false} InsertHas(s: seq<string>, k: string, x: string)
    ensures x in Insert(s, k) <==> x in s || x == k
  {
    if s != [] && !Less(k, s[0]) {
      InsertHas(s[1..], k, x);
    }
  }

  lemma {:induction false} InsertAscends(s: seq<string>, k: string)
    requires Ascending(s) && k !in s
    ensures Ascending(Insert(s, k))
  {
    if s != [] {
      if Less(k, s[0]) {
        forall j | 0 < j < |s|
          ensures Less(k, s[j])
        {
          CompareIsTransitive(k, s[0], s[j]);
        }
      } else {
        InsertAscends(s[1..], k);
        CompareIsAntisymmetric(k, s[0]);
        CompareIsZero(k, s[0]);
        var rest := Insert(s[1..], k);
        forall j | 0 <= j < |rest|
          ensures Less(s[0], rest[j])
        {
          InsertHas(s[1..], k, rest[j]);
        }
      }
    }
  }

  /** Collects the keys in any order, each put in its place. */
  method Sort(keys: set<string>) returns (s: seq<string>)
    ensures s == Sorted(keys)
  {
    hide Ascending, Insert, Sorted;
    s := [];
    var todo := keys;
    EmptyAscends();
    while todo != {}
      invariant todo <= keys && Ascending(s) && forall k :: k in s <==> k in keys - todo
      decreases |todo|
    {
      var k :| k in todo;
      InsertAscends(s, k);
      forall x
        ensures x in Insert(s, k) <==> x in s || x == k
      {
        InsertHas(s, k, x);
      }
      s := Insert(s, k);
      todo := todo - {k};
    }
    AscendingIsSorted(s, keys);
  }

  lemma EmptyAscends()
    ensures Ascending([])
  {
  }
}
