/** The recursive comparison of two JSON documents. A missing member and a missing
    trailing element compare like null.
 */
module JsonDiff {
  import Sorting

  datatype Json =
    | Null
    | Boolean(truth: bool)
    | Number(number: real)
    | Text(text: string)
    | Array(items: seq<Json>)
    | Object(members: map<string, Json>)

  datatype Step = Key(key: string) | Index(index: nat)

  /** A place where the documents differ, and what they hold there; Null also
      stands for nothing. */
  datatype Mismatch = Mismatch(path: seq<Step>, expected: Json, actual: Json)

  predicate BothObjects(a: Json, b: Json) {
    a.Object? && b.Object?
  }

  predicate BothArrays(a: Json, b: Json) {
    a.Array? && b.Array?
  }

  function Member(j: Json, key: string): (m: Json)
    requires j.Object?
    ensures m.Null? || m < j
  {
    if key in j.members then j.members[key] else Null
  }

  function Element(j: Json, i: nat): (e: Json)
    requires j.Array?
    ensures e.Null? || e < j
  {
    if i < |j.items| then j.items[i] else Null
  }

  function Longer(a: Json, b: Json): nat
    requires BothArrays(a, b)
  {
    if |b.items| > |a.items| then |b.items| else |a.items|
  }

  // ---- the mismatches ----

  ghost function Diffs(path: seq<Step>, a: Json, b: Json): seq<Mismatch>
    decreases !a.Null?, a, 1, 0
  {
    if BothObjects(a, b) then KeyDiffs(path, a, b, Sorting.Sorted(a.members.Keys + b.members.Keys))
    else if BothArrays(a, b) then IndexDiffs(path, a, b, Longer(a, b))
    else if a == b then []
    else [Mismatch(path, a, b)]
  }

  ghost function KeyDiffs(path: seq<Step>, a: Json, b: Json, keys: seq<string>): seq<Mismatch>
    requires BothObjects(a, b)
    decreases !a.Null?, a, 0, |keys|
  {
    if keys == [] then []
    else
      var k := keys[|keys| - 1];
      KeyDiffs(path, a, b, keys[..|keys| - 1]) + Diffs(path + [Key(k)], Member(a, k), Member(b, k))
  }

  ghost function IndexDiffs(path: seq<Step>, a: Json, b: Json, n: nat): seq<Mismatch>
    requires BothArrays(a, b)
    decreases !a.Null?, a, 0, n
  {
    if n == 0 then []
    else IndexDiffs(path, a, b, n - 1) + Diffs(path + [Index(n - 1)], Element(a, n - 1), Element(b, n - 1))
  }

  /** Appends the mismatches to those found before. */
  method CompareValue(path: seq<Step>, a: Json, b: Json, found: seq<Mismatch>) returns (out: seq<Mismatch>)
    ensures out == found + Diffs(path, a, b)
    decreases !a.Null?, a
  {
    hide Member, Element, Sorting.Sorted;
    out := found;
    if BothObjects(a, b) {
      var ordered := Sorting.Sort(a.members.Keys + b.members.Keys);
      for i := 0 to |ordered|
        invariant out == found + KeyDiffs(path, a, b, ordered[..i])
      {
        var k := ordered[i];
        assert ordered[..i + 1][..i] == ordered[..i];
        out := CompareValue(path + [Key(k)], Member(a, k), Member(b, k), out);
      }
      assert ordered[..|ordered|] == ordered;
      return;
    }
    if BothArrays(a, b) {
      var maximum := Longer(a, b);
      for i := 0 to maximum
        invariant out == found + IndexDiffs(path, a, b, i)
      {
        out := CompareValue(path + [Index(i)], Element(a, i), Element(b, i), out);
      }
      return;
    }
    if a == b {
      return;
    }
    out := out + [Mismatch(path, a, b)];
  }

  // ---- no mismatch means the same meaning ----

  /** The document without what compares like nothing: null members and trailing
      null elements. */
  function Strip(j: Json): Json {
    match j
    case Array(items) => Array(Trim(seq(|items|, i requires 0 <= i < |items| => Strip(items[i]))))
    case Object(members) => Object(map k | k in members && !members[k].Null? :: Strip(members[k]))
    case _ => j
  }

  function Trim(items: seq<Json>): seq<Json> {
    if items != [] && items[|items| - 1].Null? then Trim(items[..|items| - 1]) else items
  }

  function At(items: seq<Json>, i: nat): Json {
    if i < |items| then items[i] else Null
  }

  lemma {:induction false} TrimKeeps(items: seq<Json>, i: nat)
    ensures At(Trim(items), i) == At(items, i)
  {
    if items != [] && items[|items| - 1].Null? {
      TrimKeeps(items[..|items| - 1], i);
    }
  }

  lemma {:induction false} TrimEnds(items: seq<Json>)
    ensures Trim(items) == [] || !Trim(items)[|Trim(items)| - 1].Null?
  {
    if items != [] && items[|items| - 1].Null? {
      TrimEnds(items[..|items| - 1]);
    }
  }

  lemma TrimmedAlike(s: seq<Json>, t: seq<Json>)
    ensures Trim(s) == Trim(t) <==> forall i: nat :: At(s, i) == At(t, i)
  {
    var x, y := Trim(s), Trim(t);
    TrimEnds(s);
    TrimEnds(t);
    forall i: nat
      ensures At(x, i) == At(s, i) && At(y, i) == At(t, i)
    {
      TrimKeeps(s, i);
      TrimKeeps(t, i);
    }
    hide Trim;
    if forall i: nat :: At(s, i) == At(t, i) {
      assert forall i: nat :: At(x, i) == At(s, i) && At(y, i) == At(t, i);
      assert |x| > |y| ==> At(x, |x| - 1) == At(y, |x| - 1);
      assert |y| > |x| ==> At(x, |y| - 1) == At(y, |y| - 1);
      forall i: nat | i < |x|
        ensures x[i] == y[i]
      {
        assert At(x, i) == At(y, i);
      }
    }
  }

  lemma StrippedObjects(a: Json, b: Json)
    requires BothObjects(a, b)
    ensures Strip(a) == Strip(b) <==> forall k :: k in a.members.Keys + b.members.Keys ==> Strip(Member(a, k)) == Strip(Member(b, k))
  {
    var x, y := Strip(a).members, Strip(b).members;
    forall k | k in a.members.Keys + b.members.Keys
      ensures Strip(Member(a, k)) == (if k in x then x[k] else Null)
      ensures Strip(Member(b, k)) == (if k in y then y[k] else Null)
      ensures (k in x ==> !x[k].Null?) && (k in y ==> !y[k].Null?)
    {
    }
    if forall k :: k in a.members.Keys + b.members.Keys ==> Strip(Member(a, k)) == Strip(Member(b, k)) {
      forall k
        ensures k in x <==> k in y
      {
        if k in a.members.Keys + b.members.Keys {
          assert Strip(Member(a, k)) == Strip(Member(b, k));
        }
      }
      assert x == y;
    }
  }

  lemma StrippedArrays(a: Json, b: Json)
    requires BothArrays(a, b)
    ensures Strip(a) == Strip(b) <==> forall i: nat :: i < Longer(a, b) ==> Strip(Element(a, i)) == Strip(Element(b, i))
  {
    var s := seq(|a.items|, i requires 0 <= i < |a.items| => Strip(a.items[i]));
    var t := seq(|b.items|, i requires 0 <= i < |b.items| => Strip(b.items[i]));
    TrimmedAlike(s, t);
    forall i: nat
      ensures At(s, i) == Strip(Element(a, i)) && At(t, i) == Strip(Element(b, i))
      ensures i >= Longer(a, b) ==> At(s, i) == At(t, i)
    {
    }
  }

  /** Nothing is reported exactly when the stripped documents are equal. */
  lemma {:induction false} NoMismatchMeansAlike(path: seq<Step>, a: Json, b: Json)
    ensures Diffs(path, a, b) == [] <==> Strip(a) == Strip(b)
    decreases !a.Null?, a, 1, 0
  {
    if BothObjects(a, b) {
      var keys := a.members.Keys + b.members.Keys;
      KeysAlike(path, a, b, Sorting.Sorted(keys));
      forall k
        ensures k in Sorting.Sorted(keys) <==> k in keys
      {
        Sorting.SortedHas(keys, k);
      }
      StrippedObjects(a, b);
    } else if BothArrays(a, b) {
      IndicesAlike(path, a, b, Longer(a, b));
      StrippedArrays(a, b);
    }
  }

  lemma {:induction false} KeysAlike(path: seq<Step>, a: Json, b: Json, keys: seq<string>)
    requires BothObjects(a, b)
    ensures KeyDiffs(path, a, b, keys) == [] <==> forall k :: k in keys ==> Strip(Member(a, k)) == Strip(Member(b, k))
    decreases !a.Null?, a, 0, |keys|
  {
    hide Strip;
    if keys != [] {
      var n := |keys| - 1;
      KeysAlike(path, a, b, keys[..n]);
      NoMismatchMeansAlike(path + [Key(keys[n])], Member(a, keys[n]), Member(b, keys[n]));
      assert keys == keys[..n] + [keys[n]];
    }
  }

  lemma {:induction false} IndicesAlike(path: seq<Step>, a: Json, b: Json, n: nat)
    requires BothArrays(a, b)
    ensures IndexDiffs(path, a, b, n) == [] <==> forall i: nat :: i < n ==> Strip(Element(a, i)) == Strip(Element(b, i))
    decreases !a.Null?, a, 0, n
  {
    hide Strip;
    if n > 0 {
      IndicesAlike(path, a, b, n - 1);
      NoMismatchMeansAlike(path + [Index(n - 1)], Element(a, n - 1), Element(b, n - 1));
    }
  }

  // ---- which mismatches ----

  /** The documents agree in kind, object or array, all the way to the place, and
      differ there. */
  predicate Diverge(a: Json, b: Json, place: seq<Step>)
    decreases |place|
  {
    if place == [] then !BothObjects(a, b) && !BothArrays(a, b) && a != b
    else
      match place[0]
      case Key(k) => BothObjects(a, b) && Diverge(Member(a, k), Member(b, k), place[1..])
      case Index(i) => BothArrays(a, b) && Diverge(Element(a, i), Element(b, i), place[1..])
  }

  /** What a document holds at a place, or Null. */
  function Held(j: Json, place: seq<Step>): Json
    decreases |place|
  {
    if place == [] then j
    else
      match place[0]
      case Key(k) => if j.Object? then Held(Member(j, k), place[1..]) else Null
      case Index(i) => if j.Array? then Held(Element(j, i), place[1..]) else Null
  }

  predicate Below(path: seq<Step>, place: seq<Step>) {
    |path| <= |place| && place[..|path|] == path
  }

  lemma BelowStep(path: seq<Step>, step: Step, rest: seq<Step>)
    ensures Below(path + [step], path + rest) <==> rest != [] && rest[0] == step
  {
    if rest != [] {
      assert (path + rest)[..|path| + 1] == path + [rest[0]];
      assert (path + [rest[0]])[|path|] == rest[0] && (path + [step])[|path|] == step;
    }
  }

  lemma {:induction false} MismatchesBelow(path: seq<Step>, a: Json, b: Json, m: Mismatch)
    requires m in Diffs(path, a, b)
    ensures Below(path, m.path)
    decreases !a.Null?, a
  {
    hide Below;
    if BothObjects(a, b) {
      InKeyDiffs(path, a, b, Sorting.Sorted(a.members.Keys + b.members.Keys), m);
      var k :| m in Diffs(path + [Key(k)], Member(a, k), Member(b, k));
      MismatchesBelow(path + [Key(k)], Member(a, k), Member(b, k), m);
      BelowShorter(path, Key(k), m.path);
    } else if BothArrays(a, b) {
      InIndexDiffs(path, a, b, Longer(a, b), m);
      var i: nat :| m in Diffs(path + [Index(i)], Element(a, i), Element(b, i));
      MismatchesBelow(path + [Index(i)], Element(a, i), Element(b, i), m);
      BelowShorter(path, Index(i), m.path);
    } else {
      assert m == Mismatch(path, a, b);
      BelowSelf(path);
    }
  }

  lemma BelowSelf(path: seq<Step>)
    ensures Below(path, path)
  {
  }

  lemma BelowShorter(path: seq<Step>, step: Step, place: seq<Step>)
    requires Below(path + [step], place)
    ensures Below(path, place)
  {
    assert place[..|path|] == place[..|path| + 1][..|path|];
  }

  lemma {:induction false} InKeyDiffs(path: seq<Step>, a: Json, b: Json, keys: seq<string>, m: Mismatch)
    requires BothObjects(a, b)
    ensures m in KeyDiffs(path, a, b, keys) <==> exists k :: k in keys && m in Diffs(path + [Key(k)], Member(a, k), Member(b, k))
  {
    hide Diffs;
    if keys != [] {
      var n := |keys| - 1;
      InKeyDiffs(path, a, b, keys[..n], m);
      assert keys == keys[..n] + [keys[n]];
    }
  }

  lemma {:induction false} InIndexDiffs(path: seq<Step>, a: Json, b: Json, n: nat, m: Mismatch)
    requires BothArrays(a, b)
    ensures m in IndexDiffs(path, a, b, n) <==> exists i: nat :: i < n && m in Diffs(path + [Index(i)], Element(a, i), Element(b, i))
  {
    hide Diffs;
    if n > 0 {
      InIndexDiffs(path, a, b, n - 1, m);
    }
  }

  lemma NothingBelowNulls(place: seq<Step>)
    ensures !Diverge(Null, Null, place)
  {
  }

  /** A mismatch is reported for exactly the places where the documents diverge, and
      shows what each of them holds there. */
  lemma {:induction false} ReportsEveryDivergence(path: seq<Step>, a: Json, b: Json, place: seq<Step>, l: Json, r: Json)
    ensures Mismatch(path + place, l, r) in Diffs(path, a, b) <==> Diverge(a, b, place) && l == Held(a, place) && r == Held(b, place)
    decreases !a.Null?, a, 1
  {
    if BothObjects(a, b) {
      ReportedUnderKey(path, a, b, place, l, r);
    } else if BothArrays(a, b) {
      ReportedUnderIndex(path, a, b, place, l, r);
    } else if place == [] {
      assert path + place == path;
    } else {
      assert |path + place| > |path|;
    }
  }

  lemma {:induction false} ReportedUnderKey(path: seq<Step>, a: Json, b: Json, place: seq<Step>, l: Json, r: Json)
    requires BothObjects(a, b)
    ensures Mismatch(path + place, l, r) in Diffs(path, a, b) <==> Diverge(a, b, place) && l == Held(a, place) && r == Held(b, place)
    decreases !a.Null?, a, 0
  {
    var m, keys := Mismatch(path + place, l, r), a.members.Keys + b.members.Keys;
    assert Diffs(path, a, b) == KeyDiffs(path, a, b, Sorting.Sorted(keys));
    InKeyDiffs(path, a, b, Sorting.Sorted(keys), m);
    hide Diffs, KeyDiffs, Below, Sorting.Sorted;
    forall k | m in Diffs(path + [Key(k)], Member(a, k), Member(b, k))
      ensures place != [] && place[0] == Key(k)
    {
      MismatchesBelow(path + [Key(k)], Member(a, k), Member(b, k), m);
      BelowStep(path, Key(k), place);
    }
    if place != [] && place[0].Key? {
      var k := place[0].key;
      Sorting.SortedHas(keys, k);
      assert path + [Key(k)] + place[1..] == path + place;
      ReportsEveryDivergence(path + [Key(k)], Member(a, k), Member(b, k), place[1..], l, r);
      NothingBelowNulls(place[1..]);
    }
  }

  lemma {:induction false} ReportedUnderIndex(path: seq<Step>, a: Json, b: Json, place: seq<Step>, l: Json, r: Json)
    requires BothArrays(a, b)
    ensures Mismatch(path + place, l, r) in Diffs(path, a, b) <==> Diverge(a, b, place) && l == Held(a, place) && r == Held(b, place)
    decreases !a.Null?, a, 0
  {
    var m := Mismatch(path + place, l, r);
    assert Diffs(path, a, b) == IndexDiffs(path, a, b, Longer(a, b));
    InIndexDiffs(path, a, b, Longer(a, b), m);
    hide Diffs, IndexDiffs, Below;
    forall i: nat | m in Diffs(path + [Index(i)], Element(a, i), Element(b, i))
      ensures place != [] && place[0] == Index(i)
    {
      MismatchesBelow(path + [Index(i)], Element(a, i), Element(b, i), m);
      BelowStep(path, Index(i), place);
    }
    if place != [] && place[0].Index? {
      var i := place[0].index;
      assert path + [Index(i)] + place[1..] == path + place;
      ReportsEveryDivergence(path + [Index(i)], Element(a, i), Element(b, i), place[1..], l, r);
      NothingBelowNulls(place[1..]);
    }
  }

  // ---- swapping the documents ----

  function Mirror(ms: seq<Mismatch>): seq<Mismatch> {
    seq(|ms|, i requires 0 <= i < |ms| => Mismatch(ms[i].path, ms[i].actual, ms[i].expected))
  }

  lemma MirrorAppend(x: seq<Mismatch>, y: seq<Mismatch>)
    ensures Mirror(x + y) == Mirror(x) + Mirror(y)
  {
  }

  /** The mismatches are the same, in the same order, with the two sides exchanged. */
  lemma {:induction false} SwappingMirrors(path: seq<Step>, a: Json, b: Json)
    ensures Diffs(path, b, a) == Mirror(Diffs(path, a, b))
    decreases !a.Null?, a, 1, 0
  {
    if BothObjects(a, b) {
      assert a.members.Keys + b.members.Keys == b.members.Keys + a.members.Keys;
      MirrorKeys(path, a, b, Sorting.Sorted(a.members.Keys + b.members.Keys));
    } else if BothArrays(a, b) {
      MirrorIndices(path, a, b, Longer(a, b));
    }
  }

  lemma {:induction false} MirrorKeys(path: seq<Step>, a: Json, b: Json, keys: seq<string>)
    requires BothObjects(a, b)
    ensures KeyDiffs(path, b, a, keys) == Mirror(KeyDiffs(path, a, b, keys))
    decreases !a.Null?, a, 0, |keys|
  {
    hide Diffs;
    if keys != [] {
      var n := |keys| - 1;
      var k := keys[n];
      MirrorKeys(path, a, b, keys[..n]);
      SwappingMirrors(path + [Key(k)], Member(a, k), Member(b, k));
      MirrorAppend(KeyDiffs(path, a, b, keys[..n]), Diffs(path + [Key(k)], Member(a, k), Member(b, k)));
    }
  }

  lemma {:induction false} MirrorIndices(path: seq<Step>, a: Json, b: Json, n: nat)
    requires BothArrays(a, b)
    ensures IndexDiffs(path, b, a, n) == Mirror(IndexDiffs(path, a, b, n))
    decreases !a.Null?, a, 0, n
  {
    hide Diffs;
    if n > 0 {
      MirrorIndices(path, a, b, n - 1);
      SwappingMirrors(path + [Index(n - 1)], Element(a, n - 1), Element(b, n - 1));
      MirrorAppend(IndexDiffs(path, a, b, n - 1), Diffs(path + [Index(n - 1)], Element(a, n - 1), Element(b, n - 1)));
    }
  }

  /** The comparison of two documents: they are called equal exactly when they mean
      the same. */
  method Compare(expected: Json, actual: Json) returns (equal: bool, mismatches: seq<Mismatch>)
    ensures mismatches == Diffs([], expected, actual)
    ensures equal <==> Strip(expected) == Strip(actual)
  {
    mismatches := CompareValue([], expected, actual, []);
    equal := |mismatches| == 0;
    NoMismatchMeansAlike([], expected, actual);
  }
}
