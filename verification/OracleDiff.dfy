/** The comparison of two measurement results: their lists are put in the order of
    their IDs and the two documents compared, so the order of measuring plays no role.
 */
module OracleDiff {
  import opened JsonDiff
  import opened Orders
  import opened Sequences
  import SeqSort
  import Sorting
  import Strings

  /** A measured item: its ID, which its JSON shows too, and what was measured. */
  datatype Item = Item(id: string, members: map<string, Json>)

  datatype Record = Record(id: string, members: map<string, Json>, fields: seq<Item>)

  /** header is what a result holds besides the lists and the compiler, which is not
      compared. */
  datatype Result = Result(
    header: map<string, Json>, records: seq<Record>, values: seq<Item>, guids: seq<Item>, bitFields: seq<Item>,
    functions: seq<Item>, vtables: seq<Item>, conditions: seq<Item>)

  // ---- sorting ----

  function CompareItems(a: Item, b: Item): int {
    Strings.Compare(a.id, b.id)
  }

  function CompareRecords(a: Record, b: Record): int {
    Strings.Compare(a.id, b.id)
  }

  function SortItems(items: seq<Item>): seq<Item> {
    SeqSort.Sort(CompareItems, items)
  }

  /** The record with its fields in order. */
  function Tidied(r: Record): Record {
    r.(fields := SortItems(r.fields))
  }

  function TidiedAll(records: seq<Record>): (r: seq<Record>)
    ensures |r| == |records| && forall i :: 0 <= i < |records| ==> r[i] == Tidied(records[i])
  {
    seq(|records|, i requires 0 <= i < |records| => Tidied(records[i]))
  }

  function SortedResult(r: Result): Result {
    Result(r.header, SeqSort.Sort(CompareRecords, TidiedAll(r.records)), SortItems(r.values), SortItems(r.guids), SortItems(r.bitFields),
           SortItems(r.functions), SortItems(r.vtables), SortItems(r.conditions))
  }

  // ---- the documents ----

  /** An empty list is written as null. */
  function ItemsJson(items: seq<Item>): Json {
    if items == [] then Null else Array(seq(|items|, i requires 0 <= i < |items| => Object(items[i].members)))
  }

  function RecordJson(r: Record): Json {
    Object(r.members["fields" := ItemsJson(r.fields)])
  }

  function RecordsJson(records: seq<Record>): Json {
    if records == [] then Null else Array(seq(|records|, i requires 0 <= i < |records| => RecordJson(records[i])))
  }

  function Document(r: Result): Json {
    Object(r.header + map["records" := RecordsJson(r.records), "values" := ItemsJson(r.values), "guids" := ItemsJson(r.guids),
                          "bitFields" := ItemsJson(r.bitFields), "functions" := ItemsJson(r.functions),
                          "vtables" := ItemsJson(r.vtables), "conditions" := ItemsJson(r.conditions)])
  }

  /** Compares two results: equal exactly when the sorted documents are alike. */
  method CompareResults(expected: Result, actual: Result) returns (equal: bool, mismatches: seq<Mismatch>)
    ensures mismatches == Diffs([], Document(SortedResult(expected)), Document(SortedResult(actual)))
    ensures equal <==> Strip(Document(SortedResult(expected))) == Strip(Document(SortedResult(actual)))
  {
    hide Document, SortedResult;
    equal, mismatches := Compare(Document(SortedResult(expected)), Document(SortedResult(actual)));
  }

  // ---- the order is forgotten ----

  lemma ItemsArePreordered()
    ensures IsPreorder(CompareItems)
  {
    hide Strings.Compare;
    forall a, b
      ensures CompareItems(a, b) == -CompareItems(b, a)
    {
      Strings.CompareIsAntisymmetric(a.id, b.id);
    }
    forall a, b, c | CompareItems(a, b) <= 0 && CompareItems(b, c) <= 0
      ensures CompareItems(a, c) <= 0
    {
      Strings.CompareIsTransitive(a.id, b.id, c.id);
    }
  }

  lemma RecordsArePreordered()
    ensures IsPreorder(CompareRecords)
  {
    hide Strings.Compare;
    forall a, b
      ensures CompareRecords(a, b) == -CompareRecords(b, a)
    {
      Strings.CompareIsAntisymmetric(a.id, b.id);
    }
    forall a, b, c | CompareRecords(a, b) <= 0 && CompareRecords(b, c) <= 0
      ensures CompareRecords(a, c) <= 0
    {
      Strings.CompareIsTransitive(a.id, b.id, c.id);
    }
  }

  predicate DistinctItems(items: seq<Item>) {
    forall i, j :: 0 <= i < j < |items| ==> items[i].id != items[j].id
  }

  predicate DistinctRecords(records: seq<Record>) {
    forall i, j :: 0 <= i < j < |records| ==> records[i].id != records[j].id
  }

  /** The same items in any order. */
  lemma SortItemsForgetsOrder(a: seq<Item>, b: seq<Item>)
    requires DistinctItems(a) && multiset(a) == multiset(b)
    ensures SortItems(a) == SortItems(b)
  {
    hide Strings.Compare, SeqSort.Sort;
    forall i, j | 0 <= i < |a| && 0 <= j < |a| && CompareItems(a[i], a[j]) == 0
      ensures a[i] == a[j]
    {
      Strings.CompareIsZero(a[i].id, a[j].id);
    }
    ItemsArePreordered();
    SeqSort.SortForgetsOrder(CompareItems, a, b);
  }

  /** The same record but for the order of its fields. */
  predicate Alike(r: Record, s: Record) {
    r.id == s.id && r.members == s.members && DistinctItems(r.fields) && multiset(r.fields) == multiset(s.fields)
  }

  /** The same records in any order, each with its fields in any order. */
  ghost predicate AlikeRecords(a: seq<Record>, b: seq<Record>) {
    && DistinctRecords(a) && DistinctRecords(b) && |a| == |b|
    && forall i :: 0 <= i < |a| ==> exists k :: 0 <= k < |b| && Alike(a[i], b[k])
  }

  lemma TidiedAlike(r: Record, s: Record)
    requires Alike(r, s)
    ensures Tidied(r) == Tidied(s)
  {
    hide SortItems;
    SortItemsForgetsOrder(r.fields, s.fields);
  }

  lemma LastIsNew(records: seq<Record>)
    requires DistinctRecords(records) && records != []
    ensures DistinctRecords(records[..|records| - 1]) && records[|records| - 1] !in records[..|records| - 1]
  {
  }

  lemma {:induction false} DistinctOnce(records: seq<Record>)
    requires DistinctRecords(records)
    ensures |SetOf(records)| == |records| && forall r :: multiset(records)[r] == if r in records then 1 else 0
  {
    if records == [] {
      assert SetOf(records) == {};
    } else {
      var rest, last := records[..|records| - 1], records[|records| - 1];
      LastIsNew(records);
      hide DistinctRecords;
      DistinctOnce(rest);
      assert records == rest + [last];
      assert SetOf(records) == SetOf(rest) + {last};
    }
  }

  lemma TidiedStaysDistinct(records: seq<Record>)
    requires DistinctRecords(records)
    ensures DistinctRecords(TidiedAll(records))
  {
    hide SortItems;
    var tidied := TidiedAll(records);
    forall i | 0 <= i < |records|
      ensures tidied[i].id == records[i].id
    {
    }
  }

  lemma TidiedTheSame(a: seq<Record>, b: seq<Record>)
    requires AlikeRecords(a, b)
    ensures multiset(TidiedAll(a)) == multiset(TidiedAll(b)) && DistinctRecords(TidiedAll(a))
  {
    hide Tidied, Alike, DistinctRecords;
    var x, y := TidiedAll(a), TidiedAll(b);
    TidiedStaysDistinct(a);
    TidiedStaysDistinct(b);
    DistinctOnce(x);
    DistinctOnce(y);
    forall r | r in x
      ensures r in y
    {
      var i :| 0 <= i < |x| && x[i] == r;
      var k :| 0 <= k < |b| && Alike(a[i], b[k]);
      TidiedAlike(a[i], b[k]);
      assert y[k] == r;
    }
    Included(SetOf(x), SetOf(y));
    assert forall r :: r in x <==> r in SetOf(x);
    assert forall r :: r in y <==> r in SetOf(y);
    assert forall r :: multiset(x)[r] == multiset(y)[r];
  }

  lemma SortRecordsForgetsOrder(a: seq<Record>, b: seq<Record>)
    requires AlikeRecords(a, b)
    ensures SeqSort.Sort(CompareRecords, TidiedAll(a)) == SeqSort.Sort(CompareRecords, TidiedAll(b))
  {
    TidiedTheSame(a, b);
    var x := TidiedAll(a);
    hide Strings.Compare, SeqSort.Sort, TidiedAll, AlikeRecords;
    forall i, j | 0 <= i < |x| && 0 <= j < |x| && CompareRecords(x[i], x[j]) == 0
      ensures x[i] == x[j]
    {
      Strings.CompareIsZero(x[i].id, x[j].id);
    }
    RecordsArePreordered();
    SeqSort.SortForgetsOrder(CompareRecords, x, TidiedAll(b));
  }

  ghost predicate AlikeItems(a: seq<Item>, b: seq<Item>) {
    DistinctItems(a) && multiset(a) == multiset(b)
  }

  /** The same measurements, in any order. */
  ghost predicate SameUpToOrder(a: Result, b: Result) {
    && a.header == b.header && AlikeRecords(a.records, b.records)
    && AlikeItems(a.values, b.values) && AlikeItems(a.guids, b.guids) && AlikeItems(a.bitFields, b.bitFields)
    && AlikeItems(a.functions, b.functions) && AlikeItems(a.vtables, b.vtables) && AlikeItems(a.conditions, b.conditions)
  }

  /** With distinct IDs, results that differ in the order of their lists only are
      sorted to the same result; so every comparison with them finds the same. */
  lemma OrderIsForgotten(a: Result, b: Result, other: Result)
    requires SameUpToOrder(a, b)
    ensures SortedResult(a) == SortedResult(b)
    ensures Diffs([], Document(SortedResult(a)), Document(SortedResult(other))) == Diffs([], Document(SortedResult(b)), Document(SortedResult(other)))
    ensures Diffs([], Document(SortedResult(a)), Document(SortedResult(b))) == []
  {
    SortRecordsForgetsOrder(a.records, b.records);
    hide SortItems, AlikeRecords, TidiedAll, SeqSort.Sort, DistinctItems, Document, Diffs;
    SortItemsForgetsOrder(a.values, b.values);
    SortItemsForgetsOrder(a.guids, b.guids);
    SortItemsForgetsOrder(a.bitFields, b.bitFields);
    SortItemsForgetsOrder(a.functions, b.functions);
    SortItemsForgetsOrder(a.vtables, b.vtables);
    SortItemsForgetsOrder(a.conditions, b.conditions);
    NoMismatchMeansAlike([], Document(SortedResult(a)), Document(SortedResult(b)));
  }

  // ---- when two results are equal ----

  /** The same member, nulls aside. */
  ghost predicate AlikeAt(a: map<string, Json>, b: map<string, Json>, k: string) {
    Strip(Member(Object(a), k)) == Strip(Member(Object(b), k))
  }

  ghost predicate AlikeMembers(a: map<string, Json>, b: map<string, Json>) {
    forall k :: AlikeAt(a, b, k)
  }

  /** An item's JSON shows its ID. */
  predicate ShowsId(id: string, members: map<string, Json>) {
    "id" in members && members["id"] == Text(id)
  }

  predicate ShowIds(items: seq<Item>) {
    DistinctItems(items) && forall i :: 0 <= i < |items| ==> ShowsId(items[i].id, items[i].members)
  }

  predicate ShowRecordIds(records: seq<Record>) {
    && DistinctRecords(records)
    && forall i :: 0 <= i < |records| ==> ShowsId(records[i].id, records[i].members) && ShowIds(records[i].fields)
  }

  ghost predicate SameItem(x: Item, y: Item) {
    x.id == y.id && AlikeMembers(x.members, y.members)
  }

  /** Each item of one list is in the other, and vice versa. */
  ghost predicate SameItems(a: seq<Item>, b: seq<Item>) {
    Mutual(a, b, SameItem)
  }

  ghost predicate SameRecord(r: Record, s: Record) {
    r.id == s.id && (forall k :: k != "fields" ==> AlikeAt(r.members, s.members, k)) && SameItems(r.fields, s.fields)
  }

  ghost predicate SameRecords(a: seq<Record>, b: seq<Record>) {
    Mutual(a, b, SameRecord)
  }

  ghost predicate Mutual<T(!new)>(a: seq<T>, b: seq<T>, same: (T, T) -> bool) {
    (forall x :: x in a ==> IsAmong(x, b, same)) && (forall y :: y in b ==> HasAmong(y, a, same))
  }

  ghost predicate IsAmong<T(!new)>(x: T, s: seq<T>, same: (T, T) -> bool) {
    exists y :: y in s && same(x, y)
  }

  ghost predicate HasAmong<T(!new)>(y: T, s: seq<T>, same: (T, T) -> bool) {
    exists x :: x in s && same(x, y)
  }

  lemma StrippedMembers(a: map<string, Json>, b: map<string, Json>)
    ensures Strip(Object(a)) == Strip(Object(b)) <==> AlikeMembers(a, b)
  {
    StrippedObjects(Object(a), Object(b));
    hide Strip;
    assert forall k :: k !in a && k !in b ==> AlikeAt(a, b, k);
    assert forall k :: k in a.Keys + b.Keys ==> (AlikeAt(a, b, k) <==> Strip(Member(Object(a), k)) == Strip(Member(Object(b), k)));
  }

  lemma ShownIds(x: string, a: map<string, Json>, y: string, b: map<string, Json>)
    requires ShowsId(x, a) && ShowsId(y, b) && AlikeAt(a, b, "id")
    ensures x == y
  {
  }

  /** Lists of objects, as they are written. */
  function ObjectsJson(objects: seq<map<string, Json>>): Json {
    if objects == [] then Null else Array(seq(|objects|, i requires 0 <= i < |objects| => Object(objects[i])))
  }

  lemma StrippedLists(a: seq<map<string, Json>>, b: seq<map<string, Json>>)
    ensures Strip(ObjectsJson(a)) == Strip(ObjectsJson(b)) <==> |a| == |b| && forall i :: 0 <= i < |a| ==> AlikeMembers(a[i], b[i])
  {
    if a != [] && b != [] {
      StrippedArrays(ObjectsJson(a), ObjectsJson(b));
      ElementsAlike(a, b);
      hide Strip, AlikeMembers;
    } else {
      assert a == [] <==> ObjectsJson(a).Null?;
      assert b == [] <==> ObjectsJson(b).Null?;
    }
  }

  lemma ElementsAlike(a: seq<map<string, Json>>, b: seq<map<string, Json>>)
    requires a != [] && b != []
    ensures var x, y := ObjectsJson(a), ObjectsJson(b);
      (forall i: nat :: i < Longer(x, y) ==> Strip(Element(x, i)) == Strip(Element(y, i)))
      <==> |a| == |b| && forall i :: 0 <= i < |a| ==> AlikeMembers(a[i], b[i])
  {
    var x, y := ObjectsJson(a), ObjectsJson(b);
    forall i: nat | i < Longer(x, y)
      ensures i < |a| && i < |b| ==> (Strip(Element(x, i)) == Strip(Element(y, i)) <==> AlikeMembers(a[i], b[i]))
      ensures i >= |a| || i >= |b| ==> Strip(Element(x, i)) != Strip(Element(y, i))
    {
      if i < |a| && i < |b| {
        StrippedMembers(a[i], b[i]);
      }
    }
    hide Strip, AlikeMembers;
    if |a| != |b| {
      var i: nat := if |a| < |b| then |a| else |b|;
      assert Strip(Element(x, i)) != Strip(Element(y, i));
    }
  }

  // ---- sorted lists pair up by their IDs ----

  ghost predicate AscendingBy<T(!new)>(s: seq<T>, id: T -> string) {
    forall i, j :: 0 <= i < j < |s| ==> Strings.Less(id(s[i]), id(s[j]))
  }

  function Ids<T>(s: seq<T>, id: T -> string): (ids: seq<string>)
    ensures |ids| == |s| && forall i :: 0 <= i < |s| ==> ids[i] == id(s[i])
  {
    seq(|s|, i requires 0 <= i < |s| => id(s[i]))
  }

  ghost predicate SameMeansSameId<T(!new)>(id: T -> string, same: (T, T) -> bool) {
    forall x, y :: same(x, y) ==> id(x) == id(y)
  }

  lemma IdAmong<T(!new)>(x: T, s: seq<T>, id: T -> string, same: (T, T) -> bool)
    requires SameMeansSameId(id, same)
    ensures IsAmong(x, s, same) ==> id(x) in Ids(s, id)
    ensures HasAmong(x, s, same) ==> id(x) in Ids(s, id)
  {
    if y :| y in s && same(x, y) {
      var j :| 0 <= j < |s| && s[j] == y;
      assert Ids(s, id)[j] == id(x);
    }
    if y :| y in s && same(y, x) {
      var j :| 0 <= j < |s| && s[j] == y;
      assert Ids(s, id)[j] == id(x);
    }
  }

  lemma IdsAgree<T(!new)>(a: seq<T>, b: seq<T>, id: T -> string, same: (T, T) -> bool)
    requires AscendingBy(a, id) && AscendingBy(b, id) && Mutual(a, b, same) && SameMeansSameId(id, same)
    ensures Ids(a, id) == Ids(b, id)
  {
    var x, y := Ids(a, id), Ids(b, id);
    var keys := set k | k in x;
    hide Strings.Less, IsAmong, HasAmong, SameMeansSameId;
    assert Sorting.Ascending(x) && Sorting.Ascending(y);
    forall k
      ensures k in x <==> k in y
    {
      if k in x {
        var i :| 0 <= i < |a| && x[i] == k;
        IdAmong(a[i], b, id, same);
      }
      if k in y {
        var j :| 0 <= j < |b| && y[j] == k;
        IdAmong(b[j], a, id, same);
      }
    }
    Sorting.AscendingIsSorted(x, keys);
    Sorting.AscendingIsSorted(y, keys);
  }

  lemma PairsAreMutual<T(!new)>(a: seq<T>, b: seq<T>, same: (T, T) -> bool)
    requires |a| == |b| && forall i :: 0 <= i < |a| ==> same(a[i], b[i])
    ensures Mutual(a, b, same)
  {
    forall x | x in a
      ensures IsAmong(x, b, same)
    {
      var i :| 0 <= i < |a| && a[i] == x;
      assert b[i] in b;
    }
    forall y | y in b
      ensures HasAmong(y, a, same)
    {
      var i :| 0 <= i < |b| && b[i] == y;
      assert a[i] in a;
    }
  }

  lemma MateIsAtSamePlace<T(!new)>(a: seq<T>, b: seq<T>, id: T -> string, same: (T, T) -> bool, i: nat)
    requires AscendingBy(b, id) && SameMeansSameId(id, same) && Ids(a, id) == Ids(b, id) && i < |a| && IsAmong(a[i], b, same)
    ensures i < |b| && same(a[i], b[i])
  {
    hide AscendingBy;
    var y :| y in b && same(a[i], y);
    var j :| 0 <= j < |b| && b[j] == y;
    assert |Ids(a, id)| == |Ids(b, id)|;
    assert Ids(a, id)[i] == id(a[i]) == id(b[j]);
    assert Ids(b, id)[i] == id(b[i]);
    SameIdSamePlace(b, id, i, j);
  }

  /** Two lists in the order of their IDs have the same elements exactly when these are the
      same one by one. */
  lemma PairsByIds<T(!new)>(a: seq<T>, b: seq<T>, id: T -> string, same: (T, T) -> bool)
    requires AscendingBy(a, id) && AscendingBy(b, id) && SameMeansSameId(id, same)
    ensures Mutual(a, b, same) <==> |a| == |b| && forall i :: 0 <= i < |a| ==> same(a[i], b[i])
  {
    hide AscendingBy, SameMeansSameId, IsAmong, HasAmong;
    if |a| == |b| && forall i :: 0 <= i < |a| ==> same(a[i], b[i]) {
      PairsAreMutual(a, b, same);
    }
    if Mutual(a, b, same) {
      IdsAgree(a, b, id, same);
      assert |a| == |Ids(a, id)| == |Ids(b, id)| == |b|;
      forall i | 0 <= i < |a|
        ensures same(a[i], b[i])
      {
        MateIsAtSamePlace(a, b, id, same, i);
      }
    }
  }

  lemma SameIdSamePlace<T(!new)>(s: seq<T>, id: T -> string, i: nat, j: nat)
    requires AscendingBy(s, id) && i < |s| && j < |s| && id(s[i]) == id(s[j])
    ensures i == j
  {
    Strings.CompareIsZero(id(s[i]), id(s[j]));
    hide Strings.Compare;
  }

  // ---- items ----

  function IdOfItem(x: Item): string {
    x.id
  }

  lemma SortedItems(items: seq<Item>)
    requires DistinctItems(items)
    ensures AscendingBy(SortItems(items), IdOfItem) && forall x :: x in SortItems(items) <==> x in items
  {
    var s := SortItems(items);
    ItemsArePreordered();
    SeqSort.SortSorts(CompareItems, items);
    hide SeqSort.Sort, Strings.Compare;
    assert forall x :: x in s <==> x in multiset(s);
    assert forall x :: x in items <==> x in multiset(items);
    DistinctSorted(items, s);
  }

  lemma DistinctSorted(items: seq<Item>, s: seq<Item>)
    requires DistinctItems(items) && multiset(s) == multiset(items) && SeqSort.IsSorted(CompareItems, s)
    ensures AscendingBy(s, IdOfItem)
  {
    forall i, j | 0 <= i < j < |s|
      ensures Strings.Less(s[i].id, s[j].id)
    {
      assert CompareItems(s[i], s[j]) <= 0;
      Strings.CompareIsZero(s[i].id, s[j].id);
      hide Strings.Compare;
      if s[i].id == s[j].id {
        SameIdTwice(items, s, i, j);
      }
    }
  }

  lemma SameIdTwice(items: seq<Item>, s: seq<Item>, i: nat, j: nat)
    requires DistinctItems(items) && multiset(s) == multiset(items) && i < j < |s|
    ensures s[i].id != s[j].id
  {
    assert NoRepeats(items);
    NoRepeatsIn(items, s);
    assert s[i] in multiset(items) && s[j] in multiset(items);
    var x :| 0 <= x < |items| && items[x] == s[i];
    var y :| 0 <= y < |items| && items[y] == s[j];
    assert x != y;
  }

  /** The JSON of each item. */
  function MembersOf(items: seq<Item>): (r: seq<map<string, Json>>)
    ensures |r| == |items| && forall i :: 0 <= i < |items| ==> r[i] == items[i].members
  {
    seq(|items|, i requires 0 <= i < |items| => items[i].members)
  }

  lemma ItemsAsObjects(items: seq<Item>)
    ensures ItemsJson(items) == ObjectsJson(MembersOf(items))
  {
  }

  lemma SameMeansMutual<T(!new)>(a: seq<T>, b: seq<T>, x: seq<T>, y: seq<T>, same: (T, T) -> bool)
    requires (forall e :: e in x <==> e in a) && (forall e :: e in y <==> e in b)
    ensures Mutual(x, y, same) <==> Mutual(a, b, same)
  {
    forall e
      ensures IsAmong(e, y, same) <==> IsAmong(e, b, same)
      ensures HasAmong(e, x, same) <==> HasAmong(e, a, same)
    {
    }
    hide IsAmong, HasAmong;
  }

  /** Two lists of items are written alike exactly when they hold the same items. */
  lemma ItemsWrittenAlike(a: seq<Item>, b: seq<Item>)
    requires ShowIds(a) && ShowIds(b)
    ensures Strip(ItemsJson(SortItems(a))) == Strip(ItemsJson(SortItems(b))) <==> SameItems(a, b)
  {
    var x, y := SortItems(a), SortItems(b);
    SortedItems(a);
    SortedItems(b);
    ItemsAsObjects(x);
    ItemsAsObjects(y);
    StrippedLists(MembersOf(x), MembersOf(y));
    hide SortItems, Strip, ItemsJson, ObjectsJson, AlikeMembers, AscendingBy, Mutual, DistinctItems;
    forall i | 0 <= i < |x| && i < |y|
      ensures SameItem(x[i], y[i]) <==> AlikeMembers(x[i].members, y[i].members)
    {
      assert x[i] in a && y[i] in b;
      AlikeShowIds(x[i], y[i]);
    }
    PairsByIds(x, y, IdOfItem, SameItem);
    SameMeansMutual(a, b, x, y, SameItem);
  }

  lemma AlikeShowIds(x: Item, y: Item)
    requires ShowsId(x.id, x.members) && ShowsId(y.id, y.members)
    ensures SameItem(x, y) <==> AlikeMembers(x.members, y.members)
  {
    hide AlikeAt;
    if AlikeMembers(x.members, y.members) {
      assert AlikeAt(x.members, y.members, "id");
      ShownIds(x.id, x.members, y.id, y.members);
    }
  }

  // ---- records ----

  function IdOfRecord(r: Record): string {
    r.id
  }

  /** What is written of a record whose fields are in order. */
  function RecordMembers(r: Record): map<string, Json> {
    r.members["fields" := ItemsJson(r.fields)]
  }

  ghost predicate WrittenAlike(r: Record, s: Record) {
    r.id == s.id && AlikeMembers(RecordMembers(r), RecordMembers(s))
  }

  lemma TidiedWrittenAlike(r: Record, s: Record)
    requires ShowsId(r.id, r.members) && ShowIds(r.fields) && ShowsId(s.id, s.members) && ShowIds(s.fields)
    ensures SameRecord(r, s) <==> AlikeMembers(RecordMembers(Tidied(r)), RecordMembers(Tidied(s)))
    ensures SameRecord(r, s) <==> WrittenAlike(Tidied(r), Tidied(s))
  {
    ItemsWrittenAlike(r.fields, s.fields);
    var x, y := RecordMembers(Tidied(r)), RecordMembers(Tidied(s));
    hide Strip, ItemsJson, SortItems, SameItems, ShowIds;
    forall k
      ensures AlikeAt(x, y, k) <==> if k == "fields" then SameItems(r.fields, s.fields) else AlikeAt(r.members, s.members, k)
    {
    }
    hide AlikeAt;
    if AlikeMembers(x, y) {
      assert AlikeAt(x, y, "fields") && AlikeAt(x, y, "id");
      assert "id" != "fields";
      TidiedIds(r, s);
    }
  }

  lemma TidiedIds(r: Record, s: Record)
    requires ShowsId(r.id, r.members) && ShowsId(s.id, s.members) && AlikeAt(r.members, s.members, "id")
    ensures r.id == s.id
  {
    ShownIds(r.id, r.members, s.id, s.members);
  }

  lemma SortedRecords(records: seq<Record>)
    requires DistinctRecords(records)
    ensures var s := SeqSort.Sort(CompareRecords, TidiedAll(records));
      AscendingBy(s, IdOfRecord) && forall x :: x in s <==> x in TidiedAll(records)
  {
    var tidied := TidiedAll(records);
    var s := SeqSort.Sort(CompareRecords, tidied);
    RecordsArePreordered();
    SeqSort.SortSorts(CompareRecords, tidied);
    hide SeqSort.Sort, Strings.Compare, TidiedAll, SortItems;
    assert forall x :: x in s <==> x in multiset(s);
    assert forall x :: x in tidied <==> x in multiset(tidied);
    assert DistinctRecords(tidied);
    forall i, j | 0 <= i < j < |s|
      ensures Strings.Less(s[i].id, s[j].id)
    {
      assert CompareRecords(s[i], s[j]) <= 0;
      Strings.CompareIsZero(s[i].id, s[j].id);
      SameRecordIdTwice(tidied, s, i, j);
    }
  }

  lemma SameRecordIdTwice(records: seq<Record>, s: seq<Record>, i: nat, j: nat)
    requires DistinctRecords(records) && multiset(s) == multiset(records) && i < j < |s|
    ensures s[i].id != s[j].id
  {
    assert NoRepeats(records);
    NoRepeatsIn(records, s);
    assert s[i] in multiset(records) && s[j] in multiset(records);
    var x :| 0 <= x < |records| && records[x] == s[i];
    var y :| 0 <= y < |records| && records[y] == s[j];
    assert x != y;
  }

  function MembersOfRecords(records: seq<Record>): (r: seq<map<string, Json>>)
    ensures |r| == |records| && forall i :: 0 <= i < |records| ==> r[i] == RecordMembers(records[i])
  {
    seq(|records|, i requires 0 <= i < |records| => RecordMembers(records[i]))
  }

  lemma RecordsAsObjects(records: seq<Record>)
    ensures RecordsJson(records) == ObjectsJson(MembersOfRecords(records))
  {
    hide ItemsJson;
  }

  lemma TidiedMutual(a: seq<Record>, b: seq<Record>)
    requires ShowRecordIds(a) && ShowRecordIds(b)
    ensures Mutual(TidiedAll(a), TidiedAll(b), WrittenAlike) <==> SameRecords(a, b)
  {
    var x, y := TidiedAll(a), TidiedAll(b);
    hide TidiedAll, SameRecord, WrittenAlike, Tidied, ShowsId, ShowIds, DistinctRecords;
    forall i, j | 0 <= i < |a| && 0 <= j < |b|
      ensures WrittenAlike(x[i], y[j]) <==> SameRecord(a[i], b[j])
    {
      TidiedWrittenAlike(a[i], b[j]);
    }
    forall i | 0 <= i < |a|
      ensures IsAmong(x[i], y, WrittenAlike) <==> IsAmong(a[i], b, SameRecord)
    {
      AmongByPlace(x[i], y, WrittenAlike, a[i], b, SameRecord);
    }
    forall j | 0 <= j < |b|
      ensures HasAmong(y[j], x, WrittenAlike) <==> HasAmong(b[j], a, SameRecord)
    {
      HasByPlace(y[j], x, WrittenAlike, b[j], a, SameRecord);
    }
    hide IsAmong, HasAmong;
    MutualByPlace(x, y, WrittenAlike);
    MutualByPlace(a, b, SameRecord);
  }

  lemma AmongByPlace(x: Record, s: seq<Record>, p: (Record, Record) -> bool, y: Record, t: seq<Record>, q: (Record, Record) -> bool)
    requires |s| == |t| && forall j :: 0 <= j < |s| ==> (p(x, s[j]) <==> q(y, t[j]))
    ensures IsAmong(x, s, p) <==> IsAmong(y, t, q)
  {
    if e :| e in s && p(x, e) {
      var j :| 0 <= j < |s| && s[j] == e;
      assert t[j] in t && q(y, t[j]);
    }
    if e :| e in t && q(y, e) {
      var j :| 0 <= j < |t| && t[j] == e;
      assert s[j] in s && p(x, s[j]);
    }
  }

  lemma HasByPlace(x: Record, s: seq<Record>, p: (Record, Record) -> bool, y: Record, t: seq<Record>, q: (Record, Record) -> bool)
    requires |s| == |t| && forall j :: 0 <= j < |s| ==> (p(s[j], x) <==> q(t[j], y))
    ensures HasAmong(x, s, p) <==> HasAmong(y, t, q)
  {
    if e :| e in s && p(e, x) {
      var j :| 0 <= j < |s| && s[j] == e;
      assert t[j] in t && q(t[j], y);
    }
    if e :| e in t && q(e, y) {
      var j :| 0 <= j < |t| && t[j] == e;
      assert s[j] in s && p(s[j], x);
    }
  }

  lemma MutualByPlace(a: seq<Record>, b: seq<Record>, same: (Record, Record) -> bool)
    ensures Mutual(a, b, same) <==>
      (forall i :: 0 <= i < |a| ==> IsAmong(a[i], b, same)) && (forall j :: 0 <= j < |b| ==> HasAmong(b[j], a, same))
  {
    hide IsAmong, HasAmong;
  }

  lemma TidiedShowIds(a: seq<Record>, b: seq<Record>, x: Record, y: Record)
    requires ShowRecordIds(a) && ShowRecordIds(b) && x in TidiedAll(a) && y in TidiedAll(b)
    ensures WrittenAlike(x, y) <==> AlikeMembers(RecordMembers(x), RecordMembers(y))
  {
    hide DistinctRecords, RecordMembers, Tidied, ShowIds, AlikeMembers, SameRecord, WrittenAlike;
    var k :| 0 <= k < |a| && x == Tidied(a[k]);
    var m :| 0 <= m < |b| && y == Tidied(b[m]);
    TidiedWrittenAlike(a[k], b[m]);
  }

  /** Two lists of records are written alike exactly when they hold the same records. */
  lemma RecordsWrittenAlike(a: seq<Record>, b: seq<Record>)
    requires ShowRecordIds(a) && ShowRecordIds(b)
    ensures Strip(RecordsJson(SeqSort.Sort(CompareRecords, TidiedAll(a)))) == Strip(RecordsJson(SeqSort.Sort(CompareRecords, TidiedAll(b))))
      <==> SameRecords(a, b)
  {
    var x, y := SeqSort.Sort(CompareRecords, TidiedAll(a)), SeqSort.Sort(CompareRecords, TidiedAll(b));
    SortedRecords(a);
    SortedRecords(b);
    RecordsAsObjects(x);
    RecordsAsObjects(y);
    StrippedLists(MembersOfRecords(x), MembersOfRecords(y));
    hide SeqSort.Sort, Strip, RecordsJson, ObjectsJson, AlikeMembers, AscendingBy, Mutual, ShowRecordIds, SameRecords, RecordMembers, TidiedAll, WrittenAlike;
    forall i | 0 <= i < |x| && i < |y|
      ensures WrittenAlike(x[i], y[i]) <==> AlikeMembers(RecordMembers(x[i]), RecordMembers(y[i]))
    {
      assert x[i] in TidiedAll(a) && y[i] in TidiedAll(b);
      TidiedShowIds(a, b, x[i], y[i]);
    }
    PairsByIds(x, y, IdOfRecord, WrittenAlike);
    SameMeansMutual(TidiedAll(a), TidiedAll(b), x, y, WrittenAlike);
    TidiedMutual(a, b);
  }

  // ---- results ----

  /** The names under which lists are written. */
  const LISTS: set<string> := {"records", "values", "guids", "bitFields", "functions", "vtables", "conditions"}

  /** All IDs are shown, and no two items of a list share one. */
  predicate IsIdentified(r: Result) {
    ShowRecordIds(r.records) && ShowIds(r.values) && ShowIds(r.guids) && ShowIds(r.bitFields) && ShowIds(r.functions) && ShowIds(r.vtables)
    && ShowIds(r.conditions)
  }

  lemma WrittenMembers(r: Result)
    ensures var d := Document(r);
      && d.Object? && Member(d, "records") == RecordsJson(r.records) && Member(d, "values") == ItemsJson(r.values)
      && Member(d, "guids") == ItemsJson(r.guids) && Member(d, "bitFields") == ItemsJson(r.bitFields)
      && Member(d, "functions") == ItemsJson(r.functions) && Member(d, "vtables") == ItemsJson(r.vtables)
      && Member(d, "conditions") == ItemsJson(r.conditions)
      && forall k :: k !in LISTS ==> Member(d, k) == Member(Object(r.header), k)
  {
    hide ItemsJson, RecordsJson;
  }

  /** The comparison finds two results equal exactly when their headers and each of their
      seven lists hold the same, nulls and the order of the lists aside. */
  lemma EqualExactly(a: Result, b: Result)
    requires IsIdentified(a) && IsIdentified(b)
    ensures Strip(Document(SortedResult(a))) == Strip(Document(SortedResult(b))) <==>
      && (forall k :: k !in LISTS ==> AlikeAt(a.header, b.header, k))
      && SameRecords(a.records, b.records) && SameItems(a.values, b.values) && SameItems(a.guids, b.guids) && SameItems(a.bitFields, b.bitFields)
      && SameItems(a.functions, b.functions) && SameItems(a.vtables, b.vtables) && SameItems(a.conditions, b.conditions)
  {
    var x, y := SortedResult(a), SortedResult(b);
    WrittenMembers(x);
    WrittenMembers(y);
    StrippedMembers(Document(x).members, Document(y).members);
    hide ShowIds, ShowRecordIds, SameItems, SameRecords, Strip, Document, ItemsJson, RecordsJson, SortItems, SeqSort.Sort, TidiedAll, Member;
    RecordsWrittenAlike(a.records, b.records);
    ItemsWrittenAlike(a.values, b.values);
    ItemsWrittenAlike(a.guids, b.guids);
    ItemsWrittenAlike(a.bitFields, b.bitFields);
    ItemsWrittenAlike(a.functions, b.functions);
    ItemsWrittenAlike(a.vtables, b.vtables);
    ItemsWrittenAlike(a.conditions, b.conditions);
    EqualByKeys(Document(x).members, Document(y).members);
  }

  lemma EqualByKeys(x: map<string, Json>, y: map<string, Json>)
    ensures AlikeMembers(x, y) <==>
      && (forall k :: k !in LISTS ==> AlikeAt(x, y, k))
      && AlikeAt(x, y, "records") && AlikeAt(x, y, "values") && AlikeAt(x, y, "guids") && AlikeAt(x, y, "bitFields")
      && AlikeAt(x, y, "functions") && AlikeAt(x, y, "vtables") && AlikeAt(x, y, "conditions")
  {
    hide AlikeAt;
  }
}
