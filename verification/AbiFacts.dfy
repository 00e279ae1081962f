/** The facts of a measurement, and that the comparison's decisions file each of them
    once, whatever was measured and modelled.
 */
module AbiFacts {
  import opened Options
  import opened AbiCompare
  import Strings
  import Layouts = RecordLayout

  // ---- what a run compares ----

  /** The reviewed declarations, by ID. */
  datatype Probes = Probes(functions: map<string, FunctionProbe>, bitFields: map<string, BitFieldProbe>)

  function ProbeFor<P>(probes: map<string, P>, id: string): Option<P> {
    if id != "" && id in probes then Some(probes[id]) else None
  }

  datatype Item =
    | RecordItem(record: RecordResult)
    | ValueItem(value: ValueResult)
    | GuidItem(guid: GuidResult)
    | BitFieldItem(bitField: BitFieldResult)
    | FunctionItem(function_: FunctionResult)
    | VTableItem(vtable: VTableResult)
    | ConditionItem(condition: ConditionResult)

  function RecordItems(records: seq<RecordResult>): seq<Item> {
    seq(|records|, i requires 0 <= i < |records| => RecordItem(records[i]))
  }

  function ValueItems(values: seq<ValueResult>): seq<Item> {
    seq(|values|, i requires 0 <= i < |values| => ValueItem(values[i]))
  }

  function GuidItems(guids: seq<GuidResult>): seq<Item> {
    seq(|guids|, i requires 0 <= i < |guids| => GuidItem(guids[i]))
  }

  function BitFieldItems(bitFields: seq<BitFieldResult>): seq<Item> {
    seq(|bitFields|, i requires 0 <= i < |bitFields| => BitFieldItem(bitFields[i]))
  }

  function FunctionItems(functions: seq<FunctionResult>): seq<Item> {
    seq(|functions|, i requires 0 <= i < |functions| => FunctionItem(functions[i]))
  }

  function VTableItems(vtables: seq<VTableResult>): seq<Item> {
    seq(|vtables|, i requires 0 <= i < |vtables| => VTableItem(vtables[i]))
  }

  function ConditionItems(conditions: seq<ConditionResult>): seq<Item> {
    seq(|conditions|, i requires 0 <= i < |conditions| => ConditionItem(conditions[i]))
  }

  /** What was measured, in the order it is compared. */
  function Items(o: OracleResult): seq<Item> {
    RecordItems(o.records) + (ValueItems(o.values) + (GuidItems(o.guids) + (BitFieldItems(o.bitFields)
    + (FunctionItems(o.functions) + (VTableItems(o.vtables) + ConditionItems(o.conditions))))))
  }

  /** The facts one measurement holds. */
  function ItemFacts(item: Item): seq<string> {
    match item
    case RecordItem(r) => RecordFacts(r)
    case ValueItem(v) => [Named(v.id, ValuePart)]
    case GuidItem(g) => [Named(g.id, ValuePart)]
    case BitFieldItem(f) => BitFieldFacts(f)
    case FunctionItem(f) => [Named(f.id, TypePart), Named(f.id, ConventionPart)]
    case VTableItem(t) => [Named(t.id, IndexPart)]
    case ConditionItem(c) => [Named(c.id, ValuePart)]
  }

  function AllFacts(items: seq<Item>): seq<string> {
    if items == [] then [] else AllFacts(items[..|items| - 1]) + ItemFacts(items[|items| - 1])
  }

  const INTERFACE_KINDS: Want := OfKind({ComInterface, WinRTInterface})

  /** How one measurement is filed. */
  function ItemEntries(inventory: seq<Symbol>, probes: Probes, architecture: string, item: Item): seq<Entry> {
    match item
    case RecordItem(r) => RecordEntries(FindSymbol(inventory, architecture, r.nativeName, RECORD_KINDS), architecture, r)
    case ValueItem(v) => ValueEntries(FindSymbol(inventory, architecture, v.nativeName, OfKind({ConstantKind})), v)
    case GuidItem(g) => GuidEntries(FindSymbol(inventory, architecture, g.nativeName, WithGuid), g)
    case BitFieldItem(f) =>
      var probe := ProbeFor(probes.bitFields, f.id);
      var s := if probe == None then None else FindSymbol(inventory, architecture, probe.value.record, OfKind({StructKind, UnionKind}));
      BitFieldEntries(probe, s, f)
    case FunctionItem(f) =>
      FunctionEntries(ProbeFor(probes.functions, f.id), FindSymbol(inventory, architecture, f.nativeName, OfKind({FunctionKind})), f)
    case VTableItem(t) => VTableEntries(FindSymbol(inventory, architecture, t.interfaceName, INTERFACE_KINDS), t)
    case ConditionItem(c) => ConditionEntries(c)
  }

  function AllEntries(inventory: seq<Symbol>, probes: Probes, architecture: string, items: seq<Item>): seq<Entry> {
    if items == [] then []
    else
      AllEntries(inventory, probes, architecture, items[..|items| - 1])
      + ItemEntries(inventory, probes, architecture, items[|items| - 1])
  }

  /** The record's offsets are derived and the derivation divides by zero. */
  ghost predicate RecordCrashes(s: Option<Symbol>, architecture: string, record: RecordResult) {
    && s.Some? && s.value.symbolType.Some?
    && var t := s.value.symbolType.value;
       var layout := Layouts.FindLayout(t.layouts, architecture);
    && (if s.value.kind.GuidKind? then "struct" else KindName(t.kind)) == record.kind
    && layout.Some? && Layouts.RecordDivides(t, layout.value, architecture)
  }

  ghost predicate Crashes(inventory: seq<Symbol>, architecture: string, item: Item) {
    item.RecordItem? && RecordCrashes(FindSymbol(inventory, architecture, item.record.nativeName, RECORD_KINDS), architecture, item.record)
  }

  // ---- each measurement is filed fact by fact ----

  lemma NoFacts()
    ensures FactsIn([]) == []
  {
  }

  lemma FactsInLast(log: seq<Entry>, e: Entry)
    ensures FactsIn(log + [e]) == FactsIn(log) + FactOf(e)
  {
    var all := log + [e];
    assert all[..|all| - 1] == log && all[|all| - 1] == e;
    hide FactOf;
  }

  lemma {:induction false} FactsInAppend(a: seq<Entry>, b: seq<Entry>)
    ensures FactsIn(a + b) == FactsIn(a) + FactsIn(b)
  {
    hide FactsIn, FactOf;
    if b == [] {
      NoFacts();
      assert a + b == a;
    } else {
      var rest, last := b[..|b| - 1], b[|b| - 1];
      assert b == rest + [last] && a + b == (a + rest) + [last];
      FactsInAppend(a, rest);
      FactsInLast(rest, last);
      FactsInLast(a + rest, last);
      assert FactsIn(a + b) == FactsIn(a) + (FactsIn(rest) + FactOf(last));
    }
  }

  lemma FactsInOne(e: Entry)
    ensures FactsIn([e]) == FactOf(e)
  {
    assert [e][..0] == [];
  }

  /** The last letter tells a counted fact from a difference of kind. */
  lemma CountedParts(id: string, part: Part)
    ensures IsKindFact(Named(id, part)) <==> part == KindPart
  {
    var fact, name := Named(id, part), PartName(part);
    assert fact[|fact| - 1] == name[|name| - 1];
    if part == KindPart {
      assert fact == id + ".kind";
      assert fact[|fact| - 5..] == ".kind";
    } else {
      assert name[|name| - 1] != 'd';
      EndsAlike(fact, ".kind");
    }
  }

  lemma EndsAlike(fact: string, suffix: string)
    requires fact != [] && suffix != []
    ensures Strings.HasSuffix(fact, suffix) ==> fact[|fact| - 1] == suffix[|suffix| - 1]
  {
    if Strings.HasSuffix(fact, suffix) {
      assert fact[|fact| - |suffix|..][|suffix| - 1] == suffix[|suffix| - 1];
    }
  }

  lemma {:induction false} UnmatchedManyFacts(owner: Option<string>, facts: seq<string>, reason: Reason)
    ensures FactsIn(UnmatchedMany(owner, facts, reason)) == facts
  {
    hide FactsIn;
    var entries := UnmatchedMany(owner, facts, reason);
    if facts == [] {
      assert FactsIn([]) == [] by { NoFacts(); }
    } else {
      var n := |facts| - 1;
      var before, last := UnmatchedMany(owner, facts[..n], reason), Unmatched(owner, facts[n], reason);
      assert entries == before + [last];
      UnmatchedManyFacts(owner, facts[..n], reason);
      FactsInAppend(before, [last]);
      FactsInOne(last);
    }
  }

  lemma OffsetEntryFact(symbol: string, t: Layouts.Type, answer: Layouts.Answer, record: RecordResult, field: FieldResult)
    ensures FactOf(OffsetEntry(symbol, t, answer, record, field)) == [OffsetFact(record, field)]
  {
    var id := record.id + ".field." + field.id;
    CountedParts(id, OffsetPart);
    hide Named, IsKindFact;
  }

  lemma {:induction false} OffsetEntriesFacts(symbol: string, t: Layouts.Type, answer: Layouts.Answer, record: RecordResult, fields: seq<FieldResult>)
    ensures |OffsetEntries(symbol, t, answer, record, fields)| == |fields|
    ensures FactsIn(OffsetEntries(symbol, t, answer, record, fields)) == OffsetFacts(record, fields)
  {
    var entries := OffsetEntries(symbol, t, answer, record, fields);
    if fields != [] {
      var n := |fields| - 1;
      OffsetEntriesFacts(symbol, t, answer, record, fields[..n]);
      assert entries[..n] == OffsetEntries(symbol, t, answer, record, fields[..n]);
      OffsetEntryFact(symbol, t, answer, record, fields[n]);
    }
  }

  lemma FactsInTwo(entries: seq<Entry>)
    requires |entries| == 2
    ensures FactsIn(entries) == FactOf(entries[0]) + FactOf(entries[1])
  {
    assert entries == [entries[0]] + [entries[1]];
    FactsInAppend([entries[0]], [entries[1]]);
    FactsInOne(entries[0]);
    FactsInOne(entries[1]);
  }

  lemma FactsInThree(entries: seq<Entry>)
    requires |entries| == 3
    ensures FactsIn(entries) == FactOf(entries[0]) + FactOf(entries[1]) + FactOf(entries[2])
  {
    assert entries == entries[..2] + [entries[2]];
    FactsInAppend(entries[..2], [entries[2]]);
    FactsInTwo(entries[..2]);
    FactsInOne(entries[2]);
  }

  lemma RecordIsFiled(s: Option<Symbol>, architecture: string, record: RecordResult)
    ensures FactsIn(RecordEntries(s, architecture, record)) == RecordFacts(record)
  {
    hide Named, FactsIn, IsKindFact, OffsetEntries, OffsetFacts, UnmatchedMany, Layouts.FindLayout, Layouts.RecordOffsetsOf, KindName;
    var facts := RecordFacts(record);
    if s == None || s.value.symbolType == None {
      UnmatchedManyFacts(None, facts, NoRecord);
    } else {
      var id, t := s.value.id, s.value.symbolType.value;
      var kind := if s.value.kind.GuidKind? then "struct" else KindName(t.kind);
      var layout := Layouts.FindLayout(t.layouts, architecture);
      if kind != record.kind {
        var difference := Mismatched(id, RecordKindMismatch, Named(record.id, KindPart), record.kind, kind);
        var rest := UnmatchedMany(Some(id), facts, KindDiffers);
        CountedParts(record.id, KindPart);
        FactsInTwo([Touch(id), difference]);
        FactsInAppend([Touch(id), difference], rest);
        UnmatchedManyFacts(Some(id), facts, KindDiffers);
      } else if layout == None {
        var rest := UnmatchedMany(Some(id), facts, NoLayout);
        FactsInOne(Touch(id));
        FactsInAppend([Touch(id)], rest);
        UnmatchedManyFacts(Some(id), facts, NoLayout);
      } else {
        var size := UintEntry(id, Named(record.id, SizePart), record.size, layout.value.size);
        var alignment := UintEntry(id, Named(record.id, AlignmentPart), record.alignment, layout.value.alignment);
        CountedParts(record.id, SizePart);
        CountedParts(record.id, AlignmentPart);
        var answer := Layouts.RecordOffsetsOf(t, layout.value, architecture);
        FactsInThree([Touch(id), size, alignment]);
        FactsInAppend([Touch(id), size, alignment], OffsetEntries(id, t, answer, record, record.fields));
        OffsetEntriesFacts(id, t, answer, record, record.fields);
      }
    }
  }

  lemma BitFieldIsFiled(probe: Option<BitFieldProbe>, s: Option<Symbol>, field: BitFieldResult)
    ensures multiset(FactsIn(BitFieldEntries(probe, s, field))) == multiset(BitFieldFacts(field))
  {
    var entries, facts := BitFieldEntries(probe, s, field), BitFieldFacts(field);
    CountedParts(field.id, MaskPart);
    CountedParts(field.id, BitOffsetPart);
    CountedParts(field.id, BitWidthPart);
    hide Named, IsKindFact, UnmatchedMany, FactsIn, Layouts.FindField, BitMask, BitText;
    if probe == None || probe.value.record == "" {
      UnmatchedManyFacts(None, facts, NoBitFieldProbe);
    } else if s == None || s.value.symbolType == None {
      UnmatchedManyFacts(None, facts, NoBitFieldRecord);
    } else {
      var id := s.value.id;
      var rest := entries[1..];
      assert FactOf(entries[0]) == [];
      assert entries == [entries[0]] + rest;
      FactsInOne(entries[0]);
      FactsInAppend([entries[0]], rest);
      assert FactsIn(entries) == FactsIn(rest);
      var f := Layouts.FindField(s.value.symbolType.value.fields, probe.value.field);
      if f == None || f.value.bitField == None {
        assert rest == UnmatchedMany(Some(id), facts, NoBitField);
        UnmatchedManyFacts(Some(id), facts, NoBitField);
      } else {
        FactsInThree(rest);
        assert FactOf(rest[0]) == [facts[1]];
        assert FactOf(rest[1]) == [facts[2]];
        assert FactOf(rest[2]) == [facts[0]];
        assert FactsIn(rest) == [facts[1], facts[2], facts[0]];
        Rotate(facts[1], facts[2], facts[0]);
      }
    }
  }

  lemma Rotate(a: string, b: string, c: string)
    ensures multiset([a, b, c]) == multiset([c, a, b])
  {
  }

  lemma Exchange(a: string, b: string)
    ensures multiset([a, b]) == multiset([b, a])
  {
  }

  lemma FunctionIsFiled(probe: Option<FunctionProbe>, s: Option<Symbol>, f: FunctionResult)
    ensures multiset(FactsIn(FunctionEntries(probe, s, f))) == multiset([Named(f.id, TypePart), Named(f.id, ConventionPart)])
  {
    var entries := FunctionEntries(probe, s, f);
    CountedParts(f.id, TypePart);
    CountedParts(f.id, ConventionPart);
    hide Named, IsKindFact, FactsIn, ConventionsEquivalent;
    var typed, calling := Named(f.id, TypePart), Named(f.id, ConventionPart);
    if s == None || s.value.function_ == None {
      FactsInTwo(entries);
      assert FactsIn(entries) == [typed, calling];
    } else {
      FactsInThree(entries);
      assert FactOf(entries[0]) == [];
      assert FactOf(entries[1]) == [calling];
      assert FactOf(entries[2]) == [typed];
      assert FactsIn(entries) == [calling, typed];
      Exchange(calling, typed);
    }
  }

  /** A measurement of one fact. */
  lemma SmallItemIsFiled(inventory: seq<Symbol>, probes: Probes, architecture: string, item: Item)
    requires item.ValueItem? || item.GuidItem? || item.VTableItem? || item.ConditionItem?
    ensures FactsIn(ItemEntries(inventory, probes, architecture, item)) == ItemFacts(item)
  {
    hide Named, IsKindFact, FactsIn, FindSymbol, FindMethod, UintEntry;
    var entries, fact := ItemEntries(inventory, probes, architecture, item), ItemFacts(item)[0];
    OneFactEach(inventory, probes, architecture, item);
    if |entries| == 1 {
      assert entries == [entries[0]];
      FactsInOne(entries[0]);
    } else {
      FactsInTwo(entries);
    }
    assert FactsIn(entries) == [fact];
  }

  lemma OneFactEach(inventory: seq<Symbol>, probes: Probes, architecture: string, item: Item)
    requires item.ValueItem? || item.GuidItem? || item.VTableItem? || item.ConditionItem?
    ensures var entries, fact := ItemEntries(inventory, probes, architecture, item), ItemFacts(item)[0];
      && 1 <= |entries| <= 2 && FactOf(entries[|entries| - 1]) == [fact]
      && (|entries| == 2 ==> FactOf(entries[0]) == [])
  {
    hide Named, IsKindFact, FactsIn, FindSymbol, FindMethod;
    if item.ValueItem? {
      CountedParts(item.value.id, ValuePart);
    } else if item.GuidItem? {
      CountedParts(item.guid.id, ValuePart);
    } else if item.VTableItem? {
      CountedParts(item.vtable.id, IndexPart);
    }
  }

  lemma ItemIsFiled(inventory: seq<Symbol>, probes: Probes, architecture: string, item: Item)
    ensures multiset(FactsIn(ItemEntries(inventory, probes, architecture, item))) == multiset(ItemFacts(item))
  {
    hide FactsIn, FindSymbol, RecordEntries, BitFieldEntries, FunctionEntries, ValueEntries, GuidEntries, VTableEntries, ConditionEntries;
    match item
    case RecordItem(r) => RecordIsFiled(FindSymbol(inventory, architecture, r.nativeName, RECORD_KINDS), architecture, r);
    case BitFieldItem(f) =>
      var probe := ProbeFor(probes.bitFields, f.id);
      BitFieldIsFiled(probe, if probe == None then None else FindSymbol(inventory, architecture, probe.value.record, OfKind({StructKind, UnionKind})), f);
    case FunctionItem(f) =>
      FunctionIsFiled(ProbeFor(probes.functions, f.id), FindSymbol(inventory, architecture, f.nativeName, OfKind({FunctionKind})), f);
    case _ => SmallItemIsFiled(inventory, probes, architecture, item);
  }

  lemma {:induction false} AllIsFiled(inventory: seq<Symbol>, probes: Probes, architecture: string, items: seq<Item>)
    ensures multiset(FactsIn(AllEntries(inventory, probes, architecture, items))) == multiset(AllFacts(items))
  {
    hide ItemEntries, ItemFacts;
    if items != [] {
      var before, item := items[..|items| - 1], items[|items| - 1];
      AllIsFiled(inventory, probes, architecture, before);
      ItemIsFiled(inventory, probes, architecture, item);
      FactsInAppend(AllEntries(inventory, probes, architecture, before), ItemEntries(inventory, probes, architecture, item));
    }
  }

  // ---- every symbol looked at is given a fact ----

  /** The entry files a fact under the symbol. */
  predicate Gives(e: Entry, symbol: string) {
    Owner(e) == Some(symbol) && !e.Touch? && (e.Mismatched? ==> !IsKindFact(e.fact))
  }

  /** Whatever symbol is named is given a fact, somewhere. */
  ghost predicate Fruitful(entries: seq<Entry>) {
    forall i :: 0 <= i < |entries| && Owner(entries[i]).Some? ==> GivesSome(entries, Owner(entries[i]).value)
  }

  ghost predicate GivesSome(entries: seq<Entry>, symbol: string) {
    exists j :: 0 <= j < |entries| && Gives(entries[j], symbol)
  }

  lemma FruitfulAppend(a: seq<Entry>, b: seq<Entry>)
    requires Fruitful(a) && Fruitful(b)
    ensures Fruitful(a + b)
  {
    hide Gives, Owner;
    forall i | 0 <= i < |a + b| && Owner((a + b)[i]).Some?
      ensures GivesSome(a + b, Owner((a + b)[i]).value)
    {
      if i < |a| {
        var j :| 0 <= j < |a| && Gives(a[j], Owner(a[i]).value);
        assert (a + b)[j] == a[j];
      } else {
        var j :| 0 <= j < |b| && Gives(b[j], Owner(b[i - |a|]).value);
        assert (a + b)[|a| + j] == b[j];
      }
    }
  }

  lemma {:induction false} Given(entries: seq<Entry>, symbol: string)
    requires symbol in FileAll(entries).symbols
    ensures exists i :: 0 <= i < |entries| && Owner(entries[i]) == Some(symbol)
  {
    var n := |entries| - 1;
    if Owner(entries[n]) == Some(symbol) {
    } else {
      Given(entries[..n], symbol);
      var i :| 0 <= i < n && Owner(entries[..n][i]) == Some(symbol);
      assert entries[i] == entries[..n][i];
    }
  }

  function Held(r: SymbolResult): nat {
    |r.matched| + |r.unmatched| + |r.mismatched|
  }

  predicate HeldIn(t: Tally, symbol: string) {
    symbol in t.symbols && Held(t.symbols[symbol]) > 0
  }

  /** A symbol that holds a fact keeps it, and one that is given a fact holds it. */
  lemma FileHolds(t: Tally, e: Entry, symbol: string)
    ensures HeldIn(t, symbol) || Gives(e, symbol) ==> HeldIn(File(t, e), symbol)
  {
    hide IsKindFact;
  }

  lemma {:induction false} GivenIsHeld(entries: seq<Entry>, j: nat, symbol: string)
    requires j < |entries| && Gives(entries[j], symbol)
    ensures HeldIn(FileAll(entries), symbol)
  {
    hide File, Gives, HeldIn;
    var n := |entries| - 1;
    FileHolds(FileAll(entries[..n]), entries[n], symbol);
    if j < n {
      assert entries[..n][j] == entries[j];
      GivenIsHeld(entries[..n], j, symbol);
    }
  }

  lemma EverySymbolHolds(entries: seq<Entry>, symbol: string)
    requires Fruitful(entries) && symbol in FileAll(entries).symbols
    ensures Held(FileAll(entries).symbols[symbol]) > 0
  {
    hide FileAll, Gives, Owner;
    Given(entries, symbol);
    var i :| 0 <= i < |entries| && Owner(entries[i]) == Some(symbol);
    var j :| 0 <= j < |entries| && Gives(entries[j], symbol);
    GivenIsHeld(entries, j, symbol);
  }

  /** All entries are of one symbol, which is given a fact, or of none. */
  predicate OfOne(entries: seq<Entry>, owner: Option<string>) {
    && (forall i :: 0 <= i < |entries| ==> Owner(entries[i]) == owner)
    && (owner.Some? ==> |entries| > 1 && (Gives(entries[1], owner.value) || (|entries| > 2 && Gives(entries[2], owner.value))))
  }

  lemma OfOneIsFruitful(entries: seq<Entry>, owner: Option<string>)
    requires OfOne(entries, owner)
    ensures Fruitful(entries)
  {
    hide Gives, Owner;
    assert owner.Some? ==> GivesSome(entries, owner.value);
  }

  lemma {:induction false} OffsetEntriesOwned(symbol: string, t: Layouts.Type, answer: Layouts.Answer, record: RecordResult, fields: seq<FieldResult>)
    ensures forall e :: e in OffsetEntries(symbol, t, answer, record, fields) ==> Owner(e) == Some(symbol)
  {
    if fields != [] {
      OffsetEntriesOwned(symbol, t, answer, record, fields[..|fields| - 1]);
    }
  }

  lemma {:induction false} UnmatchedManyAre(owner: Option<string>, facts: seq<string>, reason: Reason)
    ensures var entries := UnmatchedMany(owner, facts, reason);
      |entries| == |facts| && forall i :: 0 <= i < |facts| ==> entries[i] == Unmatched(owner, facts[i], reason)
  {
    if facts != [] {
      UnmatchedManyAre(owner, facts[..|facts| - 1], reason);
    }
  }

  lemma UintGives(symbol: string, id: string, part: Part, expected: nat, actual: nat)
    requires part != KindPart
    ensures Gives(UintEntry(symbol, Named(id, part), expected, actual), symbol)
    ensures Owner(UintEntry(symbol, Named(id, part), expected, actual)) == Some(symbol)
  {
    CountedParts(id, part);
    hide IsKindFact, Named;
  }

  lemma RecordOfOne(s: Option<Symbol>, architecture: string, record: RecordResult)
    ensures OfOne(RecordEntries(s, architecture, record), if s == None || s.value.symbolType == None then None else Some(s.value.id))
  {
    hide Named, IsKindFact, OffsetEntries, OffsetFacts, Layouts.FindLayout, Layouts.RecordOffsetsOf, KindName, UintEntry;
    hide UnmatchedMany;
    var entries, facts := RecordEntries(s, architecture, record), RecordFacts(record);
    UnmatchedManyAre(None, facts, NoRecord);
    if s.Some? && s.value.symbolType.Some? {
      var id, t := s.value.id, s.value.symbolType.value;
      UnmatchedManyAre(Some(id), facts, KindDiffers);
      UnmatchedManyAre(Some(id), facts, NoLayout);
      var layout := Layouts.FindLayout(t.layouts, architecture);
      if layout.Some? {
        var answer := Layouts.RecordOffsetsOf(t, layout.value, architecture);
        UintGives(id, record.id, SizePart, record.size, layout.value.size);
        UintGives(id, record.id, AlignmentPart, record.alignment, layout.value.alignment);
        OffsetEntriesOwned(id, t, answer, record, record.fields);
      }
    }
  }

  lemma BitFieldOfOne(probe: Option<BitFieldProbe>, s: Option<Symbol>, field: BitFieldResult)
    ensures OfOne(BitFieldEntries(probe, s, field),
                  if probe == None || probe.value.record == "" || s == None || s.value.symbolType == None then None else Some(s.value.id))
  {
    hide Named, IsKindFact, UintEntry, UnmatchedMany, Layouts.FindField, BitMask, BitText;
    UnmatchedManyAre(None, BitFieldFacts(field), NoBitFieldProbe);
    UnmatchedManyAre(None, BitFieldFacts(field), NoBitFieldRecord);
    if probe.Some? && s.Some? && s.value.symbolType.Some? {
      UnmatchedManyAre(Some(s.value.id), BitFieldFacts(field), NoBitField);
      var f := Layouts.FindField(s.value.symbolType.value.fields, probe.value.field);
      if f.Some? && f.value.bitField.Some? {
        var bits := f.value.bitField.value;
        UintGives(s.value.id, field.id, BitOffsetPart, field.bitOffset, bits.bitOffset);
        UintGives(s.value.id, field.id, BitWidthPart, field.bitWidth, bits.bitWidth);
      }
    }
  }

  lemma FunctionOfOne(probe: Option<FunctionProbe>, s: Option<Symbol>, f: FunctionResult)
    ensures OfOne(FunctionEntries(probe, s, f), if s == None || s.value.function_ == None then None else Some(s.value.id))
  {
    CountedParts(f.id, ConventionPart);
    hide Named, IsKindFact, ConventionsEquivalent;
  }

  lemma SmallItemOfOne(inventory: seq<Symbol>, probes: Probes, architecture: string, item: Item)
    requires item.ValueItem? || item.GuidItem? || item.VTableItem? || item.ConditionItem?
    ensures var entries := ItemEntries(inventory, probes, architecture, item); entries != [] && OfOne(entries, Owner(entries[0]))
  {
    hide Named, IsKindFact, FindSymbol, FindMethod;
    if item.ValueItem? {
      CountedParts(item.value.id, ValuePart);
    } else if item.GuidItem? {
      CountedParts(item.guid.id, ValuePart);
    } else if item.VTableItem? {
      CountedParts(item.vtable.id, IndexPart);
    }
  }

  lemma ItemIsFruitful(inventory: seq<Symbol>, probes: Probes, architecture: string, item: Item)
    ensures Fruitful(ItemEntries(inventory, probes, architecture, item))
  {
    hide FindSymbol, RecordEntries, BitFieldEntries, FunctionEntries, ValueEntries, GuidEntries, VTableEntries, ConditionEntries, OfOne, Fruitful;
    var entries := ItemEntries(inventory, probes, architecture, item);
    match item
    case RecordItem(r) =>
      var s := FindSymbol(inventory, architecture, r.nativeName, RECORD_KINDS);
      RecordOfOne(s, architecture, r);
      OfOneIsFruitful(entries, if s == None || s.value.symbolType == None then None else Some(s.value.id));
    case BitFieldItem(f) =>
      var probe := ProbeFor(probes.bitFields, f.id);
      var s := if probe == None then None else FindSymbol(inventory, architecture, probe.value.record, OfKind({StructKind, UnionKind}));
      BitFieldOfOne(probe, s, f);
      OfOneIsFruitful(entries, if probe == None || probe.value.record == "" || s == None || s.value.symbolType == None then None else Some(s.value.id));
    case FunctionItem(f) =>
      var s := FindSymbol(inventory, architecture, f.nativeName, OfKind({FunctionKind}));
      FunctionOfOne(ProbeFor(probes.functions, f.id), s, f);
      OfOneIsFruitful(entries, if s == None || s.value.function_ == None then None else Some(s.value.id));
    case _ =>
      SmallItemOfOne(inventory, probes, architecture, item);
      OfOneIsFruitful(entries, Owner(entries[0]));
  }

  lemma {:induction false} AllIsFruitful(inventory: seq<Symbol>, probes: Probes, architecture: string, items: seq<Item>)
    ensures Fruitful(AllEntries(inventory, probes, architecture, items))
  {
    hide Fruitful, ItemEntries;
    if items == [] {
      OfOneIsFruitful([], None);
    } else {
      var before, item := items[..|items| - 1], items[|items| - 1];
      AllIsFruitful(inventory, probes, architecture, before);
      ItemIsFruitful(inventory, probes, architecture, item);
      FruitfulAppend(AllEntries(inventory, probes, architecture, before), ItemEntries(inventory, probes, architecture, item));
    }
  }
}
