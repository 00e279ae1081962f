/** What a comparison of measurements must say, told from the measurements and the symbols
    alone, and that its decisions say so.
 */
module AbiMeaning {
  import opened Options
  import opened AbiCompare
  import opened AbiFacts
  import Decimal
  import Strings
  import Layouts = RecordLayout

  // ---- the symbol a measurement is compared with ----

  predicate Fits(s: Symbol, architecture: string, nativeName: string, want: Want) {
    && s.nativeName == nativeName && Wanted(s, want)
    && (s.architecture == architecture || s.architecture == "neutral" || s.architecture == "all")
  }

  /** The symbol at i goes before the one at j: it is for this very architecture and the
      other is not; or its ID is lower; or it stands first. */
  ghost predicate Before(inventory: seq<Symbol>, architecture: string, i: nat, j: nat)
    requires i < |inventory| && j < |inventory|
  {
    var a, b := inventory[i], inventory[j];
    if (a.architecture == architecture) != (b.architecture == architecture) then a.architecture == architecture
    else if a.id != b.id then Strings.StandsBefore(a.id, b.id)
    else i < j
  }

  ghost predicate IsBestAt(inventory: seq<Symbol>, architecture: string, nativeName: string, want: Want, i: nat) {
    && i < |inventory| && Fits(inventory[i], architecture, nativeName, want)
    && forall j: nat :: j < |inventory| && j != i && Fits(inventory[j], architecture, nativeName, want) ==> Before(inventory, architecture, i, j)
  }

  ghost predicate IsBest(inventory: seq<Symbol>, architecture: string, nativeName: string, want: Want, s: Symbol) {
    exists i: nat :: IsBestAt(inventory, architecture, nativeName, want, i) && inventory[i] == s
  }

  lemma FitsIsCandidate(s: Symbol, architecture: string, nativeName: string, want: Want)
    ensures Fits(s, architecture, nativeName, want) <==> Candidate(s, architecture, nativeName, want)
  {
  }

  lemma BetterIsBefore(inventory: seq<Symbol>, architecture: string, nativeName: string, want: Want, i: nat, j: nat)
    requires i < |inventory| && j < |inventory| && i > j
    requires Fits(inventory[i], architecture, nativeName, want) && Fits(inventory[j], architecture, nativeName, want)
    ensures Better(inventory[i], inventory[j], architecture) <==> Before(inventory, architecture, i, j)
    ensures !Better(inventory[i], inventory[j], architecture) <==> Before(inventory, architecture, j, i)
  {
    var a, b := inventory[i].id, inventory[j].id;
    Strings.CompareMeans(a, b);
    Strings.CompareMeans(b, a);
    Strings.CompareIsZero(a, b);
    Strings.CompareIsAntisymmetric(a, b);
    hide Strings.Compare, Strings.StandsBefore;
  }

  lemma BeforeIsStrict(inventory: seq<Symbol>, architecture: string, i: nat, j: nat)
    requires i < |inventory| && j < |inventory|
    ensures !(Before(inventory, architecture, i, j) && Before(inventory, architecture, j, i))
  {
    var a, b := inventory[i].id, inventory[j].id;
    Strings.CompareMeans(a, b);
    Strings.CompareMeans(b, a);
    Strings.CompareIsAntisymmetric(a, b);
    hide Strings.Compare, Strings.StandsBefore;
  }

  lemma BeforeIsTransitive(inventory: seq<Symbol>, architecture: string, i: nat, j: nat, k: nat)
    requires i < |inventory| && j < |inventory| && k < |inventory|
    requires Before(inventory, architecture, i, j) && Before(inventory, architecture, j, k)
    ensures Before(inventory, architecture, i, k)
  {
    var a, b, c := inventory[i].id, inventory[j].id, inventory[k].id;
    Strings.CompareMeans(a, b);
    Strings.CompareMeans(b, c);
    Strings.CompareMeans(a, c);
    Strings.CompareIsZero(a, c);
    if Strings.Compare(a, b) <= 0 && Strings.Compare(b, c) <= 0 {
      Strings.CompareIsTransitive(a, b, c);
    }
    Strings.CompareIsZero(a, b);
    Strings.CompareIsZero(b, c);
    hide Strings.Compare, Strings.StandsBefore;
  }

  lemma BestWithOneMore(inventory: seq<Symbol>, architecture: string, nativeName: string, want: Want, i: nat)
    requires inventory != [] && IsBestAt(inventory[..|inventory| - 1], architecture, nativeName, want, i)
    ensures var n := |inventory| - 1;
      var takes := Candidate(inventory[n], architecture, nativeName, want) && Better(inventory[n], inventory[i], architecture);
      IsBestAt(inventory, architecture, nativeName, want, if takes then n else i)
  {
    var n := |inventory| - 1;
    var before := inventory[..n];
    FitsIsCandidate(inventory[n], architecture, nativeName, want);
    assert Fits(inventory[i], architecture, nativeName, want);
    if Fits(inventory[n], architecture, nativeName, want) {
      BetterIsBefore(inventory, architecture, nativeName, want, n, i);
    }
    hide Fits, Candidate, Better;
    forall j: nat | j < n && j != i && Fits(inventory[j], architecture, nativeName, want)
      ensures Before(inventory, architecture, i, j)
      ensures Before(inventory, architecture, n, i) ==> Before(inventory, architecture, n, j)
    {
      assert Fits(before[j], architecture, nativeName, want);
      assert Before(before, architecture, i, j);
      if Before(inventory, architecture, n, i) {
        BeforeIsTransitive(inventory, architecture, n, i, j);
      }
    }
  }

  lemma {:induction false} FindSymbolFinds(inventory: seq<Symbol>, architecture: string, nativeName: string, want: Want)
    ensures var r := FindSymbol(inventory, architecture, nativeName, want);
      && (r == None ==> forall s :: s in inventory ==> !Fits(s, architecture, nativeName, want))
      && (r.Some? ==> IsBest(inventory, architecture, nativeName, want, r.value))
  {
    if inventory != [] {
      var n := |inventory| - 1;
      var before := inventory[..n];
      FindSymbolFinds(before, architecture, nativeName, want);
      FitsIsCandidate(inventory[n], architecture, nativeName, want);
      hide Fits, Candidate, Better, Before;
      var best := FindSymbol(before, architecture, nativeName, want);
      if best == None {
        assert Fits(inventory[n], architecture, nativeName, want) ==> IsBestAt(inventory, architecture, nativeName, want, n);
      } else {
        var i: nat :| IsBestAt(before, architecture, nativeName, want, i) && before[i] == best.value;
        BestWithOneMore(inventory, architecture, nativeName, want, i);
      }
    }
  }

  /** A symbol is found exactly when it is the best. */
  lemma BestIsFound(inventory: seq<Symbol>, architecture: string, nativeName: string, want: Want, s: Symbol)
    ensures IsBest(inventory, architecture, nativeName, want, s) <==> FindSymbol(inventory, architecture, nativeName, want) == Some(s)
  {
    FindSymbolFinds(inventory, architecture, nativeName, want);
    var r := FindSymbol(inventory, architecture, nativeName, want);
    if IsBest(inventory, architecture, nativeName, want, s) {
      var i: nat :| IsBestAt(inventory, architecture, nativeName, want, i) && inventory[i] == s;
      assert inventory[i] in inventory;
      var j: nat :| IsBestAt(inventory, architecture, nativeName, want, j) && inventory[j] == r.value;
      BeforeIsStrict(inventory, architecture, i, j);
    }
  }

  // ---- what each measurement is compared with ----

  /** The symbol has what the measurement is about, and is the best of its name. */
  ghost predicate LooksAt(inventory: seq<Symbol>, probes: Probes, architecture: string, item: Item, s: Symbol) {
    match item
    case RecordItem(r) => IsBest(inventory, architecture, r.nativeName, OfKind({StructKind, UnionKind, GuidKind}), s) && s.symbolType.Some?
    case ValueItem(v) => IsBest(inventory, architecture, v.nativeName, OfKind({ConstantKind}), s) && s.constant.Some?
    case GuidItem(g) => IsBest(inventory, architecture, g.nativeName, WithGuid, s) && s.guid.Some?
    case BitFieldItem(f) =>
      && f.id != "" && f.id in probes.bitFields && probes.bitFields[f.id].record != ""
      && IsBest(inventory, architecture, probes.bitFields[f.id].record, OfKind({StructKind, UnionKind}), s) && s.symbolType.Some?
    case FunctionItem(f) => IsBest(inventory, architecture, f.nativeName, OfKind({FunctionKind}), s) && s.function_.Some?
    case VTableItem(t) => IsBest(inventory, architecture, t.interfaceName, OfKind({ComInterface, WinRTInterface}), s) && s.symbolType.Some?
    case ConditionItem(_) => false
  }

  /** What is measured of a record, its size first, then its alignment and the offsets of
      its fields, is known of the symbol, and agrees or does not. */
  ghost predicate RecordCompares(architecture: string, r: RecordResult, k: nat, s: Symbol, agrees: bool) {
    && s.symbolType.Some?
    && var t := s.symbolType.value;
       var layout := Layouts.FindLayout(t.layouts, architecture);
    && IsKind(r.kind, t, s) && layout.Some?
    && (k == 0 ==> agrees == (r.size == layout.value.size))
    && (k == 1 ==> agrees == (r.alignment == layout.value.alignment))
    && (k >= 2 ==> k - 2 < |r.fields| && OffsetCompares(architecture, r.fields[k - 2], t, layout.value, agrees))
  }

  predicate IsKind(kind: string, t: Layouts.Type, s: Symbol) {
    kind == if s.kind.GuidKind? || t.kind.Struct? then "struct" else if t.kind.Union? then "union" else "other"
  }

  ghost predicate OffsetCompares(architecture: string, field: FieldResult, t: Layouts.Type, layout: Layouts.Layout, agrees: bool) {
    var f, answer := Layouts.FindField(t.fields, field.nativeName), Layouts.RecordOffsetsOf(t, layout, architecture);
    f.Some? && answer.Offsets? && f.value.name in answer.byName && agrees == (field.offset == answer.byName[f.value.name])
  }

  predicate ConstantCompares(v: ValueResult, s: Symbol, agrees: bool) {
    s.constant.Some? && v.exact.Some? && s.constant.value.exact.Some? && agrees == (v.exact.value == s.constant.value.exact.value)
  }

  predicate GuidCompares(g: GuidResult, s: Symbol, agrees: bool) {
    s.guid.Some? && agrees == (g.value == s.guid.value)
  }

  /** The bits of a mask are those of the field, in as many bytes. */
  predicate IsMask(mask: seq<bool>, bytes: nat, b: Layouts.BitField) {
    |mask| == bytes * 8 && forall i :: 0 <= i < |mask| ==> (mask[i] <==> b.bitOffset <= i < b.bitOffset + b.bitWidth)
  }

  /** Mask, offset and width, in this order. */
  ghost predicate BitFieldCompares(probes: Probes, f: BitFieldResult, k: nat, s: Symbol, agrees: bool) {
    && f.id in probes.bitFields && s.symbolType.Some?
    && var m := Layouts.FindField(s.symbolType.value.fields, probes.bitFields[f.id].field);
    && m.Some? && m.value.bitField.Some?
    && var b, bytes := m.value.bitField.value, |f.mask| / 8;
    && (k == 0 ==> bytes > 0 && b.bitOffset + b.bitWidth <= bytes * 8 && agrees == IsMask(f.mask, bytes, b))
    && (k == 1 ==> agrees == (f.bitOffset == b.bitOffset))
    && (k == 2 ==> agrees == (f.bitWidth == b.bitWidth))
  }

  /** Type and calling convention, in this order. */
  predicate FunctionCompares(probes: Probes, f: FunctionResult, k: nat, s: Symbol, agrees: bool) {
    && s.function_.Some?
    && var fn := s.function_.value;
    && (k == 0 ==>
          && f.id != "" && f.id in probes.functions
          && var probe := probes.functions[f.id];
          && probe.hasExpectedType && probe.shape.Some? && fn.shape.Some?
          && agrees == (probe.shape.value == fn.shape.value && f.typeCompatible))
    && (k == 1 ==>
          var p, n := Strings.ToLower(Strings.Trim(fn.callingConvention)), Strings.ToLower(Strings.Trim(f.callingConvention));
          agrees == (p == n || (n == "winapi" && (p == "platform" || p == "stdcall"))))
  }

  ghost predicate VTableCompares(t: VTableResult, s: Symbol, agrees: bool) {
    exists i :: 0 <= i < |s.methods| && IsFirstMethod(s.methods, t.methodName, i) && agrees == (t.index == s.methods[i].vtableIndex)
  }

  predicate IsFirstMethod(methods: seq<Method>, name: string, i: nat)
    requires i < |methods|
  {
    methods[i].name == name && forall j :: 0 <= j < i ==> methods[j].name != name
  }

  /** The k-th fact of a measurement is known of the symbol, and agrees or does not. */
  ghost predicate Compares(probes: Probes, architecture: string, item: Item, k: nat, s: Symbol, agrees: bool) {
    match item
    case RecordItem(r) => RecordCompares(architecture, r, k, s, agrees)
    case ValueItem(v) => ConstantCompares(v, s, agrees)
    case GuidItem(g) => GuidCompares(g, s, agrees)
    case BitFieldItem(f) => BitFieldCompares(probes, f, k, s, agrees)
    case FunctionItem(f) => FunctionCompares(probes, f, k, s, agrees)
    case VTableItem(t) => VTableCompares(t, s, agrees)
    case ConditionItem(_) => false
  }

  /** Known and equal, known and different, not known. */
  datatype Verdict = Agrees | Differs | Open

  ghost predicate Judges(probes: Probes, architecture: string, item: Item, k: nat, s: Symbol, v: Verdict) {
    match v
    case Agrees => Compares(probes, architecture, item, k, s, true)
    case Differs => Compares(probes, architecture, item, k, s, false)
    case Open => !Compares(probes, architecture, item, k, s, true) && !Compares(probes, architecture, item, k, s, false)
  }

  // ---- what a mismatch shows ----

  /** What was measured for the k-th fact. */
  ghost predicate MeasuredText(probes: Probes, item: Item, k: nat, text: string) {
    match item
    case RecordItem(r) =>
      text == Decimal.Numeral(if k == 0 then r.size else if k == 1 then r.alignment else if k - 2 < |r.fields| then r.fields[k - 2].offset else 0)
    case ValueItem(v) => text == v.text
    case GuidItem(g) => text == g.value
    case BitFieldItem(f) => text == if k == 0 then BitText(f.mask) else Decimal.Numeral(if k == 1 then f.bitOffset else f.bitWidth)
    case FunctionItem(f) =>
      if k == 1 then text == f.callingConvention
      else f.id in probes.functions && probes.functions[f.id].shape == Some(text)
    case VTableItem(t) => text == Decimal.Numeral(t.index)
    case ConditionItem(_) => false
  }

  /** What the symbol holds for it. */
  ghost predicate HeldText(probes: Probes, architecture: string, item: Item, k: nat, s: Symbol, text: string) {
    match item
    case RecordItem(r) =>
      && s.symbolType.Some?
      && var t := s.symbolType.value;
         var layout := Layouts.FindLayout(t.layouts, architecture);
      && layout.Some?
      && (if k == 0 then text == Decimal.Numeral(layout.value.size)
          else if k == 1 then text == Decimal.Numeral(layout.value.alignment)
          else k - 2 < |r.fields| && HeldOffset(architecture, r.fields[k - 2], t, layout.value, text))
    case ValueItem(v) => s.constant.Some? && text == s.constant.value.text
    case GuidItem(g) => s.guid == Some(text)
    case BitFieldItem(f) =>
      && f.id in probes.bitFields && s.symbolType.Some?
      && var m := Layouts.FindField(s.symbolType.value.fields, probes.bitFields[f.id].field);
      && m.Some? && m.value.bitField.Some?
      && var b, bytes := m.value.bitField.value, |f.mask| / 8;
      && (if k == 0 then exists mask :: IsMask(mask, bytes, b) && text == BitText(mask)
          else text == Decimal.Numeral(if k == 1 then b.bitOffset else b.bitWidth))
    case FunctionItem(f) => s.function_.Some? && (if k == 1 then text == s.function_.value.callingConvention else s.function_.value.shape == Some(text))
    case VTableItem(t) =>
      exists i :: 0 <= i < |s.methods| && IsFirstMethod(s.methods, t.methodName, i) && text == Decimal.Numeral(s.methods[i].vtableIndex)
    case ConditionItem(_) => false
  }

  ghost predicate HeldOffset(architecture: string, field: FieldResult, t: Layouts.Type, layout: Layouts.Layout, text: string) {
    var f, answer := Layouts.FindField(t.fields, field.nativeName), Layouts.RecordOffsetsOf(t, layout, architecture);
    f.Some? && answer.Offsets? && f.value.name in answer.byName && text == Decimal.Numeral(answer.byName[f.value.name])
  }

  predicate IsCode(item: Item, k: nat, code: Code) {
    match item
    case ValueItem(_) => code == ConstantMismatch
    case GuidItem(_) => code == GuidMismatch
    case BitFieldItem(_) => code == if k == 0 then MaskMismatch else ValueMismatch
    case FunctionItem(_) => code == if k == 1 then ConventionMismatch else TypeMismatch
    case _ => code == ValueMismatch
  }

  // ---- one measurement's decisions ----

  /** The decision is about the k-th fact, and is right about it. */
  ghost predicate Decides(probes: Probes, architecture: string, item: Item, k: nat, found: Option<Symbol>, e: Entry) {
    && k < |ItemFacts(item)|
    && match e
       case Touch(_) => false
       case Matched(id, fact) =>
         found.Some? && id == found.value.id && fact == ItemFacts(item)[k] && Judges(probes, architecture, item, k, found.value, Agrees)
       case Mismatched(id, code, fact, expected, actual) =>
         && found.Some? && id == found.value.id && fact == ItemFacts(item)[k] && Judges(probes, architecture, item, k, found.value, Differs)
         && IsCode(item, k, code) && MeasuredText(probes, item, k, expected) && HeldText(probes, architecture, item, k, found.value, actual)
       case Unmatched(owner, fact, _) =>
         && owner == (if found.Some? then Some(found.value.id) else None) && fact == ItemFacts(item)[k]
         && (found.Some? ==> Judges(probes, architecture, item, k, found.value, Open))
  }

  /** A record of another kind than its symbol. */
  ghost predicate IsKindMismatch(item: Item, s: Symbol, m: Mismatch) {
    && item.RecordItem? && s.symbolType.Some? && !IsKind(item.record.kind, s.symbolType.value, s) && IsKind(m.actual, s.symbolType.value, s)
    && m == Mismatch(RecordKindMismatch, s.id, Named(item.record.id, KindPart), item.record.kind, m.actual)
  }

  /** The symbol is mentioned without a fact: looked at, or of another kind. */
  ghost predicate Mentions(item: Item, found: Option<Symbol>, e: Entry) {
    && found.Some?
    && (e == Touch(found.value.id)
        || (e.Mismatched? && IsKindMismatch(item, found.value, Mismatch(e.code, e.symbol, e.fact, e.expected, e.actual))))
  }

  /** Every fact is decided, rightly, and nothing else is. */
  ghost predicate Follows(probes: Probes, architecture: string, item: Item, found: Option<Symbol>, entries: seq<Entry>) {
    && (forall k: nat :: k < |ItemFacts(item)| ==> IsDecided(probes, architecture, item, k, found, entries))
    && (forall p: nat :: p < |entries| ==> IsAbout(probes, architecture, item, found, entries[p]))
    && (found.Some? ==> Touch(found.value.id) in entries)
  }

  ghost predicate IsDecided(probes: Probes, architecture: string, item: Item, k: nat, found: Option<Symbol>, entries: seq<Entry>) {
    exists p: nat :: p < |entries| && Decides(probes, architecture, item, k, found, entries[p])
  }

  ghost predicate IsAbout(probes: Probes, architecture: string, item: Item, found: Option<Symbol>, e: Entry) {
    Mentions(item, found, e) || exists k: nat :: Decides(probes, architecture, item, k, found, e)
  }

  /** Decisions about all facts, in any order, after the symbol is mentioned. */
  lemma FollowsInOrder(probes: Probes, architecture: string, item: Item, found: Option<Symbol>, prefix: seq<Entry>, rest: seq<Entry>, order: seq<nat>)
    requires |order| == |rest| && forall p :: 0 <= p < |rest| ==> Decides(probes, architecture, item, order[p], found, rest[p])
    requires forall k: nat :: k < |ItemFacts(item)| ==> k in order
    requires (forall p :: 0 <= p < |prefix| ==> Mentions(item, found, prefix[p])) && (found.Some? ==> Touch(found.value.id) in prefix)
    ensures Follows(probes, architecture, item, found, prefix + rest)
  {
    hide Decides, Mentions, ItemFacts;
    var entries := prefix + rest;
    forall k: nat | k < |ItemFacts(item)|
      ensures IsDecided(probes, architecture, item, k, found, entries)
    {
      assert k in order;
      var p :| 0 <= p < |order| && order[p] == k;
      assert entries[|prefix| + p] == rest[p];
    }
    forall p: nat | p < |entries|
      ensures IsAbout(probes, architecture, item, found, entries[p])
    {
      if p < |prefix| {
        assert entries[p] == prefix[p];
      } else {
        assert entries[p] == rest[p - |prefix|];
      }
    }
  }

  function Upwards(n: nat): (order: seq<nat>)
    ensures |order| == n && forall i :: 0 <= i < n ==> order[i] == i
  {
    seq(n, i requires 0 <= i < n => i)
  }

  lemma FollowsUpwards(probes: Probes, architecture: string, item: Item, found: Option<Symbol>, prefix: seq<Entry>, rest: seq<Entry>)
    requires |rest| == |ItemFacts(item)| && forall p :: 0 <= p < |rest| ==> Decides(probes, architecture, item, p, found, rest[p])
    requires (forall p :: 0 <= p < |prefix| ==> Mentions(item, found, prefix[p])) && (found.Some? ==> Touch(found.value.id) in prefix)
    ensures Follows(probes, architecture, item, found, prefix + rest)
  {
    hide Decides, Mentions, ItemFacts, Follows;
    var order := Upwards(|rest|);
    forall k: nat | k < |rest|
      ensures k in order
    {
      assert order[k] == k;
    }
    FollowsInOrder(probes, architecture, item, found, prefix, rest, order);
  }

  lemma {:induction false} UnmatchedManyAre(owner: Option<string>, facts: seq<string>, reason: Reason)
    ensures var entries := UnmatchedMany(owner, facts, reason);
      |entries| == |facts| && forall p :: 0 <= p < |facts| ==> entries[p] == Unmatched(owner, facts[p], reason)
  {
    if facts != [] {
      UnmatchedManyAre(owner, facts[..|facts| - 1], reason);
    }
  }

  /** When nothing is known of any fact, all are left unmatched. */
  lemma AllOpenFollows(probes: Probes, architecture: string, item: Item, found: Option<Symbol>, prefix: seq<Entry>, reason: Reason)
    requires found.Some? ==> forall k: nat :: k < |ItemFacts(item)| ==> Judges(probes, architecture, item, k, found.value, Open)
    requires (forall p :: 0 <= p < |prefix| ==> Mentions(item, found, prefix[p])) && (found.Some? ==> Touch(found.value.id) in prefix)
    ensures var owner := if found.Some? then Some(found.value.id) else None;
      Follows(probes, architecture, item, found, prefix + UnmatchedMany(owner, ItemFacts(item), reason))
  {
    var owner := if found.Some? then Some(found.value.id) else None;
    var rest := UnmatchedMany(owner, ItemFacts(item), reason);
    UnmatchedManyAre(owner, ItemFacts(item), reason);
    hide Mentions, ItemFacts, Follows, Judges;
    FollowsUpwards(probes, architecture, item, found, prefix, rest);
  }

  // ---- records ----

  lemma {:induction false} OffsetFactsAre(record: RecordResult, fields: seq<FieldResult>)
    ensures |OffsetFacts(record, fields)| == |fields|
    ensures forall p :: 0 <= p < |fields| ==> OffsetFacts(record, fields)[p] == OffsetFact(record, fields[p])
  {
    hide OffsetFact;
    if fields != [] {
      OffsetFactsAre(record, fields[..|fields| - 1]);
    }
  }

  lemma RecordFactsAre(r: RecordResult)
    ensures |RecordFacts(r)| == |r.fields| + 2 && RecordFacts(r)[0] == Named(r.id, SizePart) && RecordFacts(r)[1] == Named(r.id, AlignmentPart)
    ensures forall p :: 0 <= p < |r.fields| ==> RecordFacts(r)[p + 2] == OffsetFact(r, r.fields[p])
  {
    hide OffsetFact, Named, OffsetFacts;
    OffsetFactsAre(r, r.fields);
  }

  lemma {:induction false} OffsetEntriesAre(symbol: string, t: Layouts.Type, answer: Layouts.Answer, record: RecordResult, fields: seq<FieldResult>)
    ensures |OffsetEntries(symbol, t, answer, record, fields)| == |fields|
    ensures forall p :: 0 <= p < |fields| ==>
      OffsetEntries(symbol, t, answer, record, fields)[p] == OffsetEntry(symbol, t, answer, record, fields[p])
  {
    hide OffsetEntry;
    if fields != [] {
      OffsetEntriesAre(symbol, t, answer, record, fields[..|fields| - 1]);
    }
  }

  lemma KindsAre(kind: string, t: Layouts.Type, s: Symbol)
    ensures IsKind(kind, t, s) <==> kind == if s.kind.GuidKind? then "struct" else KindName(t.kind)
  {
  }

  lemma OffsetDecides(probes: Probes, architecture: string, r: RecordResult, s: Symbol, layout: Layouts.Layout, p: nat)
    requires s.symbolType.Some? && Layouts.FindLayout(s.symbolType.value.layouts, architecture) == Some(layout)
    requires IsKind(r.kind, s.symbolType.value, s) && p < |r.fields|
    ensures var t := s.symbolType.value;
      Decides(probes, architecture, RecordItem(r), p + 2, Some(s), OffsetEntry(s.id, t, Layouts.RecordOffsetsOf(t, layout, architecture), r, r.fields[p]))
  {
    hide Layouts.FindLayout, Layouts.FindField, Layouts.RecordOffsetsOf, IsKind, OffsetFact, RecordFacts;
    RecordFactsAre(r);
  }

  lemma SizeDecides(probes: Probes, architecture: string, r: RecordResult, s: Symbol, layout: Layouts.Layout)
    requires s.symbolType.Some? && Layouts.FindLayout(s.symbolType.value.layouts, architecture) == Some(layout)
    requires IsKind(r.kind, s.symbolType.value, s)
    ensures Decides(probes, architecture, RecordItem(r), 0, Some(s), UintEntry(s.id, Named(r.id, SizePart), r.size, layout.size))
    ensures Decides(probes, architecture, RecordItem(r), 1, Some(s), UintEntry(s.id, Named(r.id, AlignmentPart), r.alignment, layout.alignment))
  {
    hide Layouts.FindLayout, IsKind, Named, RecordFacts, OffsetCompares;
    RecordFactsAre(r);
  }

  lemma RecordFollows(probes: Probes, architecture: string, r: RecordResult, s: Option<Symbol>)
    ensures Follows(probes, architecture, RecordItem(r), if s.Some? && s.value.symbolType.Some? then s else None, RecordEntries(s, architecture, r))
  {
    hide Follows, Layouts.FindLayout, Layouts.RecordOffsetsOf, KindName, IsKind, Named, UnmatchedMany, UintEntry, RecordFacts, OffsetEntry, OffsetCompares,
         OffsetEntries;
    var item := RecordItem(r);
    if s == None || s.value.symbolType == None {
      AllOpenFollows(probes, architecture, item, None, [], NoRecord);
      assert [] + UnmatchedMany(None, RecordFacts(r), NoRecord) == UnmatchedMany(None, RecordFacts(r), NoRecord);
    } else {
      var id, t := s.value.id, s.value.symbolType.value;
      var kind := if s.value.kind.GuidKind? then "struct" else KindName(t.kind);
      var layout := Layouts.FindLayout(t.layouts, architecture);
      KindsAre(r.kind, t, s.value);
      KindsAre(kind, t, s.value);
      if kind != r.kind {
        AllOpenFollows(probes, architecture, item, s, [Touch(id), Mismatched(id, RecordKindMismatch, Named(r.id, KindPart), r.kind, kind)], KindDiffers);
      } else if layout == None {
        AllOpenFollows(probes, architecture, item, s, [Touch(id)], NoLayout);
      } else {
        LaidOutFollows(probes, architecture, r, s.value, layout.value);
      }
    }
  }

  lemma LaidOutFollows(probes: Probes, architecture: string, r: RecordResult, s: Symbol, layout: Layouts.Layout)
    requires s.symbolType.Some? && Layouts.FindLayout(s.symbolType.value.layouts, architecture) == Some(layout)
    requires IsKind(r.kind, s.symbolType.value, s)
    ensures var t := s.symbolType.value;
      Follows(probes, architecture, RecordItem(r), Some(s),
              [Touch(s.id), UintEntry(s.id, Named(r.id, SizePart), r.size, layout.size),
               UintEntry(s.id, Named(r.id, AlignmentPart), r.alignment, layout.alignment)]
              + OffsetEntries(s.id, t, Layouts.RecordOffsetsOf(t, layout, architecture), r, r.fields))
  {
    hide Follows, Layouts.FindLayout, Layouts.RecordOffsetsOf, IsKind, Named, UintEntry, RecordFacts, OffsetEntry, OffsetEntries, Decides;
    var item, t := RecordItem(r), s.symbolType.value;
    var size := UintEntry(s.id, Named(r.id, SizePart), r.size, layout.size);
    var alignment := UintEntry(s.id, Named(r.id, AlignmentPart), r.alignment, layout.alignment);
    var offsets := OffsetEntries(s.id, t, Layouts.RecordOffsetsOf(t, layout, architecture), r, r.fields);
    var rest := [size, alignment] + offsets;
    OffsetEntriesAre(s.id, t, Layouts.RecordOffsetsOf(t, layout, architecture), r, r.fields);
    SizeDecides(probes, architecture, r, s, layout);
    RecordFactsAre(r);
    forall p | 0 <= p < |rest|
      ensures Decides(probes, architecture, item, p, Some(s), rest[p])
    {
      if p >= 2 {
        OffsetDecides(probes, architecture, r, s, layout, p - 2);
      }
    }
    FollowsUpwards(probes, architecture, item, Some(s), [Touch(s.id)], rest);
    assert [Touch(s.id)] + rest == [Touch(s.id), size, alignment] + offsets;
  }

  // ---- the others ----

  lemma OneFollows(probes: Probes, architecture: string, item: Item, s: Symbol, e: Entry)
    requires |ItemFacts(item)| == 1 && Decides(probes, architecture, item, 0, Some(s), e)
    ensures Follows(probes, architecture, item, Some(s), [Touch(s.id), e])
  {
    hide Follows, Decides, ItemFacts;
    FollowsUpwards(probes, architecture, item, Some(s), [Touch(s.id)], [e]);
    assert [Touch(s.id)] + [e] == [Touch(s.id), e];
  }

  lemma NoneFollows(probes: Probes, architecture: string, item: Item, facts: seq<string>, reason: Reason)
    requires facts == ItemFacts(item)
    ensures Follows(probes, architecture, item, None, UnmatchedMany(None, facts, reason))
  {
    hide Follows, ItemFacts;
    AllOpenFollows(probes, architecture, item, None, [], reason);
    assert [] + UnmatchedMany(None, facts, reason) == UnmatchedMany(None, facts, reason);
  }

  lemma UnmatchedOne(owner: Option<string>, fact: string, reason: Reason)
    ensures UnmatchedMany(owner, [fact], reason) == [Unmatched(owner, fact, reason)]
  {
    UnmatchedManyAre(owner, [fact], reason);
  }

  lemma ValueFollows(probes: Probes, architecture: string, v: ValueResult, s: Option<Symbol>)
    ensures Follows(probes, architecture, ValueItem(v), if s.Some? && s.value.constant.Some? then s else None, ValueEntries(s, v))
  {
    hide Follows, Named, UnmatchedMany;
    if s == None || s.value.constant == None {
      NoneFollows(probes, architecture, ValueItem(v), [Named(v.id, ValuePart)], NoConstant);
      UnmatchedOne(None, Named(v.id, ValuePart), NoConstant);
    } else {
      OneFollows(probes, architecture, ValueItem(v), s.value, ValueEntries(s, v)[1]);
    }
  }

  lemma GuidFollows(probes: Probes, architecture: string, g: GuidResult, s: Option<Symbol>)
    ensures Follows(probes, architecture, GuidItem(g), if s.Some? && s.value.guid.Some? then s else None, GuidEntries(s, g))
  {
    hide Follows, Named, UnmatchedMany;
    if s == None || s.value.guid == None {
      NoneFollows(probes, architecture, GuidItem(g), [Named(g.id, ValuePart)], NoGuid);
      UnmatchedOne(None, Named(g.id, ValuePart), NoGuid);
    } else {
      OneFollows(probes, architecture, GuidItem(g), s.value, GuidEntries(s, g)[1]);
    }
  }

  lemma ConditionFollows(probes: Probes, architecture: string, c: ConditionResult)
    ensures Follows(probes, architecture, ConditionItem(c), None, ConditionEntries(c))
  {
    hide Follows, Named, UnmatchedMany;
    NoneFollows(probes, architecture, ConditionItem(c), [Named(c.id, ValuePart)], NoConditionSymbol);
    UnmatchedOne(None, Named(c.id, ValuePart), NoConditionSymbol);
  }

  lemma {:induction false} FirstMethodIsFound(methods: seq<Method>, name: string)
    ensures forall i: nat :: i < |methods| && IsFirstMethod(methods, name, i) ==> FindMethod(methods, name) == Some(methods[i])
    ensures FindMethod(methods, name).Some? ==> exists i: nat :: i < |methods| && IsFirstMethod(methods, name, i)
  {
    if methods != [] {
      if methods[0].name == name {
        assert IsFirstMethod(methods, name, 0);
      } else {
        var rest := methods[1..];
        FirstMethodIsFound(rest, name);
        forall i: nat | i < |rest|
          ensures IsFirstMethod(methods, name, i + 1) <==> IsFirstMethod(rest, name, i)
        {
          assert forall j :: 0 <= j < |rest| ==> rest[j] == methods[j + 1];
        }
        assert forall i: nat :: i < |methods| && IsFirstMethod(methods, name, i) ==> i > 0 && IsFirstMethod(methods, name, (i - 1) + 1);
      }
    }
  }

  lemma VTableFollows(probes: Probes, architecture: string, t: VTableResult, s: Option<Symbol>)
    ensures Follows(probes, architecture, VTableItem(t), if s.Some? && s.value.symbolType.Some? then s else None, VTableEntries(s, t))
  {
    hide Follows, Named, UnmatchedMany, FindMethod, IsFirstMethod;
    if s == None || s.value.symbolType == None {
      NoneFollows(probes, architecture, VTableItem(t), [Named(t.id, IndexPart)], NoInterface);
      UnmatchedOne(None, Named(t.id, IndexPart), NoInterface);
    } else {
      FirstMethodIsFound(s.value.methods, t.methodName);
      OneFollows(probes, architecture, VTableItem(t), s.value, VTableEntries(s, t)[1]);
    }
  }

  lemma TwoFollow(probes: Probes, architecture: string, item: Item, s: Symbol, first: Entry, second: Entry)
    requires |ItemFacts(item)| == 2
    requires Decides(probes, architecture, item, 1, Some(s), first) && Decides(probes, architecture, item, 0, Some(s), second)
    ensures Follows(probes, architecture, item, Some(s), [Touch(s.id), first, second])
  {
    hide Follows, Decides, ItemFacts;
    var order: seq<nat> := [1, 0];
    assert order[0] == 1 && order[1] == 0;
    FollowsInOrder(probes, architecture, item, Some(s), [Touch(s.id)], [first, second], order);
    assert [Touch(s.id)] + [first, second] == [Touch(s.id), first, second];
  }

  lemma FunctionFollows(probes: Probes, architecture: string, f: FunctionResult, s: Option<Symbol>)
    ensures Follows(probes, architecture, FunctionItem(f), if s.Some? && s.value.function_.Some? then s else None,
                    FunctionEntries(ProbeFor(probes.functions, f.id), s, f))
  {
    hide Follows, Named, UnmatchedMany, ConventionsEquivalent, FunctionCompares, Decides;
    var item, probe := FunctionItem(f), ProbeFor(probes.functions, f.id);
    var typed, calling := Named(f.id, TypePart), Named(f.id, ConventionPart);
    if s == None || s.value.function_ == None {
      NoneFollows(probes, architecture, item, [typed, calling], NoFunction);
      UnmatchedManyAre(None, [typed, calling], NoFunction);
      assert UnmatchedMany(None, [typed, calling], NoFunction) == [Unmatched(None, typed, NoFunction), Unmatched(None, calling, NoFunction)];
    } else {
      var entries := FunctionEntries(probe, s, f);
      ConventionDecides(probes, architecture, f, s.value);
      TypeDecides(probes, architecture, f, s.value);
      TwoFollow(probes, architecture, item, s.value, entries[1], entries[2]);
    }
  }

  lemma ConventionDecides(probes: Probes, architecture: string, f: FunctionResult, s: Symbol)
    requires s.function_.Some?
    ensures Decides(probes, architecture, FunctionItem(f), 1, Some(s), FunctionEntries(ProbeFor(probes.functions, f.id), Some(s), f)[1])
  {
    hide Named, Strings.ToLower, Strings.Trim;
  }

  lemma TypeDecides(probes: Probes, architecture: string, f: FunctionResult, s: Symbol)
    requires s.function_.Some?
    ensures Decides(probes, architecture, FunctionItem(f), 0, Some(s), FunctionEntries(ProbeFor(probes.functions, f.id), Some(s), f)[2])
  {
    hide Named, ConventionsEquivalent;
  }

  lemma ThreeFollow(probes: Probes, architecture: string, item: Item, s: Symbol, offset: Entry, width: Entry, mask: Entry)
    requires |ItemFacts(item)| == 3
    requires Decides(probes, architecture, item, 1, Some(s), offset) && Decides(probes, architecture, item, 2, Some(s), width)
    requires Decides(probes, architecture, item, 0, Some(s), mask)
    ensures Follows(probes, architecture, item, Some(s), [Touch(s.id), offset, width, mask])
  {
    hide Follows, Decides, ItemFacts;
    var order: seq<nat> := [1, 2, 0];
    assert order[0] == 1 && order[1] == 2 && order[2] == 0;
    FollowsInOrder(probes, architecture, item, Some(s), [Touch(s.id)], [offset, width, mask], order);
    assert [Touch(s.id)] + [offset, width, mask] == [Touch(s.id), offset, width, mask];
  }

  lemma MaskDecides(probes: Probes, architecture: string, f: BitFieldResult, s: Symbol, b: Layouts.BitField)
    requires f.id in probes.bitFields && s.symbolType.Some?
    requires var m := Layouts.FindField(s.symbolType.value.fields, probes.bitFields[f.id].field); m.Some? && m.value.bitField == Some(b)
    ensures Decides(probes, architecture, BitFieldItem(f), 0, Some(s), MaskEntry(s.id, b, f))
  {
    hide Named, Layouts.FindField, BitText;
    var bytes := |f.mask| / 8;
    var mask := BitMask(b.bitOffset, b.bitWidth, bytes);
    if mask.Some? {
      assert IsMask(mask.value, bytes, b);
      assert IsMask(f.mask, bytes, b) <==> f.mask == mask.value;
    }
  }

  lemma BitsDecide(probes: Probes, architecture: string, f: BitFieldResult, s: Symbol, b: Layouts.BitField)
    requires f.id in probes.bitFields && s.symbolType.Some?
    requires var m := Layouts.FindField(s.symbolType.value.fields, probes.bitFields[f.id].field); m.Some? && m.value.bitField == Some(b)
    ensures Decides(probes, architecture, BitFieldItem(f), 1, Some(s), UintEntry(s.id, Named(f.id, BitOffsetPart), f.bitOffset, b.bitOffset))
    ensures Decides(probes, architecture, BitFieldItem(f), 2, Some(s), UintEntry(s.id, Named(f.id, BitWidthPart), f.bitWidth, b.bitWidth))
  {
    hide Named, Layouts.FindField, IsMask;
  }

  /** The symbol a bit-field is compared with, of those found by the probe's record. */
  function BitFieldSymbol(probe: Option<BitFieldProbe>, s: Option<Symbol>): Option<Symbol> {
    if probe.Some? && probe.value.record != "" && s.Some? && s.value.symbolType.Some? then s else None
  }

  lemma BitFieldFollows(probes: Probes, architecture: string, f: BitFieldResult, s: Option<Symbol>)
    ensures var probe := ProbeFor(probes.bitFields, f.id);
      Follows(probes, architecture, BitFieldItem(f), BitFieldSymbol(probe, s), BitFieldEntries(probe, s, f))
  {
    hide Follows, Named, UnmatchedMany, UintEntry, MaskEntry, Layouts.FindField, Decides, IsMask;
    var item, probe := BitFieldItem(f), ProbeFor(probes.bitFields, f.id);
    if probe == None || probe.value.record == "" {
      NoneFollows(probes, architecture, item, BitFieldFacts(f), NoBitFieldProbe);
    } else if s == None || s.value.symbolType == None {
      NoneFollows(probes, architecture, item, BitFieldFacts(f), NoBitFieldRecord);
    } else {
      var m := Layouts.FindField(s.value.symbolType.value.fields, probe.value.field);
      if m == None || m.value.bitField == None {
        AllOpenFollows(probes, architecture, item, s, [Touch(s.value.id)], NoBitField);
      } else {
        var b := m.value.bitField.value;
        MaskDecides(probes, architecture, f, s.value, b);
        BitsDecide(probes, architecture, f, s.value, b);
        var entries := BitFieldEntries(probe, s, f);
        ThreeFollow(probes, architecture, item, s.value, entries[1], entries[2], entries[3]);
      }
    }
  }

  // ---- all measurements ----

  /** The symbol a measurement looks at, if any. */
  ghost predicate Looks(inventory: seq<Symbol>, probes: Probes, architecture: string, item: Item, found: Option<Symbol>) {
    forall s :: LooksAt(inventory, probes, architecture, item, s) <==> found == Some(s)
  }

  /** Whatever is measured, its decisions follow from the best symbol. */
  lemma ItemFollows(inventory: seq<Symbol>, probes: Probes, architecture: string, item: Item) returns (found: Option<Symbol>)
    ensures Looks(inventory, probes, architecture, item, found)
    ensures Follows(probes, architecture, item, found, ItemEntries(inventory, probes, architecture, item))
  {
    hide IsBest, FindSymbol, RecordEntries, BitFieldEntries, FunctionEntries, ValueEntries, GuidEntries, VTableEntries, ConditionEntries, Follows;
    match item
    case RecordItem(r) =>
      var s := FindSymbol(inventory, architecture, r.nativeName, RECORD_KINDS);
      found := if s.Some? && s.value.symbolType.Some? then s else None;
      AllBest(inventory, architecture, r.nativeName, RECORD_KINDS);
      RecordFollows(probes, architecture, r, s);
    case ValueItem(v) =>
      var s := FindSymbol(inventory, architecture, v.nativeName, OfKind({ConstantKind}));
      found := if s.Some? && s.value.constant.Some? then s else None;
      AllBest(inventory, architecture, v.nativeName, OfKind({ConstantKind}));
      ValueFollows(probes, architecture, v, s);
    case GuidItem(g) =>
      var s := FindSymbol(inventory, architecture, g.nativeName, WithGuid);
      found := if s.Some? && s.value.guid.Some? then s else None;
      AllBest(inventory, architecture, g.nativeName, WithGuid);
      GuidFollows(probes, architecture, g, s);
    case BitFieldItem(f) =>
      var probe := ProbeFor(probes.bitFields, f.id);
      var record := if probe == None then "" else probe.value.record;
      var s := if probe == None then None else FindSymbol(inventory, architecture, record, OfKind({StructKind, UnionKind}));
      found := BitFieldSymbol(probe, s);
      AllBest(inventory, architecture, record, OfKind({StructKind, UnionKind}));
      BitFieldFollows(probes, architecture, f, s);
    case FunctionItem(f) =>
      var s := FindSymbol(inventory, architecture, f.nativeName, OfKind({FunctionKind}));
      found := if s.Some? && s.value.function_.Some? then s else None;
      AllBest(inventory, architecture, f.nativeName, OfKind({FunctionKind}));
      FunctionFollows(probes, architecture, f, s);
    case VTableItem(t) =>
      var s := FindSymbol(inventory, architecture, t.interfaceName, INTERFACE_KINDS);
      found := if s.Some? && s.value.symbolType.Some? then s else None;
      AllBest(inventory, architecture, t.interfaceName, INTERFACE_KINDS);
      VTableFollows(probes, architecture, t, s);
    case ConditionItem(c) =>
      found := None;
      ConditionFollows(probes, architecture, c);
  }

  lemma AllBest(inventory: seq<Symbol>, architecture: string, nativeName: string, want: Want)
    ensures forall s :: IsBest(inventory, architecture, nativeName, want, s) <==> FindSymbol(inventory, architecture, nativeName, want) == Some(s)
  {
    forall s
      ensures IsBest(inventory, architecture, nativeName, want, s) <==> FindSymbol(inventory, architecture, nativeName, want) == Some(s)
    {
      BestIsFound(inventory, architecture, nativeName, want, s);
    }
  }

  // ---- what is filed ----

  function ListOf(r: SymbolResult, v: Verdict): seq<string> {
    match v
    case Agrees => r.matched
    case Differs => r.mismatched
    case Open => r.unmatched
  }

  /** The decision files the fact under the symbol, with this verdict. */
  predicate Files(e: Entry, symbol: string, fact: string, v: Verdict) {
    match v
    case Agrees => e == Matched(symbol, fact)
    case Differs => e.Mismatched? && e.symbol == symbol && e.fact == fact && !IsKindFact(fact)
    case Open => e.Unmatched? && e.owner == Some(symbol) && e.fact == fact
  }

  ghost predicate IsFiled(log: seq<Entry>, symbol: string, fact: string, v: Verdict) {
    exists p: nat :: p < |log| && Files(log[p], symbol, fact, v)
  }

  ghost predicate IsNamed(log: seq<Entry>, symbol: string) {
    exists p: nat :: p < |log| && Owner(log[p]) == Some(symbol)
  }

  lemma FilesOneMore(t: Tally, e: Entry, symbol: string, fact: string, v: Verdict)
    ensures fact in ListOf(File(t, e).Of(symbol), v) <==> fact in ListOf(t.Of(symbol), v) || Files(e, symbol, fact, v)
    ensures symbol in File(t, e).symbols <==> symbol in t.symbols || Owner(e) == Some(symbol)
  {
    hide IsKindFact;
  }

  lemma LogOneMore(log: seq<Entry>, symbol: string, fact: string, v: Verdict)
    requires log != []
    ensures var n := |log| - 1;
      && (IsFiled(log, symbol, fact, v) <==> IsFiled(log[..n], symbol, fact, v) || Files(log[n], symbol, fact, v))
      && (IsNamed(log, symbol) <==> IsNamed(log[..n], symbol) || Owner(log[n]) == Some(symbol))
  {
    hide Files, Owner;
    var n := |log| - 1;
    if p: nat :| p < n && Files(log[..n][p], symbol, fact, v) {
      assert Files(log[p], symbol, fact, v);
    }
    if p: nat :| p < |log| && Files(log[p], symbol, fact, v) {
      assert p < n ==> Files(log[..n][p], symbol, fact, v);
    }
    if p: nat :| p < n && Owner(log[..n][p]) == Some(symbol) {
      assert Owner(log[p]) == Some(symbol);
    }
    if p: nat :| p < |log| && Owner(log[p]) == Some(symbol) {
      assert p < n ==> Owner(log[..n][p]) == Some(symbol);
    }
  }

  /** A symbol's lists hold what was filed, and a symbol is there when it was named. */
  lemma {:induction false} ListsHoldTheFiled(log: seq<Entry>, symbol: string, fact: string, v: Verdict)
    ensures fact in ListOf(FileAll(log).Of(symbol), v) <==> IsFiled(log, symbol, fact, v)
    ensures symbol in FileAll(log).symbols <==> IsNamed(log, symbol)
  {
    hide Files, Owner, File, ListOf, IsFiled, IsNamed;
    if log == [] {
      NothingIsFiled(symbol, fact, v);
    } else {
      var n := |log| - 1;
      ListsHoldTheFiled(log[..n], symbol, fact, v);
      FilesOneMore(FileAll(log[..n]), log[n], symbol, fact, v);
      LogOneMore(log, symbol, fact, v);
    }
  }

  lemma NothingIsFiled(symbol: string, fact: string, v: Verdict)
    ensures fact !in ListOf(FileAll([]).Of(symbol), v) && symbol !in FileAll([]).symbols
    ensures !IsFiled([], symbol, fact, v) && !IsNamed([], symbol)
  {
  }

  // ---- what must be shown ----

  /** Of some measurement compared with a symbol of this ID, this is a fact, and this the
      verdict on it. */
  ghost predicate Tells(inventory: seq<Symbol>, probes: Probes, architecture: string, items: seq<Item>, symbol: string, fact: string, v: Verdict) {
    exists i: nat, k: nat, s :: i < |items| && TellsAt(inventory, probes, architecture, items[i], k, s, symbol, fact, v)
  }

  ghost predicate TellsAt(inventory: seq<Symbol>, probes: Probes, architecture: string, item: Item, k: nat, s: Symbol, symbol: string, fact: string,
                          v: Verdict) {
    && LooksAt(inventory, probes, architecture, item, s) && s.id == symbol
    && k < |ItemFacts(item)| && ItemFacts(item)[k] == fact && Judges(probes, architecture, item, k, s, v)
  }

  /** Some measurement is compared with a symbol of this ID. */
  ghost predicate IsLookedAt(inventory: seq<Symbol>, probes: Probes, architecture: string, items: seq<Item>, symbol: string) {
    exists i: nat, s :: i < |items| && LooksAt(inventory, probes, architecture, items[i], s) && s.id == symbol
  }

  lemma {:induction false} NoKindFacts(item: Item, k: nat)
    requires k < |ItemFacts(item)|
    ensures !IsKindFact(ItemFacts(item)[k])
  {
    hide Named, IsKindFact, RecordFacts;
    match item
    case RecordItem(r) =>
      RecordFactsAre(r);
      CountedParts(r.id, SizePart);
      CountedParts(r.id, AlignmentPart);
      if k >= 2 {
        CountedParts(r.id + ".field." + r.fields[k - 2].id, OffsetPart);
      }
    case ValueItem(v) => CountedParts(v.id, ValuePart);
    case GuidItem(g) => CountedParts(g.id, ValuePart);
    case BitFieldItem(f) =>
      CountedParts(f.id, MaskPart);
      CountedParts(f.id, BitOffsetPart);
      CountedParts(f.id, BitWidthPart);
    case FunctionItem(f) =>
      CountedParts(f.id, TypePart);
      CountedParts(f.id, ConventionPart);
    case VTableItem(t) => CountedParts(t.id, IndexPart);
    case ConditionItem(c) => CountedParts(c.id, ValuePart);
  }

  lemma KindIsMentioned(item: Item, found: Option<Symbol>, e: Entry, symbol: string, fact: string, v: Verdict)
    requires Mentions(item, found, e)
    ensures found.Some? && !Files(e, symbol, fact, v) && Owner(e) == Some(found.value.id)
  {
    if item.RecordItem? {
      CountedParts(item.record.id, KindPart);
    }
    hide IsKindFact, Named;
  }

  lemma DecisionFiles(inventory: seq<Symbol>, probes: Probes, architecture: string, item: Item, found: Option<Symbol>, k: nat, e: Entry,
                      symbol: string, fact: string, v: Verdict)
    requires Looks(inventory, probes, architecture, item, found) && Decides(probes, architecture, item, k, found, e)
    ensures Files(e, symbol, fact, v) <==> found.Some? && TellsAt(inventory, probes, architecture, item, k, found.value, symbol, fact, v)
    ensures Owner(e) == if found.Some? then Some(found.value.id) else None
  {
    NoKindFacts(item, k);
    JudgedOnce(probes, architecture, item, k, found);
    hide LooksAt, Compares, ItemFacts, IsKindFact;
  }

  /** No two verdicts on one fact of one symbol. */
  lemma JudgedOnce(probes: Probes, architecture: string, item: Item, k: nat, found: Option<Symbol>)
    ensures found.Some? && k < |ItemFacts(item)| ==>
      !(Compares(probes, architecture, item, k, found.value, true) && Compares(probes, architecture, item, k, found.value, false))
  {
    hide Layouts.FindLayout, Layouts.FindField, Layouts.RecordOffsetsOf, IsKind, IsMask, Strings.ToLower, Strings.Trim, Named;
    if item.RecordItem? {
      RecordFactsAre(item.record);
      hide RecordFacts;
    }
  }

  /** One measurement files what it tells, and names the symbol it is compared with. */
  lemma ItemTells(inventory: seq<Symbol>, probes: Probes, architecture: string, item: Item, symbol: string, fact: string, v: Verdict)
    ensures IsFiled(ItemEntries(inventory, probes, architecture, item), symbol, fact, v)
      <==> exists k: nat, s :: TellsAt(inventory, probes, architecture, item, k, s, symbol, fact, v)
    ensures IsNamed(ItemEntries(inventory, probes, architecture, item), symbol)
      <==> exists s :: LooksAt(inventory, probes, architecture, item, s) && s.id == symbol
  {
    var found := ItemFollows(inventory, probes, architecture, item);
    var entries := ItemEntries(inventory, probes, architecture, item);
    hide ItemEntries, LooksAt, Judges, ItemFacts, Files, Owner, Decides, Mentions;
    if p: nat :| p < |entries| && Files(entries[p], symbol, fact, v) {
      assert IsAbout(probes, architecture, item, found, entries[p]);
      if Mentions(item, found, entries[p]) {
        KindIsMentioned(item, found, entries[p], symbol, fact, v);
      } else {
        var k: nat :| Decides(probes, architecture, item, k, found, entries[p]);
        DecisionFiles(inventory, probes, architecture, item, found, k, entries[p], symbol, fact, v);
      }
    }
    if k: nat, s :| TellsAt(inventory, probes, architecture, item, k, s, symbol, fact, v) {
      assert found == Some(s);
      assert IsDecided(probes, architecture, item, k, found, entries);
      var p: nat :| p < |entries| && Decides(probes, architecture, item, k, found, entries[p]);
      DecisionFiles(inventory, probes, architecture, item, found, k, entries[p], symbol, fact, v);
    }
    ItemNames(inventory, probes, architecture, item, found, symbol);
  }

  lemma ItemNames(inventory: seq<Symbol>, probes: Probes, architecture: string, item: Item, found: Option<Symbol>, symbol: string)
    requires Looks(inventory, probes, architecture, item, found)
    requires Follows(probes, architecture, item, found, ItemEntries(inventory, probes, architecture, item))
    ensures IsNamed(ItemEntries(inventory, probes, architecture, item), symbol)
      <==> exists s :: LooksAt(inventory, probes, architecture, item, s) && s.id == symbol
  {
    var entries := ItemEntries(inventory, probes, architecture, item);
    hide ItemEntries, LooksAt, Judges, ItemFacts, Decides, Mentions;
    if p: nat :| p < |entries| && Owner(entries[p]) == Some(symbol) {
      assert IsAbout(probes, architecture, item, found, entries[p]);
      if Mentions(item, found, entries[p]) {
        KindIsMentioned(item, found, entries[p], symbol, "", Agrees);
      } else {
        var k: nat :| Decides(probes, architecture, item, k, found, entries[p]);
        DecisionFiles(inventory, probes, architecture, item, found, k, entries[p], symbol, "", Agrees);
      }
      assert LooksAt(inventory, probes, architecture, item, found.value);
    }
    if s :| LooksAt(inventory, probes, architecture, item, s) && s.id == symbol {
      assert found == Some(s);
      assert Touch(symbol) in entries;
      var p: nat :| p < |entries| && entries[p] == Touch(symbol);
      assert Owner(entries[p]) == Some(symbol);
    }
  }

  lemma FiledInEither(a: seq<Entry>, b: seq<Entry>, symbol: string, fact: string, v: Verdict)
    ensures IsFiled(a + b, symbol, fact, v) <==> IsFiled(a, symbol, fact, v) || IsFiled(b, symbol, fact, v)
    ensures IsNamed(a + b, symbol) <==> IsNamed(a, symbol) || IsNamed(b, symbol)
  {
    hide Files, Owner;
    forall p: nat | p < |a + b|
      ensures (a + b)[p] == if p < |a| then a[p] else b[p - |a|]
    {
    }
    forall p: nat | p < |b|
      ensures (a + b)[|a| + p] == b[p]
    {
    }
  }

  lemma TellsOneMore(inventory: seq<Symbol>, probes: Probes, architecture: string, items: seq<Item>, symbol: string, fact: string, v: Verdict)
    requires items != []
    ensures var n := |items| - 1;
      && (Tells(inventory, probes, architecture, items, symbol, fact, v) <==>
            || Tells(inventory, probes, architecture, items[..n], symbol, fact, v)
            || exists k: nat, s :: TellsAt(inventory, probes, architecture, items[n], k, s, symbol, fact, v))
      && (IsLookedAt(inventory, probes, architecture, items, symbol) <==>
            || IsLookedAt(inventory, probes, architecture, items[..n], symbol)
            || exists s :: LooksAt(inventory, probes, architecture, items[n], s) && s.id == symbol)
  {
    hide TellsAt, LooksAt;
    var n := |items| - 1;
    if i: nat, k: nat, s :| i < |items| && TellsAt(inventory, probes, architecture, items[i], k, s, symbol, fact, v) {
      assert i < n ==> TellsAt(inventory, probes, architecture, items[..n][i], k, s, symbol, fact, v);
    }
    if i: nat, k: nat, s :| i < n && TellsAt(inventory, probes, architecture, items[..n][i], k, s, symbol, fact, v) {
      assert TellsAt(inventory, probes, architecture, items[i], k, s, symbol, fact, v);
    }
    if i: nat, s :| i < |items| && LooksAt(inventory, probes, architecture, items[i], s) && s.id == symbol {
      assert i < n ==> LooksAt(inventory, probes, architecture, items[..n][i], s);
    }
    if i: nat, s :| i < n && LooksAt(inventory, probes, architecture, items[..n][i], s) && s.id == symbol {
      assert LooksAt(inventory, probes, architecture, items[i], s);
    }
  }

  /** What is filed is what the measurements tell. */
  lemma {:induction false} AllTell(inventory: seq<Symbol>, probes: Probes, architecture: string, items: seq<Item>, symbol: string, fact: string, v: Verdict)
    ensures IsFiled(AllEntries(inventory, probes, architecture, items), symbol, fact, v) <==> Tells(inventory, probes, architecture, items, symbol, fact, v)
    ensures IsNamed(AllEntries(inventory, probes, architecture, items), symbol) <==> IsLookedAt(inventory, probes, architecture, items, symbol)
  {
    hide ItemEntries, IsFiled, IsNamed, Tells, IsLookedAt, TellsAt, LooksAt;
    if items == [] {
      NothingIsTold(inventory, probes, architecture, symbol, fact, v);
    } else {
      var n := |items| - 1;
      AllTell(inventory, probes, architecture, items[..n], symbol, fact, v);
      ItemTells(inventory, probes, architecture, items[n], symbol, fact, v);
      FiledInEither(AllEntries(inventory, probes, architecture, items[..n]), ItemEntries(inventory, probes, architecture, items[n]), symbol, fact, v);
      TellsOneMore(inventory, probes, architecture, items, symbol, fact, v);
    }
  }

  lemma NothingIsTold(inventory: seq<Symbol>, probes: Probes, architecture: string, symbol: string, fact: string, v: Verdict)
    ensures !IsFiled([], symbol, fact, v) && !IsNamed([], symbol)
    ensures !Tells(inventory, probes, architecture, [], symbol, fact, v) && !IsLookedAt(inventory, probes, architecture, [], symbol)
  {
  }

  /** A symbol's lists hold exactly the facts that agree, differ and are open. */
  lemma ListsTellTheTruth(inventory: seq<Symbol>, probes: Probes, architecture: string, items: seq<Item>, symbol: string, fact: string, v: Verdict)
    ensures var t := FileAll(AllEntries(inventory, probes, architecture, items));
      && (fact in ListOf(t.Of(symbol), v) <==> Tells(inventory, probes, architecture, items, symbol, fact, v))
      && (symbol in t.symbols <==> IsLookedAt(inventory, probes, architecture, items, symbol))
  {
    hide FileAll, AllEntries, Tells, IsLookedAt, IsFiled, IsNamed, ListOf;
    AllTell(inventory, probes, architecture, items, symbol, fact, v);
    ListsHoldTheFiled(AllEntries(inventory, probes, architecture, items), symbol, fact, v);
  }

  // ---- the mismatches shown ----

  /** m shows a fact that differs, with what was measured and what the symbol holds. */
  ghost predicate ShowsAt(inventory: seq<Symbol>, probes: Probes, architecture: string, item: Item, k: nat, s: Symbol, m: Mismatch) {
    && TellsAt(inventory, probes, architecture, item, k, s, m.symbol, m.fact, Differs) && IsCode(item, k, m.code)
    && MeasuredText(probes, item, k, m.expected) && HeldText(probes, architecture, item, k, s, m.actual)
  }

  ghost predicate Shows(inventory: seq<Symbol>, probes: Probes, architecture: string, item: Item, m: Mismatch) {
    || (exists s :: LooksAt(inventory, probes, architecture, item, s) && IsKindMismatch(item, s, m))
    || exists k: nat, s :: ShowsAt(inventory, probes, architecture, item, k, s, m)
  }

  ghost predicate AllShow(inventory: seq<Symbol>, probes: Probes, architecture: string, items: seq<Item>, m: Mismatch) {
    exists i: nat :: i < |items| && Shows(inventory, probes, architecture, items[i], m)
  }

  lemma ItemShows(inventory: seq<Symbol>, probes: Probes, architecture: string, item: Item, e: Entry)
    requires e in ItemEntries(inventory, probes, architecture, item) && e.Mismatched?
    ensures Shows(inventory, probes, architecture, item, Mismatch(e.code, e.symbol, e.fact, e.expected, e.actual))
  {
    var found := ItemFollows(inventory, probes, architecture, item);
    var entries := ItemEntries(inventory, probes, architecture, item);
    hide ItemEntries, LooksAt, Judges, ItemFacts, IsKindMismatch, MeasuredText, HeldText, IsCode;
    var p: nat :| p < |entries| && entries[p] == e;
    assert IsAbout(probes, architecture, item, found, e);
    assert found.Some? ==> LooksAt(inventory, probes, architecture, item, found.value);
    if !Mentions(item, found, e) {
      var k: nat :| Decides(probes, architecture, item, k, found, e);
      assert ShowsAt(inventory, probes, architecture, item, k, found.value, Mismatch(e.code, e.symbol, e.fact, e.expected, e.actual));
    }
  }

  lemma {:induction false} EntryOfItem(inventory: seq<Symbol>, probes: Probes, architecture: string, items: seq<Item>, e: Entry) returns (i: nat)
    requires e in AllEntries(inventory, probes, architecture, items)
    ensures i < |items| && e in ItemEntries(inventory, probes, architecture, items[i])
  {
    hide ItemEntries;
    var n := |items| - 1;
    if e in ItemEntries(inventory, probes, architecture, items[n]) {
      i := n;
    } else {
      i := EntryOfItem(inventory, probes, architecture, items[..n], e);
    }
  }

  lemma {:induction false} MismatchOfEntry(log: seq<Entry>, m: Mismatch)
    requires m in MismatchesIn(log)
    ensures Mismatched(m.symbol, m.code, m.fact, m.expected, m.actual) in log
  {
    var n := |log| - 1;
    if m in MismatchesIn(log[..n]) {
      MismatchOfEntry(log[..n], m);
    }
  }

  /** Every mismatch shown is one. */
  lemma MismatchesShowTheTruth(inventory: seq<Symbol>, probes: Probes, architecture: string, items: seq<Item>, m: Mismatch)
    requires m in MismatchesIn(AllEntries(inventory, probes, architecture, items))
    ensures AllShow(inventory, probes, architecture, items, m)
  {
    hide ItemEntries, AllEntries, Shows, MismatchesIn;
    var log, e := AllEntries(inventory, probes, architecture, items), Mismatched(m.symbol, m.code, m.fact, m.expected, m.actual);
    MismatchOfEntry(log, m);
    var i := EntryOfItem(inventory, probes, architecture, items, e);
    ItemShows(inventory, probes, architecture, items[i], e);
  }

  // ---- names ----

  /** The names of facts. */
  lemma FactNames(id: string)
    ensures Named(id, SizePart) == id + "." + "size" && Named(id, AlignmentPart) == id + "." + "alignment"
    ensures Named(id, OffsetPart) == id + "." + "offset" && Named(id, ValuePart) == id + "." + "value"
    ensures Named(id, MaskPart) == id + "." + "maskHex" && Named(id, BitOffsetPart) == id + "." + "bitOffset"
    ensures Named(id, BitWidthPart) == id + "." + "bitWidth" && Named(id, TypePart) == id + "." + "typeCompatible"
    ensures Named(id, ConventionPart) == id + "." + "callingConvention" && Named(id, IndexPart) == id + "." + "index"
    ensures Named(id, KindPart) == id + "." + "kind"
  {
  }

  /** Which facts a measurement holds, in the order in which verdicts count them. */
  lemma FactsOf(item: Item)
    ensures match item
      case RecordItem(r) =>
        && |ItemFacts(item)| == 2 + |r.fields| && ItemFacts(item)[0] == Named(r.id, SizePart) && ItemFacts(item)[1] == Named(r.id, AlignmentPart)
        && forall k :: 2 <= k < |ItemFacts(item)| ==> ItemFacts(item)[k] == Named(r.id + ".field." + r.fields[k - 2].id, OffsetPart)
      case ValueItem(v) => ItemFacts(item) == [Named(v.id, ValuePart)]
      case GuidItem(g) => ItemFacts(item) == [Named(g.id, ValuePart)]
      case BitFieldItem(f) => ItemFacts(item) == [Named(f.id, MaskPart), Named(f.id, BitOffsetPart), Named(f.id, BitWidthPart)]
      case FunctionItem(f) => ItemFacts(item) == [Named(f.id, TypePart), Named(f.id, ConventionPart)]
      case VTableItem(t) => ItemFacts(item) == [Named(t.id, IndexPart)]
      case ConditionItem(c) => ItemFacts(item) == [Named(c.id, ValuePart)]
  {
    hide Named;
    if item.RecordItem? {
      RecordFactsAre(item.record);
      hide RecordFacts;
      var r := item.record;
      forall k | 2 <= k < |ItemFacts(item)|
        ensures ItemFacts(item)[k] == Named(r.id + ".field." + r.fields[k - 2].id, OffsetPart)
      {
        assert ItemFacts(item)[(k - 2) + 2] == OffsetFact(r, r.fields[k - 2]);
      }
    }
  }

  /** Every measurement is compared, and nothing else. */
  lemma ItemsAre(o: OracleResult, item: Item)
    ensures item in Items(o) <==>
      match item
      case RecordItem(r) => r in o.records
      case ValueItem(v) => v in o.values
      case GuidItem(g) => g in o.guids
      case BitFieldItem(f) => f in o.bitFields
      case FunctionItem(f) => f in o.functions
      case VTableItem(t) => t in o.vtables
      case ConditionItem(c) => c in o.conditions
  {
    ItemsInParts(o, item);
    hide Items, RecordItems, ValueItems, GuidItems, BitFieldItems, FunctionItems, VTableItems, ConditionItems;
  }

  lemma ItemsInParts(o: OracleResult, item: Item)
    ensures item in Items(o) <==>
      || item in RecordItems(o.records) || item in ValueItems(o.values) || item in GuidItems(o.guids) || item in BitFieldItems(o.bitFields)
      || item in FunctionItems(o.functions) || item in VTableItems(o.vtables) || item in ConditionItems(o.conditions)
    ensures item in RecordItems(o.records) <==> item.RecordItem? && item.record in o.records
    ensures item in ValueItems(o.values) <==> item.ValueItem? && item.value in o.values
    ensures item in GuidItems(o.guids) <==> item.GuidItem? && item.guid in o.guids
    ensures item in BitFieldItems(o.bitFields) <==> item.BitFieldItem? && item.bitField in o.bitFields
    ensures item in FunctionItems(o.functions) <==> item.FunctionItem? && item.function_ in o.functions
    ensures item in VTableItems(o.vtables) <==> item.VTableItem? && item.vtable in o.vtables
    ensures item in ConditionItems(o.conditions) <==> item.ConditionItem? && item.condition in o.conditions
  {
    InItems(o.records, RecordItems(o.records), r => RecordItem(r), item);
    InItems(o.values, ValueItems(o.values), r => ValueItem(r), item);
    InItems(o.guids, GuidItems(o.guids), r => GuidItem(r), item);
    InItems(o.bitFields, BitFieldItems(o.bitFields), r => BitFieldItem(r), item);
    InItems(o.functions, FunctionItems(o.functions), r => FunctionItem(r), item);
    InItems(o.vtables, VTableItems(o.vtables), r => VTableItem(r), item);
    InItems(o.conditions, ConditionItems(o.conditions), r => ConditionItem(r), item);
  }

  lemma InItems<T(!new)>(results: seq<T>, items: seq<Item>, make: T -> Item, item: Item)
    requires |items| == |results| && forall i :: 0 <= i < |results| ==> items[i] == make(results[i])
    ensures item in items <==> exists r :: r in results && item == make(r)
  {
    if r :| r in results && item == make(r) {
      var i :| 0 <= i < |results| && results[i] == r;
      assert items[i] == item;
    }
  }
}
