/** The comparison of measured ABI facts with the inventory: every fact is filed
    exactly once, as matched, unmatched or mismatched.
 */
module AbiCompare {
  import opened Options
  import opened Decimal
  import Strings
  import Layouts = RecordLayout

  // ---- what is compared ----

  datatype FieldResult = FieldResult(id: string, nativeName: string, offset: nat)
  datatype RecordResult = RecordResult(id: string, nativeName: string, kind: string, size: nat, alignment: nat, fields: seq<FieldResult>)
  /** The integer is the one the decimal text denotes, if it denotes one. */
  datatype ValueResult = ValueResult(id: string, nativeName: string, text: string, exact: Option<int>)
  datatype GuidResult = GuidResult(id: string, nativeName: string, value: string)
  /** The mask as its bits, the lowest of each byte first. */
  datatype BitFieldResult = BitFieldResult(id: string, nativeName: string, mask: seq<bool>, bitOffset: nat, bitWidth: nat)
  datatype FunctionResult = FunctionResult(id: string, nativeName: string, callingConvention: string, typeCompatible: bool)
  datatype VTableResult = VTableResult(id: string, interfaceName: string, methodName: string, index: nat)
  datatype ConditionResult = ConditionResult(id: string)

  datatype OracleResult = OracleResult(
    architecture: string, records: seq<RecordResult>, values: seq<ValueResult>, guids: seq<GuidResult>,
    bitFields: seq<BitFieldResult>, functions: seq<FunctionResult>, vtables: seq<VTableResult>, conditions: seq<ConditionResult>)

  /** A reviewed declaration; the shape is that of its expected type, if it can be
      read. */
  datatype FunctionProbe = FunctionProbe(hasExpectedType: bool, shape: Option<string>)
  datatype BitFieldProbe = BitFieldProbe(record: string, field: string)

  datatype SymbolKind = StructKind | UnionKind | GuidKind | ConstantKind | FunctionKind | ComInterface | WinRTInterface | OtherSymbol

  datatype Method = Method(name: string, vtableIndex: nat)
  datatype Constant = Constant(text: string, exact: Option<int>)
  datatype Function = Function(callingConvention: string, shape: Option<string>)

  datatype Symbol = Symbol(
    id: string, nativeName: string, kind: SymbolKind, architecture: string, symbolType: Option<Layouts.Type>, methods: seq<Method>,
    constant: Option<Constant>, guid: Option<string>, function_: Option<Function>)

  // ---- finding a symbol ----

  /** The target's own architecture is best, any architecture will do. */
  function Score(symbol: string, target: string): int {
    if symbol == target then 2 else if symbol == "neutral" || symbol == "all" then 1 else -1
  }

  /** A symbol of one of these kinds, or one that has a GUID value. */
  datatype Want = OfKind(kinds: set<SymbolKind>) | WithGuid

  predicate Wanted(s: Symbol, want: Want) {
    match want
    case OfKind(kinds) => s.kind in kinds
    case WithGuid => s.guid.Some?
  }

  predicate Candidate(s: Symbol, architecture: string, nativeName: string, want: Want) {
    s.nativeName == nativeName && Wanted(s, want) && Score(s.architecture, architecture) >= 0
  }

  /** a is preferred to b: a higher score, or the same and a lower ID. */
  predicate Better(a: Symbol, b: Symbol, architecture: string) {
    var x, y := Score(a.architecture, architecture), Score(b.architecture, architecture);
    x > y || (x == y && Strings.Less(a.id, b.id))
  }

  /** The candidate preferred so far, then the next one if it is better. */
  function FindSymbol(inventory: seq<Symbol>, architecture: string, nativeName: string, want: Want): Option<Symbol> {
    if inventory == [] then None
    else
      var best, s := FindSymbol(inventory[..|inventory| - 1], architecture, nativeName, want), inventory[|inventory| - 1];
      if Candidate(s, architecture, nativeName, want) && (best == None || Better(s, best.value, architecture)) then Some(s) else best
  }

  /** A symbol is found whenever there is a candidate, and none is better. */
  lemma {:induction false} FindSymbolIsBest(inventory: seq<Symbol>, architecture: string, nativeName: string, want: Want)
    ensures var r := FindSymbol(inventory, architecture, nativeName, want);
      && (r.Some? ==> r.value in inventory && Candidate(r.value, architecture, nativeName, want))
      && (forall s :: s in inventory && Candidate(s, architecture, nativeName, want) ==> r.Some? && !Better(s, r.value, architecture))
  {
    if inventory != [] {
      var before, s := inventory[..|inventory| - 1], inventory[|inventory| - 1];
      FindSymbolIsBest(before, architecture, nativeName, want);
      var best, r := FindSymbol(before, architecture, nativeName, want), FindSymbol(inventory, architecture, nativeName, want);
      forall x | x in inventory && Candidate(x, architecture, nativeName, want)
        ensures r.Some? && !Better(x, r.value, architecture)
      {
        if r.Some? {
          if x == s {
            Strings.CompareIsAntisymmetric(s.id, s.id);
          } else if best.Some? && r.value == s {
            Strings.CompareIsAntisymmetric(x.id, s.id);
            Strings.CompareIsAntisymmetric(s.id, best.value.id);
            if Strings.Compare(x.id, s.id) <= 0 && Strings.Compare(s.id, best.value.id) <= 0 {
              Strings.CompareIsTransitive(x.id, s.id, best.value.id);
            }
          }
        }
      }
    }
  }

  method SearchSymbol(inventory: seq<Symbol>, architecture: string, nativeName: string, want: Want) returns (r: Option<Symbol>)
    ensures r == FindSymbol(inventory, architecture, nativeName, want)
  {
    r := None;
    for i := 0 to |inventory|
      invariant r == FindSymbol(inventory[..i], architecture, nativeName, want)
    {
      assert inventory[..i + 1][..i] == inventory[..i];
      var s := inventory[i];
      if s.nativeName == nativeName && Wanted(s, want) && Score(s.architecture, architecture) >= 0 {
        if r == None || Better(s, r.value, architecture) {
          r := Some(s);
        }
      }
    }
    assert inventory[..|inventory|] == inventory;
  }

  // ---- decisions ----

  datatype Part =
    | SizePart | AlignmentPart | OffsetPart | ValuePart | MaskPart | BitOffsetPart | BitWidthPart
    | TypePart | ConventionPart | IndexPart | KindPart

  function PartName(part: Part): string {
    match part
    case SizePart => "size"
    case AlignmentPart => "alignment"
    case OffsetPart => "offset"
    case ValuePart => "value"
    case MaskPart => "maskHex"
    case BitOffsetPart => "bitOffset"
    case BitWidthPart => "bitWidth"
    case TypePart => "typeCompatible"
    case ConventionPart => "callingConvention"
    case IndexPart => "index"
    case KindPart => "kind"
  }

  /** The fact ID of a part of what was measured. */
  function Named(id: string, part: Part): string {
    id + "." + PartName(part)
  }

  datatype Reason =
    | NoRecord | KindDiffers | NoLayout | NoField | OffsetNotKnown | NoConstant | NotExact | NoGuid | NoBitFieldProbe
    | NoBitFieldRecord | NoBitField | MaskTooWide | NoFunction | NoFunctionType | ShapesNotComparable | NoInterface
    | NoMethod | NoConditionSymbol

  datatype Code =
    | ValueMismatch | RecordKindMismatch | ConstantMismatch | GuidMismatch | MaskMismatch | ConventionMismatch | TypeMismatch

  /** One step of filing: a symbol is looked at, or a fact is filed. */
  datatype Entry =
    | Touch(symbol: string)
    | Matched(symbol: string, fact: string)
    | Unmatched(owner: Option<string>, fact: string, reason: Reason)
    | Mismatched(symbol: string, code: Code, fact: string, expected: string, actual: string)

  /** Compares two 64-bit numbers. */
  function UintEntry(symbol: string, fact: string, expected: nat, actual: nat): Entry {
    if expected == actual then Matched(symbol, fact)
    else Mismatched(symbol, ValueMismatch, fact, Numeral(expected), Numeral(actual))
  }

  function UnmatchedMany(owner: Option<string>, facts: seq<string>, reason: Reason): seq<Entry> {
    if facts == [] then []
    else UnmatchedMany(owner, facts[..|facts| - 1], reason) + [Unmatched(owner, facts[|facts| - 1], reason)]
  }

  function OffsetFact(record: RecordResult, field: FieldResult): string {
    Named(record.id + ".field." + field.id, OffsetPart)
  }

  function OffsetFacts(record: RecordResult, fields: seq<FieldResult>): seq<string> {
    if fields == [] then [] else OffsetFacts(record, fields[..|fields| - 1]) + [OffsetFact(record, fields[|fields| - 1])]
  }

  function RecordFacts(record: RecordResult): seq<string> {
    [Named(record.id, SizePart), Named(record.id, AlignmentPart)] + OffsetFacts(record, record.fields)
  }

  /** Measured kinds are "struct" and "union", so the other names need no telling
      apart. */
  function KindName(kind: Layouts.Kind): string {
    if kind.Struct? then "struct" else if kind.Union? then "union" else "other"
  }

  function OffsetEntry(symbol: string, t: Layouts.Type, answer: Layouts.Answer, record: RecordResult, field: FieldResult): Entry {
    var f := Layouts.FindField(t.fields, field.nativeName);
    if f == None then
      Unmatched(Some(symbol), OffsetFact(record, field), NoField)
    else if !answer.Offsets? || f.value.name !in answer.byName then
      Unmatched(Some(symbol), OffsetFact(record, field), OffsetNotKnown)
    else
      UintEntry(symbol, OffsetFact(record, field), field.offset, answer.byName[f.value.name])
  }

  function OffsetEntries(symbol: string, t: Layouts.Type, answer: Layouts.Answer, record: RecordResult, fields: seq<FieldResult>): seq<Entry> {
    if fields == [] then []
    else OffsetEntries(symbol, t, answer, record, fields[..|fields| - 1]) + [OffsetEntry(symbol, t, answer, record, fields[|fields| - 1])]
  }

  const RECORD_KINDS: Want := OfKind({StructKind, UnionKind, GuidKind})

  /** How a measured record is filed, given the symbol it is compared with. */
  function RecordEntries(s: Option<Symbol>, architecture: string, record: RecordResult): seq<Entry> {
    if s == None || s.value.symbolType == None then
      UnmatchedMany(None, RecordFacts(record), NoRecord)
    else
      var id, t := s.value.id, s.value.symbolType.value;
      var kind := if s.value.kind.GuidKind? then "struct" else KindName(t.kind);
      var layout := Layouts.FindLayout(t.layouts, architecture);
      if kind != record.kind then
        [Touch(id), Mismatched(id, RecordKindMismatch, Named(record.id, KindPart), record.kind, kind)]
        + UnmatchedMany(Some(id), RecordFacts(record), KindDiffers)
      else if layout == None then
        [Touch(id)] + UnmatchedMany(Some(id), RecordFacts(record), NoLayout)
      else
        [Touch(id), UintEntry(id, Named(record.id, SizePart), record.size, layout.value.size),
         UintEntry(id, Named(record.id, AlignmentPart), record.alignment, layout.value.alignment)]
        + OffsetEntries(id, t, Layouts.RecordOffsetsOf(t, layout.value, architecture), record, record.fields)
  }

  function ValueEntries(s: Option<Symbol>, value: ValueResult): seq<Entry> {
    var fact := Named(value.id, ValuePart);
    if s == None || s.value.constant == None then
      [Unmatched(None, fact, NoConstant)]
    else
      var id, c := s.value.id, s.value.constant.value;
      if value.exact == None || c.exact == None then
        [Touch(id), Unmatched(Some(id), fact, NotExact)]
      else if value.exact.value == c.exact.value then
        [Touch(id), Matched(id, fact)]
      else
        [Touch(id), Mismatched(id, ConstantMismatch, fact, value.text, c.text)]
  }

  function GuidEntries(s: Option<Symbol>, guid: GuidResult): seq<Entry> {
    var fact := Named(guid.id, ValuePart);
    if s == None || s.value.guid == None then
      [Unmatched(None, fact, NoGuid)]
    else if s.value.guid.value == guid.value then
      [Touch(s.value.id), Matched(s.value.id, fact)]
    else
      [Touch(s.value.id), Mismatched(s.value.id, GuidMismatch, fact, guid.value, s.value.guid.value)]
  }

  function BitFieldFacts(field: BitFieldResult): seq<string> {
    [Named(field.id, MaskPart), Named(field.id, BitOffsetPart), Named(field.id, BitWidthPart)]
  }

  /** The bits a field occupies in storage of so many bytes, if it fits. */
  function BitMask(offset: nat, width: nat, bytes: nat): Option<seq<bool>> {
    if bytes == 0 || offset > bytes * 8 || width > bytes * 8 - offset then None
    else Some(seq(bytes * 8, bit requires 0 <= bit < bytes * 8 => offset <= bit < offset + width))
  }

  function BitText(bits: seq<bool>): string {
    if bits == [] then "" else BitText(bits[..|bits| - 1]) + (if bits[|bits| - 1] then "1" else "0")
  }

  function MaskEntry(symbol: string, bits: Layouts.BitField, field: BitFieldResult): Entry {
    var fact := Named(field.id, MaskPart);
    var mask := BitMask(bits.bitOffset, bits.bitWidth, |field.mask| / 8);
    if mask == None then Unmatched(Some(symbol), fact, MaskTooWide)
    else if mask.value == field.mask then Matched(symbol, fact)
    else Mismatched(symbol, MaskMismatch, fact, BitText(field.mask), BitText(mask.value))
  }

  function BitFieldEntries(probe: Option<BitFieldProbe>, s: Option<Symbol>, field: BitFieldResult): seq<Entry> {
    if probe == None || probe.value.record == "" then
      UnmatchedMany(None, BitFieldFacts(field), NoBitFieldProbe)
    else if s == None || s.value.symbolType == None then
      UnmatchedMany(None, BitFieldFacts(field), NoBitFieldRecord)
    else
      var id := s.value.id;
      var f := Layouts.FindField(s.value.symbolType.value.fields, probe.value.field);
      if f == None || f.value.bitField == None then
        [Touch(id)] + UnmatchedMany(Some(id), BitFieldFacts(field), NoBitField)
      else
        var bits := f.value.bitField.value;
        [Touch(id), UintEntry(id, Named(field.id, BitOffsetPart), field.bitOffset, bits.bitOffset),
         UintEntry(id, Named(field.id, BitWidthPart), field.bitWidth, bits.bitWidth), MaskEntry(id, bits, field)]
  }

  /** Without regard to case and surrounding space. */
  predicate ConventionsEquivalent(projected: string, native: string) {
    var p, n := Strings.ToLower(Strings.Trim(projected)), Strings.ToLower(Strings.Trim(native));
    p == n || (n == "winapi" && p in ["platform", "stdcall", "winapi"])
  }

  function FunctionEntries(probe: Option<FunctionProbe>, s: Option<Symbol>, f: FunctionResult): seq<Entry> {
    var typeFact, callingFact := Named(f.id, TypePart), Named(f.id, ConventionPart);
    if s == None || s.value.function_ == None then
      [Unmatched(None, typeFact, NoFunction), Unmatched(None, callingFact, NoFunction)]
    else
      var id, fn := s.value.id, s.value.function_.value;
      var calling := if ConventionsEquivalent(fn.callingConvention, f.callingConvention) then Matched(id, callingFact)
                     else Mismatched(id, ConventionMismatch, callingFact, f.callingConvention, fn.callingConvention);
      var typed :=
        if probe == None || !probe.value.hasExpectedType then
          Unmatched(Some(id), typeFact, NoFunctionType)
        else if probe.value.shape == None || fn.shape == None then
          Unmatched(Some(id), typeFact, ShapesNotComparable)
        else if probe.value.shape.value == fn.shape.value && f.typeCompatible then
          Matched(id, typeFact)
        else
          Mismatched(id, TypeMismatch, typeFact, probe.value.shape.value, fn.shape.value);
      [Touch(id), calling, typed]
  }

  function FindMethod(methods: seq<Method>, name: string): Option<Method> {
    if methods == [] then None else if methods[0].name == name then Some(methods[0]) else FindMethod(methods[1..], name)
  }

  function VTableEntries(s: Option<Symbol>, table: VTableResult): seq<Entry> {
    var fact := Named(table.id, IndexPart);
    if s == None || s.value.symbolType == None then
      [Unmatched(None, fact, NoInterface)]
    else
      var m := FindMethod(s.value.methods, table.methodName);
      if m == None then
        [Touch(s.value.id), Unmatched(Some(s.value.id), fact, NoMethod)]
      else
        [Touch(s.value.id), UintEntry(s.value.id, fact, table.index, m.value.vtableIndex)]
  }

  function ConditionEntries(condition: ConditionResult): seq<Entry> {
    [Unmatched(None, Named(condition.id, ValuePart), NoConditionSymbol)]
  }

  // ---- filing ----

  datatype SymbolResult = SymbolResult(matched: seq<string>, unmatched: seq<string>, mismatched: seq<string>)
  datatype UnmatchedFact = UnmatchedFact(fact: string, reason: Reason)
  datatype Mismatch = Mismatch(code: Code, symbol: string, fact: string, expected: string, actual: string)

  datatype Tally = Tally(symbols: map<string, SymbolResult>, unmatched: seq<UnmatchedFact>, mismatches: seq<Mismatch>, mismatchedFacts: nat) {
    function Of(symbol: string): SymbolResult {
      if symbol in symbols then symbols[symbol] else SymbolResult([], [], [])
    }
  }

  const NOTHING_FILED := Tally(map[], [], [], 0)

  /** A difference of kind decides identity; it is reported but not counted. */
  predicate IsKindFact(fact: string) {
    Strings.HasSuffix(fact, ".kind")
  }

  function File(t: Tally, e: Entry): Tally {
    match e
    case Touch(s) =>
      t.(symbols := t.symbols[s := t.Of(s)])
    case Matched(s, fact) =>
      t.(symbols := t.symbols[s := t.Of(s).(matched := t.Of(s).matched + [fact])])
    case Unmatched(owner, fact, reason) =>
      var filed := t.(unmatched := t.unmatched + [UnmatchedFact(fact, reason)]);
      if owner == None then filed
      else
        var s := owner.value;
        filed.(symbols := t.symbols[s := t.Of(s).(unmatched := t.Of(s).unmatched + [fact])])
    case Mismatched(s, code, fact, expected, actual) =>
      var filed := t.(mismatches := t.mismatches + [Mismatch(code, s, fact, expected, actual)]);
      if IsKindFact(fact) then
        filed.(symbols := t.symbols[s := t.Of(s)])
      else
        filed.(symbols := t.symbols[s := t.Of(s).(mismatched := t.Of(s).mismatched + [fact])], mismatchedFacts := t.mismatchedFacts + 1)
  }

  function FileAll(log: seq<Entry>): Tally {
    if log == [] then NOTHING_FILED else File(FileAll(log[..|log| - 1]), log[|log| - 1])
  }

  /** The facts an entry accounts for: one, or none. */
  function FactOf(e: Entry): seq<string> {
    match e
    case Touch(_) => []
    case Matched(_, fact) => [fact]
    case Unmatched(_, fact, _) => [fact]
    case Mismatched(_, _, fact, _, _) => if IsKindFact(fact) then [] else [fact]
  }

  function FactsIn(log: seq<Entry>): seq<string> {
    if log == [] then [] else FactsIn(log[..|log| - 1]) + FactOf(log[|log| - 1])
  }

  // ---- totals over all symbols ----

  datatype Column = MatchedColumn | MismatchedColumn

  function Facts(r: SymbolResult, column: Column): seq<string> {
    match column
    case MatchedColumn => r.matched
    case MismatchedColumn => r.mismatched
  }

  /** All facts of a column, over all symbols. */
  ghost function Gather(symbols: map<string, SymbolResult>, column: Column): multiset<string> {
    if symbols == map[] then multiset{}
    else
      var s :| s in symbols;
      multiset(Facts(symbols[s], column)) + Gather(symbols - {s}, column)
  }

  lemma Cancel(x: multiset<string>, y: multiset<string>, a: multiset<string>, b: multiset<string>)
    requires x + a == y + (a + b)
    ensures x == y + b
  {
    forall k
      ensures x[k] == (y + b)[k]
    {
      assert (x + a)[k] == (y + (a + b))[k];
    }
  }

  lemma Swap(a: multiset<string>, b: multiset<string>, c: multiset<string>)
    ensures a + (b + c) == b + (a + c)
  {
    assert forall k :: (a + (b + c))[k] == (b + (a + c))[k];
  }

  lemma Regroup(a: multiset<string>, b: multiset<string>, c: multiset<string>, x: multiset<string>, y: multiset<string>, z: multiset<string>)
    ensures (a + x) + (b + y) + (c + z) == (a + b + c) + (x + y + z)
  {
    assert forall k :: ((a + x) + (b + y) + (c + z))[k] == ((a + b + c) + (x + y + z))[k];
  }

  lemma {:induction false} GatherOne(symbols: map<string, SymbolResult>, column: Column, s: string)
    requires s in symbols
    ensures Gather(symbols, column) == multiset(Facts(symbols[s], column)) + Gather(symbols - {s}, column)
    decreases |symbols|
  {
    var p :| p in symbols && Gather(symbols, column) == multiset(Facts(symbols[p], column)) + Gather(symbols - {p}, column);
    hide Gather;
    if p != s {
      GatherOne(symbols - {p}, column, s);
      GatherOne(symbols - {s}, column, p);
      assert symbols - {p} - {s} == symbols - {s} - {p};
      Swap(multiset(Facts(symbols[p], column)), multiset(Facts(symbols[s], column)), Gather(symbols - {p} - {s}, column));
    }
  }

  lemma GatherUpdate(symbols: map<string, SymbolResult>, column: Column, s: string, r: SymbolResult)
    ensures Gather(symbols[s := r], column) + multiset(if s in symbols then Facts(symbols[s], column) else [])
         == Gather(symbols, column) + multiset(Facts(r, column))
  {
    GatherOne(symbols[s := r], column, s);
    assert symbols[s := r] - {s} == symbols - {s};
    if s in symbols {
      GatherOne(symbols, column, s);
    } else {
      assert symbols - {s} == symbols;
    }
  }

  function FactIds(unmatched: seq<UnmatchedFact>): (ids: seq<string>)
    ensures |ids| == |unmatched|
  {
    if unmatched == [] then [] else FactIds(unmatched[..|unmatched| - 1]) + [unmatched[|unmatched| - 1].fact]
  }

  /** Everything filed: the matched facts of all symbols, the unmatched facts, the
      mismatched facts of all symbols. */
  ghost function Accounted(t: Tally): multiset<string> {
    Gather(t.symbols, MatchedColumn) + multiset(FactIds(t.unmatched)) + Gather(t.symbols, MismatchedColumn)
  }

  /** What an entry adds to a column. */
  function Gain(e: Entry, column: Column): seq<string> {
    if column.MatchedColumn? then (if e.Matched? then [e.fact] else [])
    else if e.Mismatched? && !IsKindFact(e.fact) then [e.fact] else []
  }

  /** The symbol an entry is filed under, if any. */
  function Owner(e: Entry): Option<string> {
    if e.Unmatched? then e.owner else Some(e.symbol)
  }

  lemma FilesUnderOwner(t: Tally, e: Entry, column: Column)
    ensures Owner(e) == None ==> File(t, e).symbols == t.symbols && Gain(e, column) == []
    ensures Owner(e).Some? ==>
      && File(t, e).symbols == t.symbols[Owner(e).value := File(t, e).Of(Owner(e).value)]
      && Facts(File(t, e).Of(Owner(e).value), column) == Facts(t.Of(Owner(e).value), column) + Gain(e, column)
  {
    hide IsKindFact;
  }

  lemma FileGains(t: Tally, e: Entry, column: Column)
    ensures Gather(File(t, e).symbols, column) == Gather(t.symbols, column) + multiset(Gain(e, column))
  {
    hide Gather, File, Gain;
    FilesUnderOwner(t, e, column);
    if Owner(e).Some? {
      var s := Owner(e).value;
      GatherUpdate(t.symbols, column, s, File(t, e).Of(s));
      Cancel(Gather(File(t, e).symbols, column), Gather(t.symbols, column), multiset(Facts(t.Of(s), column)), multiset(Gain(e, column)));
    }
  }

  /** Filing an entry accounts for its fact, once. */
  lemma FileAccounts(t: Tally, e: Entry)
    ensures Accounted(File(t, e)) == Accounted(t) + multiset(FactOf(e))
    ensures |Gather(File(t, e).symbols, MismatchedColumn)| - File(t, e).mismatchedFacts
         == |Gather(t.symbols, MismatchedColumn)| - t.mismatchedFacts
  {
    FileGains(t, e, MatchedColumn);
    FileGains(t, e, MismatchedColumn);
    UnmatchedGains(t, e);
    hide Gather, IsKindFact, File, FactIds;
    var unmatched := if e.Unmatched? then [e.fact] else [];
    Regroup(Gather(t.symbols, MatchedColumn), multiset(FactIds(t.unmatched)), Gather(t.symbols, MismatchedColumn),
            multiset(Gain(e, MatchedColumn)), multiset(unmatched), multiset(Gain(e, MismatchedColumn)));
    OneGain(e, unmatched);
    CountGains(t, e);
  }

  lemma FactIdsAppend(unmatched: seq<UnmatchedFact>, u: UnmatchedFact)
    ensures FactIds(unmatched + [u]) == FactIds(unmatched) + [u.fact]
  {
    assert (unmatched + [u])[..|unmatched|] == unmatched;
  }

  lemma UnmatchedGains(t: Tally, e: Entry)
    ensures multiset(FactIds(File(t, e).unmatched)) == multiset(FactIds(t.unmatched)) + multiset(if e.Unmatched? then [e.fact] else [])
  {
    hide FactIds, IsKindFact;
    if e.Unmatched? {
      FactIdsAppend(t.unmatched, UnmatchedFact(e.fact, e.reason));
    }
  }

  lemma OneGain(e: Entry, unmatched: seq<string>)
    requires unmatched == if e.Unmatched? then [e.fact] else []
    ensures multiset(Gain(e, MatchedColumn)) + multiset(unmatched) + multiset(Gain(e, MismatchedColumn)) == multiset(FactOf(e))
  {
    hide IsKindFact;
  }

  lemma CountGains(t: Tally, e: Entry)
    ensures File(t, e).mismatchedFacts == t.mismatchedFacts + |Gain(e, MismatchedColumn)|
    ensures |multiset(Gain(e, MismatchedColumn))| == |Gain(e, MismatchedColumn)|
  {
    hide IsKindFact;
  }

  /** Nothing is filed twice and nothing is dropped. */
  lemma {:induction false} Conservation(log: seq<Entry>)
    ensures Accounted(FileAll(log)) == multiset(FactsIn(log))
    ensures |Gather(FileAll(log).symbols, MismatchedColumn)| == FileAll(log).mismatchedFacts
  {
    if log != [] {
      Conservation(log[..|log| - 1]);
      FileAccounts(FileAll(log[..|log| - 1]), log[|log| - 1]);
    }
  }

  // ---- what is shown is what was decided ----

  function GainsIn(log: seq<Entry>, column: Column): seq<string> {
    if log == [] then [] else GainsIn(log[..|log| - 1], column) + Gain(log[|log| - 1], column)
  }

  /** The unmatched facts and the mismatches that a log decides, in its order. */
  function UnmatchedIn(log: seq<Entry>): seq<UnmatchedFact> {
    if log == [] then []
    else
      var before, e := UnmatchedIn(log[..|log| - 1]), log[|log| - 1];
      if e.Unmatched? then before + [UnmatchedFact(e.fact, e.reason)] else before
  }

  function MismatchesIn(log: seq<Entry>): seq<Mismatch> {
    if log == [] then []
    else
      var before, e := MismatchesIn(log[..|log| - 1]), log[|log| - 1];
      if e.Mismatched? then before + [Mismatch(e.code, e.symbol, e.fact, e.expected, e.actual)] else before
  }

  lemma FileLists(t: Tally, e: Entry)
    ensures File(t, e).unmatched == t.unmatched + if e.Unmatched? then [UnmatchedFact(e.fact, e.reason)] else []
    ensures File(t, e).mismatches == t.mismatches + if e.Mismatched? then [Mismatch(e.code, e.symbol, e.fact, e.expected, e.actual)] else []
  {
    hide IsKindFact;
  }

  /** The lists are those of the log, in its order. */
  lemma {:induction false} ListsAreDecided(log: seq<Entry>)
    ensures FileAll(log).unmatched == UnmatchedIn(log) && FileAll(log).mismatches == MismatchesIn(log)
  {
    hide File;
    if log != [] {
      ListsAreDecided(log[..|log| - 1]);
      FileLists(FileAll(log[..|log| - 1]), log[|log| - 1]);
    }
  }

  /** Each column holds the facts decided so. */
  lemma {:induction false} ColumnsAreDecided(log: seq<Entry>, column: Column)
    ensures Gather(FileAll(log).symbols, column) == multiset(GainsIn(log, column))
    ensures FileAll(log).mismatchedFacts == |GainsIn(log, MismatchedColumn)|
  {
    hide Gather, File, Gain;
    if log == [] {
      NothingGathered(column);
    } else {
      var before, e := log[..|log| - 1], log[|log| - 1];
      ColumnsAreDecided(before, column);
      FileGains(FileAll(before), e, column);
      CountGains(FileAll(before), e);
      assert multiset(GainsIn(log, column)) == multiset(GainsIn(before, column)) + multiset(Gain(e, column));
    }
  }

  lemma NothingGathered(column: Column)
    ensures Gather(map[], column) == multiset{}
  {
  }
}
