/** The builder that files the comparison's decisions step by step.
 */
module AbiBuilder {
  import opened Options
  import opened Decimal
  import opened AbiCompare
  import opened AbiFacts
  import Layouts = RecordLayout

  lemma FileAllOneMore(log: seq<Entry>, e: Entry)
    ensures FileAll(log + [e]) == File(FileAll(log), e)
  {
    assert (log + [e])[..|log|] == log;
  }

  method ListFacts(record: RecordResult) returns (facts: seq<string>)
    ensures facts == RecordFacts(record)
  {
    hide Named;
    facts := [Named(record.id, SizePart), Named(record.id, AlignmentPart)];
    for i := 0 to |record.fields|
      invariant facts == [Named(record.id, SizePart), Named(record.id, AlignmentPart)] + OffsetFacts(record, record.fields[..i])
    {
      assert record.fields[..i + 1][..i] == record.fields[..i];
      facts := facts + [OffsetFact(record, record.fields[i])];
    }
    assert record.fields[..|record.fields|] == record.fields;
  }

  class Builder {
    var symbols: map<string, SymbolResult>
    var unmatched: seq<UnmatchedFact>
    var mismatches: seq<Mismatch>
    var mismatchedFacts: nat
    ghost var log: seq<Entry>

    ghost predicate Valid()
      reads this
    {
      Tally(symbols, unmatched, mismatches, mismatchedFacts) == FileAll(log)
    }

    constructor ()
      ensures Valid() && log == []
    {
      symbols, unmatched, mismatches, mismatchedFacts, log := map[], [], [], 0, [];
    }

    /** The symbol's own result, made when it is first asked for. */
    method Look(symbol: string)
      requires Valid()
      modifies this
      ensures Valid() && symbol in symbols && log == old(log) + [Touch(symbol)]
    {
      FileAllOneMore(log, Touch(symbol));
      if symbol in symbols {
        assert symbols[symbol := symbols[symbol]] == symbols;
      } else {
        symbols := symbols[symbol := SymbolResult([], [], [])];
      }
      log := log + [Touch(symbol)];
    }

    method FileMatched(symbol: string, fact: string)
      requires Valid() && symbol in symbols
      modifies this
      ensures Valid() && symbol in symbols && log == old(log) + [Matched(symbol, fact)]
    {
      FileAllOneMore(log, Matched(symbol, fact));
      symbols := symbols[symbol := symbols[symbol].(matched := symbols[symbol].matched + [fact])];
      log := log + [Matched(symbol, fact)];
    }

    method FileUnmatched(owner: Option<string>, fact: string, reason: Reason)
      requires Valid() && (owner.Some? ==> owner.value in symbols)
      modifies this
      ensures Valid() && (owner.Some? ==> owner.value in symbols) && log == old(log) + [Unmatched(owner, fact, reason)]
    {
      FileAllOneMore(log, Unmatched(owner, fact, reason));
      unmatched := unmatched + [UnmatchedFact(fact, reason)];
      if owner.Some? {
        var s := owner.value;
        symbols := symbols[s := symbols[s].(unmatched := symbols[s].unmatched + [fact])];
      }
      log := log + [Unmatched(owner, fact, reason)];
    }

    method FileUnmatchedMany(owner: Option<string>, facts: seq<string>, reason: Reason)
      requires Valid() && (owner.Some? ==> owner.value in symbols)
      modifies this
      ensures Valid() && log == old(log) + UnmatchedMany(owner, facts, reason)
    {
      hide FileAll, Owner;
      for i := 0 to |facts|
        invariant Valid() && (owner.Some? ==> owner.value in symbols)
        invariant log == old(log) + UnmatchedMany(owner, facts[..i], reason)
      {
        assert facts[..i + 1][..i] == facts[..i];
        FileUnmatched(owner, facts[i], reason);
      }
      assert facts[..|facts|] == facts;
    }

    method FileMismatch(symbol: string, code: Code, fact: string, expected: string, actual: string)
      requires Valid() && symbol in symbols
      modifies this
      ensures Valid() && symbol in symbols && log == old(log) + [Mismatched(symbol, code, fact, expected, actual)]
    {
      hide IsKindFact;
      FileAllOneMore(log, Mismatched(symbol, code, fact, expected, actual));
      if IsKindFact(fact) {
        assert symbols[symbol := symbols[symbol]] == symbols;
      } else {
        symbols := symbols[symbol := symbols[symbol].(mismatched := symbols[symbol].mismatched + [fact])];
        mismatchedFacts := mismatchedFacts + 1;
      }
      mismatches := mismatches + [Mismatch(code, symbol, fact, expected, actual)];
      log := log + [Mismatched(symbol, code, fact, expected, actual)];
    }

    method CompareUint(symbol: string, fact: string, expected: nat, actual: nat)
      requires Valid() && symbol in symbols
      modifies this
      ensures Valid() && symbol in symbols && log == old(log) + [UintEntry(symbol, fact, expected, actual)]
    {
      if expected == actual {
        FileMatched(symbol, fact);
      } else {
        FileMismatch(symbol, ValueMismatch, fact, Numeral(expected), Numeral(actual));
      }
    }

    method CompareOffsets(symbol: string, t: Layouts.Type, answer: Layouts.Answer, record: RecordResult)
      requires Valid() && symbol in symbols && !answer.DivisionByZero?
      modifies this
      ensures Valid() && log == old(log) + OffsetEntries(symbol, t, answer, record, record.fields)
    {
      hide FileAll, Named, UintEntry, Layouts.FindField;
      for i := 0 to |record.fields|
        invariant Valid() && symbol in symbols
        invariant log == old(log) + OffsetEntries(symbol, t, answer, record, record.fields[..i])
      {
        assert record.fields[..i + 1][..i] == record.fields[..i];
        var field := record.fields[i];
        var fact := OffsetFact(record, field);
        var f := Layouts.FindField(t.fields, field.nativeName);
        if f == None {
          FileUnmatched(Some(symbol), fact, NoField);
        } else if answer.NotKnown? || f.value.name !in answer.byName {
          FileUnmatched(Some(symbol), fact, OffsetNotKnown);
        } else {
          CompareUint(symbol, fact, field.offset, answer.byName[f.value.name]);
        }
      }
      assert record.fields[..|record.fields|] == record.fields;
    }

    /** False when deriving an offset divides by zero; the program then stops. */
    method CompareRecord(inventory: seq<Symbol>, architecture: string, record: RecordResult) returns (ok: bool)
      requires Valid()
      modifies this
      ensures Valid()
      ensures ok == !Crashes(inventory, architecture, RecordItem(record))
      ensures ok ==>
        log == old(log) + RecordEntries(FindSymbol(inventory, architecture, record.nativeName, RECORD_KINDS), architecture, record)
    {
      hide FileAll, UnmatchedMany, FindSymbol, Layouts.FindLayout, Layouts.RecordOffsetsOf, Layouts.RecordDivides, KindName, Named, UintEntry, OffsetEntries;
      var facts := ListFacts(record);
      var s := SearchSymbol(inventory, architecture, record.nativeName, RECORD_KINDS);
      if s == None || s.value.symbolType == None {
        FileUnmatchedMany(None, facts, NoRecord);
        return true;
      }
      var id, t := s.value.id, s.value.symbolType.value;
      Look(id);
      var kind := if s.value.kind.GuidKind? then "struct" else KindName(t.kind);
      var layout := Layouts.FindLayout(t.layouts, architecture);
      if kind != record.kind {
        FileMismatch(id, RecordKindMismatch, Named(record.id, KindPart), record.kind, kind);
        FileUnmatchedMany(Some(id), facts, KindDiffers);
        return true;
      }
      if layout == None {
        FileUnmatchedMany(Some(id), facts, NoLayout);
        return true;
      }
      ok := CompareLayout(id, t, layout.value, architecture, record);
    }

    method CompareLayout(id: string, t: Layouts.Type, layout: Layouts.Layout, architecture: string, record: RecordResult) returns (ok: bool)
      requires Valid() && id in symbols
      modifies this
      ensures Valid()
      ensures ok == !Layouts.RecordDivides(t, layout, architecture)
      ensures ok ==>
        log == old(log)
               + [UintEntry(id, Named(record.id, SizePart), record.size, layout.size),
                  UintEntry(id, Named(record.id, AlignmentPart), record.alignment, layout.alignment)]
               + OffsetEntries(id, t, Layouts.RecordOffsetsOf(t, layout, architecture), record, record.fields)
    {
      hide FileAll, Layouts.RecordOffsetsOf, Layouts.RecordDivides, Named, UintEntry, OffsetEntries;
      CompareUint(id, Named(record.id, SizePart), record.size, layout.size);
      CompareUint(id, Named(record.id, AlignmentPart), record.alignment, layout.alignment);
      var answer := Layouts.RecordOffsets(t, layout, architecture);
      Layouts.RecordDividesExactly(t, layout, architecture);
      ok := !answer.DivisionByZero?;
      if ok {
        CompareOffsets(id, t, answer, record);
      }
    }

    method CompareConstant(inventory: seq<Symbol>, architecture: string, value: ValueResult)
      requires Valid()
      modifies this
      ensures Valid()
      ensures log == old(log) + ValueEntries(FindSymbol(inventory, architecture, value.nativeName, OfKind({ConstantKind})), value)
    {
      hide FileAll, FindSymbol, Named;
      var fact := Named(value.id, ValuePart);
      var s := SearchSymbol(inventory, architecture, value.nativeName, OfKind({ConstantKind}));
      if s == None || s.value.constant == None {
        FileUnmatched(None, fact, NoConstant);
        return;
      }
      var id, c := s.value.id, s.value.constant.value;
      Look(id);
      if value.exact == None || c.exact == None {
        FileUnmatched(Some(id), fact, NotExact);
      } else if value.exact.value == c.exact.value {
        FileMatched(id, fact);
      } else {
        FileMismatch(id, ConstantMismatch, fact, value.text, c.text);
      }
    }

    method CompareGuid(inventory: seq<Symbol>, architecture: string, guid: GuidResult)
      requires Valid()
      modifies this
      ensures Valid()
      ensures log == old(log) + GuidEntries(FindSymbol(inventory, architecture, guid.nativeName, WithGuid), guid)
    {
      hide FileAll, FindSymbol, Named;
      var fact := Named(guid.id, ValuePart);
      var s := SearchSymbol(inventory, architecture, guid.nativeName, WithGuid);
      if s == None || s.value.guid == None {
        FileUnmatched(None, fact, NoGuid);
        return;
      }
      Look(s.value.id);
      if s.value.guid.value == guid.value {
        FileMatched(s.value.id, fact);
      } else {
        FileMismatch(s.value.id, GuidMismatch, fact, guid.value, s.value.guid.value);
      }
    }

    method CompareBitField(inventory: seq<Symbol>, architecture: string, probe: Option<BitFieldProbe>, field: BitFieldResult)
      requires Valid()
      modifies this
      ensures Valid()
      ensures log == old(log)
        + BitFieldEntries(
            probe,
            if probe == None then None else FindSymbol(inventory, architecture, probe.value.record, OfKind({StructKind, UnionKind})),
            field)
    {
      hide FileAll, FindSymbol, Named, UnmatchedMany, UintEntry, Layouts.FindField, BitText;
      var facts := BitFieldFacts(field);
      if probe == None || probe.value.record == "" {
        FileUnmatchedMany(None, facts, NoBitFieldProbe);
        return;
      }
      var s := SearchSymbol(inventory, architecture, probe.value.record, OfKind({StructKind, UnionKind}));
      if s == None || s.value.symbolType == None {
        FileUnmatchedMany(None, facts, NoBitFieldRecord);
        return;
      }
      var id := s.value.id;
      Look(id);
      var f := Layouts.FindField(s.value.symbolType.value.fields, probe.value.field);
      if f == None || f.value.bitField == None {
        FileUnmatchedMany(Some(id), facts, NoBitField);
        return;
      }
      var bits := f.value.bitField.value;
      CompareUint(id, Named(field.id, BitOffsetPart), field.bitOffset, bits.bitOffset);
      CompareUint(id, Named(field.id, BitWidthPart), field.bitWidth, bits.bitWidth);
      var mask := ComputeBitMask(bits.bitOffset, bits.bitWidth, |field.mask| / 8);
      if mask == None {
        FileUnmatched(Some(id), Named(field.id, MaskPart), MaskTooWide);
      } else if mask.value == field.mask {
        FileMatched(id, Named(field.id, MaskPart));
      } else {
        FileMismatch(id, MaskMismatch, Named(field.id, MaskPart), BitText(field.mask), BitText(mask.value));
      }
    }

    method CompareFunction(inventory: seq<Symbol>, architecture: string, probe: Option<FunctionProbe>, f: FunctionResult)
      requires Valid()
      modifies this
      ensures Valid()
      ensures log == old(log) + FunctionEntries(probe, FindSymbol(inventory, architecture, f.nativeName, OfKind({FunctionKind})), f)
    {
      hide FileAll, FindSymbol, Named, ConventionsEquivalent;
      var typeFact, callingFact := Named(f.id, TypePart), Named(f.id, ConventionPart);
      var s := SearchSymbol(inventory, architecture, f.nativeName, OfKind({FunctionKind}));
      if s == None || s.value.function_ == None {
        FileUnmatched(None, typeFact, NoFunction);
        FileUnmatched(None, callingFact, NoFunction);
        return;
      }
      var id, fn := s.value.id, s.value.function_.value;
      Look(id);
      if ConventionsEquivalent(fn.callingConvention, f.callingConvention) {
        FileMatched(id, callingFact);
      } else {
        FileMismatch(id, ConventionMismatch, callingFact, f.callingConvention, fn.callingConvention);
      }
      if probe == None || !probe.value.hasExpectedType {
        FileUnmatched(Some(id), typeFact, NoFunctionType);
      } else if probe.value.shape == None || fn.shape == None {
        FileUnmatched(Some(id), typeFact, ShapesNotComparable);
      } else if probe.value.shape.value == fn.shape.value && f.typeCompatible {
        FileMatched(id, typeFact);
      } else {
        FileMismatch(id, TypeMismatch, typeFact, probe.value.shape.value, fn.shape.value);
      }
    }

    method CompareVTable(inventory: seq<Symbol>, architecture: string, table: VTableResult)
      requires Valid()
      modifies this
      ensures Valid()
      ensures log == old(log) + VTableEntries(FindSymbol(inventory, architecture, table.interfaceName, INTERFACE_KINDS), table)
    {
      hide FileAll, FindSymbol, Named, UintEntry, Owner;
      var fact := Named(table.id, IndexPart);
      var s := SearchSymbol(inventory, architecture, table.interfaceName, INTERFACE_KINDS);
      if s == None || s.value.symbolType == None {
        FileUnmatched(None, fact, NoInterface);
        return;
      }
      var id, methods := s.value.id, s.value.methods;
      Look(id);
      for i := 0 to |methods|
        invariant Valid() && id in symbols && log == old(log) + [Touch(id)]
        invariant FindMethod(methods, table.methodName) == FindMethod(methods[i..], table.methodName)
      {
        if methods[i].name == table.methodName {
          CompareUint(id, fact, table.index, methods[i].vtableIndex);
          return;
        }
      }
      FileUnmatched(Some(id), fact, NoMethod);
    }
  }

  /** Sets the bits of a field one by one in a mask of so many bytes. */
  method ComputeBitMask(offset: nat, width: nat, bytes: nat) returns (r: Option<seq<bool>>)
    ensures r == BitMask(offset, width, bytes)
  {
    if bytes == 0 || offset > bytes * 8 || width > bytes * 8 - offset {
      return None;
    }
    var mask := seq(bytes * 8, _ => false);
    for bit := offset to offset + width
      invariant |mask| == bytes * 8
      invariant forall i :: 0 <= i < |mask| ==> (mask[i] <==> offset <= i < bit)
    {
      mask := mask[bit := true];
    }
    assert mask == BitMask(offset, width, bytes).value;
    r := Some(mask);
  }

  /** Files one measurement; false when the program stops. */
  method CompareItem(b: Builder, inventory: seq<Symbol>, probes: Probes, architecture: string, item: Item) returns (ok: bool)
    requires b.Valid()
    modifies b
    ensures b.Valid()
    ensures ok == !Crashes(inventory, architecture, item)
    ensures ok ==> b.log == old(b.log) + ItemEntries(inventory, probes, architecture, item)
  {
    hide RecordEntries, ValueEntries, GuidEntries, BitFieldEntries, FunctionEntries, VTableEntries, FindSymbol, FileAll, Named;
    ok := true;
    match item {
      case RecordItem(r) => ok := b.CompareRecord(inventory, architecture, r);
      case ValueItem(v) => b.CompareConstant(inventory, architecture, v);
      case GuidItem(g) => b.CompareGuid(inventory, architecture, g);
      case BitFieldItem(f) => b.CompareBitField(inventory, architecture, ProbeFor(probes.bitFields, f.id), f);
      case FunctionItem(f) => b.CompareFunction(inventory, architecture, ProbeFor(probes.functions, f.id), f);
      case VTableItem(t) => b.CompareVTable(inventory, architecture, t);
      case ConditionItem(c) => b.FileUnmatched(None, Named(c.id, ValuePart), NoConditionSymbol);
    }
  }
}
