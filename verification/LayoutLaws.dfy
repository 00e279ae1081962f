/** What sizes and offsets the verifier takes for given, said without the functions that
    compute them.
 */
module LayoutLaws {
  import opened Options
  import opened RecordLayout

  // ---- what types measure ----

  predicate IsAddressType(t: Type) {
    t.pointerDepth > 0 || t.kind in {Pointer, FunctionPointer, Handle, Opaque}
  }

  predicate IsArrayType(t: Type) {
    !IsAddressType(t) && t.kind == FixedArray && t.element.Some? && t.length >= 0
  }

  /** Four bytes on 386, eight on the 64-bit architectures, unknown on others. */
  predicate IsAddressMeasure(m: Measure, architecture: string) {
    && (m == Known(4, 4) <==> architecture == "386")
    && (m == Known(8, 8) <==> architecture == "amd64" || architecture == "arm64" || architecture == "arm64ec")
    && (m == Known(4, 4) || m == Known(8, 8) || m == Unknown)
  }

  lemma AddressesMeasure(t: Type, architecture: string)
    requires IsAddressType(t)
    ensures IsAddressMeasure(TypeLayout(t, architecture), architecture)
  {
    assert "386" != "amd64" && "386" != "arm64" && "386" != "arm64ec";
  }

  /** An array is as large as its elements together, aligned as they are; unless that
      leaves 64 bits, or they have no size. */
  lemma ArraysMeasure(t: Type, architecture: string)
    requires IsArrayType(t)
    ensures var m, e := TypeLayout(t, architecture), TypeLayout(t.element.value, architecture);
      && (m.Panics? <==> e.Panics? || (e.Known? && e.size == 0))
      && (m.Known? <==> e.Known? && e.size > 0 && e.size * t.length < WORD)
      && (m.Known? ==> m == Known(e.size * t.length, e.alignment))
  {
    var e := TypeLayout(t.element.value, architecture);
    if e.Known? && e.size > 0 {
      Quotients(e.size, t.length);
    }
    hide TypeLayout;
    assert TypeLayout(t, architecture) == ArrayLayout(e, t.length) by {
      UnfoldArray(t, architecture);
    }
  }

  lemma UnfoldArray(t: Type, architecture: string)
    requires IsArrayType(t)
    ensures TypeLayout(t, architecture) == ArrayLayout(TypeLayout(t.element.value, architecture), t.length)
  {
    hide ArrayLayout;
  }

  lemma Quotients(size: nat, length: nat)
    requires size > 0
    ensures length <= (WORD - 1) / size <==> size * length < WORD
  {
    var q, r := (WORD - 1) / size, (WORD - 1) % size;
    assert WORD - 1 == size * q + r;
    if length <= q {
      assert size * length <= size * q;
    } else {
      assert size * length >= size * (q + 1);
    }
  }

  /** The layout at i is the first for the architecture; or, when none is, the first for
      any. */
  predicate IsChosen(layouts: seq<Layout>, architecture: string, i: nat)
    requires i < |layouts|
  {
    if layouts[i].architecture == architecture then
      forall j :: 0 <= j < i ==> layouts[j].architecture != architecture
    else
      && layouts[i].architecture in ["neutral", "all"]
      && (forall j :: 0 <= j < |layouts| ==> layouts[j].architecture != architecture)
      && (forall j :: 0 <= j < i ==> layouts[j].architecture !in ["neutral", "all"])
  }

  lemma {:induction false} FirstForIs(layouts: seq<Layout>, architectures: seq<string>, i: nat)
    requires i < |layouts| && layouts[i].architecture in architectures
    requires forall j :: 0 <= j < i ==> layouts[j].architecture !in architectures
    ensures FirstFor(layouts, architectures) == Some(layouts[i])
  {
    if i > 0 {
      FirstForIs(layouts[1..], architectures, i - 1);
    }
  }

  lemma {:induction false} FirstForNone(layouts: seq<Layout>, architectures: seq<string>)
    requires forall j :: 0 <= j < |layouts| ==> layouts[j].architecture !in architectures
    ensures FirstFor(layouts, architectures) == None
  {
    if layouts != [] {
      FirstForNone(layouts[1..], architectures);
    }
  }

  lemma ChosenIsFound(layouts: seq<Layout>, architecture: string, i: nat)
    requires i < |layouts| && IsChosen(layouts, architecture, i)
    ensures FindLayout(layouts, architecture) == Some(layouts[i])
  {
    if layouts[i].architecture == architecture {
      FirstForIs(layouts, [architecture], i);
    } else {
      FirstForNone(layouts, [architecture]);
      FirstForIs(layouts, ["neutral", "all"], i);
    }
  }

  predicate HasNoLayout(layouts: seq<Layout>, architecture: string) {
    forall j :: 0 <= j < |layouts| ==> layouts[j].architecture != architecture && layouts[j].architecture !in ["neutral", "all"]
  }

  lemma NoneIsFound(layouts: seq<Layout>, architecture: string)
    requires HasNoLayout(layouts, architecture)
    ensures FindLayout(layouts, architecture) == None
  {
    FirstForNone(layouts, [architecture]);
    FirstForNone(layouts, ["neutral", "all"]);
  }

  /** A given layout says size and alignment, one for the architecture before one for
      any. */
  lemma GivenLayoutsMeasure(t: Type, architecture: string, i: nat)
    requires !IsAddressType(t) && !IsArrayType(t) && i < |t.layouts| && IsChosen(t.layouts, architecture, i)
    ensures TypeLayout(t, architecture) == Known(t.layouts[i].size, t.layouts[i].alignment)
  {
    ChosenIsFound(t.layouts, architecture, i);
  }

  /** The width of a type without a layout: by its Go name, and otherwise by its bits. */
  lemma NamesMeasure(t: Type, architecture: string)
    requires !IsAddressType(t) && !IsArrayType(t) && HasNoLayout(t.layouts, architecture)
    ensures var m := TypeLayout(t, architecture);
      && (t.goType in ["int8", "uint8", "byte"] ==> m == Known(1, 1))
      && (t.goType in ["int16", "uint16"] ==> m == Known(2, 2))
      && (t.goType in ["int32", "uint32", "float32"] ==> m == Known(4, 4))
      && (t.goType in ["int64", "uint64", "float64"] ==> m == Known(8, 8))
      && (t.goType in ["uintptr", "unsafe.Pointer"] ==> IsAddressMeasure(m, architecture))
      && (t.goType !in ["int8", "uint8", "byte", "int16", "uint16", "int32", "uint32", "float32", "int64", "uint64", "float64", "uintptr", "unsafe.Pointer"] ==>
            m == if t.bits == 8 then Known(1, 1) else if t.bits == 16 then Known(2, 2) else if t.bits == 32 then Known(4, 4)
                 else if t.bits == 64 then Known(8, 8) else Unknown)
  {
    NoneIsFound(t.layouts, architecture);
    assert GoTypeLayout(t.goType, architecture).Some? ==> TypeLayout(t, architecture) == GoTypeLayout(t.goType, architecture).value;
    if t.goType in ["uintptr", "unsafe.Pointer"] {
      PointersMeasure(architecture);
    }
  }

  lemma PointersMeasure(architecture: string)
    ensures IsAddressMeasure(PointerLayout(architecture), architecture)
  {
    assert "386" != "amd64" && "386" != "arm64" && "386" != "arm64ec";
  }

  // ---- where fields start ----

  function SizeOfField(f: Field, architecture: string): nat {
    var m := TypeLayout(f.fieldType, architecture);
    if m.Known? then m.size else 0
  }

  /** Where the fields before i end. */
  function EndBefore(fields: seq<Field>, architecture: string, offsets: seq<nat>, i: nat): nat
    requires i <= |fields| == |offsets|
  {
    if i == 0 then 0 else offsets[i - 1] + SizeOfField(fields[i - 1], architecture)
  }

  /** A field starts at the first place after the one before where it is aligned, as its
      type demands, or as the packing does if that is less. */
  ghost predicate StartsFirst(fields: seq<Field>, pack: nat, architecture: string, offsets: seq<nat>, i: nat)
    requires i < |fields| == |offsets|
  {
    && fields[i].bitField == None
    && var m := TypeLayout(fields[i].fieldType, architecture);
    && m.Known? && m.alignment > 0
    && LeastMultiple(offsets[i], if pack == 0 || m.alignment <= pack then m.alignment else pack, EndBefore(fields, architecture, offsets, i))
  }

  /** These offsets are the layout of C. */
  ghost predicate IsStructLayout(fields: seq<Field>, pack: nat, architecture: string, offsets: seq<nat>) {
    |offsets| == |fields| && forall i :: 0 <= i < |fields| ==> StartsFirst(fields, pack, architecture, offsets, i)
  }

  lemma StartsAtLeast(fields: seq<Field>, pack: nat, architecture: string, offsets: seq<nat>, i: nat)
    requires i < |fields| == |offsets|
    ensures var slots := Slots(fields, pack, architecture);
      StartsFirst(fields, pack, architecture, offsets, i) <==>
        && IsMeasured(fields[i], architecture) && slots[i].alignment > 0
        && LeastMultiple(offsets[i], slots[i].alignment, Start(slots, offsets, i))
  {
    var slots := Slots(fields, pack, architecture);
    assert slots[i] == SlotOf(fields[i], pack, architecture);
    SlotMeans(fields[i], pack, architecture);
    if i > 0 {
      assert slots[i - 1] == SlotOf(fields[i - 1], pack, architecture);
      SlotMeans(fields[i - 1], pack, architecture);
    }
    hide TypeLayout, SlotOf, SizeOfField, LeastMultiple;
  }

  lemma SlotMeans(f: Field, pack: nat, architecture: string)
    ensures var m, slot := TypeLayout(f.fieldType, architecture), SlotOf(f, pack, architecture);
      slot.size == SizeOfField(f, architecture) && (m.Known? ==> slot.alignment == if pack == 0 || m.alignment <= pack then m.alignment else pack)
  {
    hide TypeLayout;
  }

  lemma StructIsC(fields: seq<Field>, pack: nat, architecture: string, offsets: seq<nat>)
    requires |fields| == |offsets|
    ensures IsStructLayout(fields, pack, architecture, offsets) <==>
      AreMeasured(fields, architecture) && IsCLayout(Slots(fields, pack, architecture), offsets)
  {
    hide StartsFirst, Slots, IsMeasured, LeastMultiple, Start;
    forall i | 0 <= i < |fields|
      ensures var slots := Slots(fields, pack, architecture);
        StartsFirst(fields, pack, architecture, offsets, i) <==>
          && IsMeasured(fields[i], architecture) && slots[i].alignment > 0
          && LeastMultiple(offsets[i], slots[i].alignment, Start(slots, offsets, i))
    {
      StartsAtLeast(fields, pack, architecture, offsets, i);
    }
  }

  lemma LeastIsOne(x: nat, y: nat, a: nat, v: nat)
    requires a > 0 && LeastMultiple(x, a, v) && LeastMultiple(y, a, v)
    ensures x == y
  {
  }

  lemma {:induction false} OnlyExact(slots: seq<Slot>, offsets: seq<nat>)
    requires IsCLayout(slots, offsets)
    ensures offsets == ExactOffsets(slots) && ExactEnd(slots) == Start(slots, offsets, |slots|)
  {
    if slots != [] {
      var n := |slots| - 1;
      CLayoutShortened(slots, offsets);
      ExactOneMore(slots);
      OnlyExact(slots[..n], offsets[..n]);
      CeilingIsLeast(ExactEnd(slots[..n]), slots[n].alignment);
      hide Ceiling, IsCLayout, LeastMultiple, ExactEnd, ExactOffsets;
      LeastIsOne(offsets[n], Ceiling(ExactEnd(slots[..n]), slots[n].alignment), slots[n].alignment, ExactEnd(slots[..n]));
      assert offsets == offsets[..n] + [offsets[n]];
    }
  }

  lemma CLayoutShortened(slots: seq<Slot>, offsets: seq<nat>)
    requires IsCLayout(slots, offsets) && slots != []
    ensures var n := |slots| - 1;
      && IsCLayout(slots[..n], offsets[..n]) && Start(slots[..n], offsets[..n], n) == Start(slots, offsets, n)
      && slots[n].alignment > 0 && LeastMultiple(offsets[n], slots[n].alignment, Start(slots, offsets, n))
  {
    hide LeastMultiple;
    var n := |slots| - 1;
    assert forall i :: 0 <= i <= n ==> Start(slots[..n], offsets[..n], i) == Start(slots, offsets, i);
  }

  /** The program derives the layout of C exactly when it ends within 64 bits. */
  lemma StructLayoutIsDerived(fields: seq<Field>, pack: nat, architecture: string, offsets: seq<nat>)
    requires WordFields(fields) && IsWord(pack) && IsStructLayout(fields, pack, architecture, offsets)
    ensures var end, d := EndBefore(fields, architecture, offsets, |fields|), Derive(fields, pack, architecture);
      && (end < WORD ==> d == Derived(offsets, end))
      && (d.Derived? && d.offsets == offsets ==> end < WORD)
  {
    var slots := Slots(fields, pack, architecture);
    StructIsC(fields, pack, architecture, offsets);
    OnlyExact(slots, offsets);
    EndOfSlots(fields, pack, architecture, offsets);
    DerivesCLayoutExactly(fields, pack, architecture);
  }

  /** Nothing is derived with a bit-field, or a field of unknown size or alignment. */
  lemma {:induction false} DerivedIsMeasured(fields: seq<Field>, pack: nat, architecture: string, i: nat)
    requires Derive(fields, pack, architecture).Derived? && i < |fields|
    ensures var m := TypeLayout(fields[i].fieldType, architecture); fields[i].bitField == None && m.Known? && m.alignment > 0
  {
    var n := |fields| - 1;
    NotMeasuredNotPlaced(Derive(fields[..n], pack, architecture), fields[n], pack, architecture);
    hide TypeLayout, Place;
    if i < n {
      DerivedIsMeasured(fields[..n], pack, architecture, i);
    }
  }

  lemma EndOfSlots(fields: seq<Field>, pack: nat, architecture: string, offsets: seq<nat>)
    requires |fields| == |offsets| && AreMeasured(fields, architecture)
    ensures EndBefore(fields, architecture, offsets, |fields|) == Start(Slots(fields, pack, architecture), offsets, |fields|)
  {
    hide TypeLayout, Slots;
    assert fields != [] ==> IsMeasured(fields[|fields| - 1], architecture);
  }

  // ---- offsets by name ----

  /** The entry at i of a given layout is for this name: its own, or that of the field it
      stands for. */
  predicate IsEntryFor(record: Type, layout: Layout, i: nat, name: string)
    requires i < |layout.fields|
  {
    var f := FindField(record.fields, layout.fields[i].name);
    layout.fields[i].name == name || (f.Some? && f.value.name == name)
  }

  /** Of the first n entries the one at i is the last for the name. */
  predicate IsLastFor(record: Type, layout: Layout, n: nat, i: nat, name: string) {
    i < n <= |layout.fields| && IsEntryFor(record, layout, i, name) && forall j :: i < j < n ==> !IsEntryFor(record, layout, j, name)
  }

  lemma OneMoreEntry(record: Type, layout: Layout, n: nat, name: string)
    requires n < |layout.fields|
    ensures var before, after := ExplicitOffsets(layout.fields[..n], record.fields), ExplicitOffsets(layout.fields[..n + 1], record.fields);
      && (IsEntryFor(record, layout, n, name) ==> name in after && after[name] == layout.fields[n].offset)
      && (!IsEntryFor(record, layout, n, name) ==> (name in after <==> name in before) && (name in after ==> after[name] == before[name]))
  {
    assert layout.fields[..n + 1][..n] == layout.fields[..n];
    hide FindField;
  }

  /** The first n entries give the name the offset of the last for it. */
  ghost predicate GivesLast(record: Type, layout: Layout, n: nat, name: string)
    requires n <= |layout.fields|
  {
    var given := ExplicitOffsets(layout.fields[..n], record.fields);
    && (name in given <==> exists i: nat :: IsLastFor(record, layout, n, i, name))
    && (forall i: nat :: IsLastFor(record, layout, n, i, name) ==> name in given && given[name] == layout.fields[i].offset)
  }

  lemma GivesLastOneMore(record: Type, layout: Layout, n: nat, name: string)
    requires n < |layout.fields| && GivesLast(record, layout, n, name)
    ensures GivesLast(record, layout, n + 1, name)
  {
    OneMoreEntry(record, layout, n, name);
    forall i: nat
      ensures IsLastFor(record, layout, n + 1, i, name) <==>
        if IsEntryFor(record, layout, n, name) then i == n else IsLastFor(record, layout, n, i, name)
    {
      LastForOneMore(record, layout, n, i, name);
    }
    hide ExplicitOffsets, IsEntryFor, IsLastFor;
    if IsEntryFor(record, layout, n, name) {
      assert IsLastFor(record, layout, n + 1, n, name);
    } else if i: nat :| IsLastFor(record, layout, n, i, name) {
      assert IsLastFor(record, layout, n + 1, i, name);
    }
  }

  lemma {:induction false} GivenOffsets(record: Type, layout: Layout, n: nat, name: string)
    requires n <= |layout.fields|
    ensures GivesLast(record, layout, n, name)
  {
    if n > 0 {
      GivenOffsets(record, layout, n - 1, name);
      GivesLastOneMore(record, layout, n - 1, name);
    } else {
      assert layout.fields[..0] == [];
    }
  }

  lemma LastForOneMore(record: Type, layout: Layout, n: nat, i: nat, name: string)
    requires n < |layout.fields|
    ensures IsLastFor(record, layout, n + 1, i, name) <==>
      if IsEntryFor(record, layout, n, name) then i == n else IsLastFor(record, layout, n, i, name)
  {
    hide IsEntryFor;
  }

  lemma {:induction false} NamesOf(fields: seq<Field>, offsets: seq<nat>, name: string)
    requires |fields| == |offsets|
    ensures name in ByName(fields, offsets) <==> exists i :: 0 <= i < |fields| && fields[i].name == name
    ensures name in ByName(fields, offsets) ==> ByName(fields, offsets)[name] in offsets
  {
    if fields != [] {
      var n := |fields| - 1;
      NamesOf(fields[..n], offsets[..n], name);
    }
  }

  /** Given offsets are taken as they are, the last for a name counting; in a union all
      fields start at zero; nothing but a struct is laid out. */
  lemma OffsetsMean(record: Type, layout: Layout, architecture: string, name: string)
    ensures var r, n := RecordOffsetsOf(record, layout, architecture), |layout.fields|;
      && (n > 0 ==>
            && r.Offsets? && (name in r.byName <==> exists i: nat :: IsLastFor(record, layout, n, i, name))
            && (forall i: nat :: IsLastFor(record, layout, n, i, name) ==> name in r.byName && r.byName[name] == layout.fields[i].offset))
      && (n == 0 && record.kind.Union? ==>
            && r.Offsets? && (name in r.byName <==> exists i :: 0 <= i < |record.fields| && record.fields[i].name == name)
            && (name in r.byName ==> r.byName[name] == 0))
      && (n == 0 && !record.kind.Union? && !record.kind.Struct? ==> r == NotKnown)
  {
    assert layout.fields[..|layout.fields|] == layout.fields;
    hide ExplicitOffsets, ByName, IsLastFor, Derive;
    GivenOffsets(record, layout, |layout.fields|, name);
    NamesOf(record.fields, seq(|record.fields|, _ => 0), name);
  }

  /** A struct's fields start where the layout of C has them, when it ends within 64 bits
      and no name repeats. */
  lemma StructOffsetsMean(record: Type, layout: Layout, architecture: string, offsets: seq<nat>)
    requires layout.fields == [] && record.kind.Struct? && WordFields(record.fields) && IsWord(layout.pack)
    requires forall a, b :: 0 <= a < b < |record.fields| ==> record.fields[a].name != record.fields[b].name
    requires IsStructLayout(record.fields, layout.pack, architecture, offsets)
    requires EndBefore(record.fields, architecture, offsets, |record.fields|) < WORD
    ensures var r := RecordOffsetsOf(record, layout, architecture);
      r.Offsets? && forall i :: 0 <= i < |record.fields| ==> record.fields[i].name in r.byName && r.byName[record.fields[i].name] == offsets[i]
  {
    StructLayoutIsDerived(record.fields, layout.pack, architecture, offsets);
    hide IsStructLayout, Derive, ByName, EndBefore;
    forall i | 0 <= i < |record.fields|
      ensures record.fields[i].name in ByName(record.fields, offsets) && ByName(record.fields, offsets)[record.fields[i].name] == offsets[i]
    {
      ByNameHas(record.fields, offsets, i);
    }
  }

  /** A field is found by its native name, or by its own; the first that has it. */
  predicate IsFirstCalled(fields: seq<Field>, nativeName: string, i: nat) {
    i < |fields| && IsCalled(fields[i], nativeName) && forall j :: 0 <= j < i ==> !IsCalled(fields[j], nativeName)
  }

  lemma {:induction false} FirstFieldIsFound(fields: seq<Field>, nativeName: string)
    ensures forall i: nat :: IsFirstCalled(fields, nativeName, i) ==> FindField(fields, nativeName) == Some(fields[i])
    ensures FindField(fields, nativeName).Some? <==> exists i: nat :: IsFirstCalled(fields, nativeName, i)
  {
    if fields != [] {
      if IsCalled(fields[0], nativeName) {
        assert IsFirstCalled(fields, nativeName, 0);
      } else {
        var rest := fields[1..];
        FirstFieldIsFound(rest, nativeName);
        hide IsCalled;
        forall i: nat
          ensures IsFirstCalled(fields, nativeName, i + 1) <==> IsFirstCalled(rest, nativeName, i)
        {
          assert forall j :: 0 <= j < |rest| ==> rest[j] == fields[j + 1];
        }
        assert !IsFirstCalled(fields, nativeName, 0);
        assert forall i: nat :: IsFirstCalled(fields, nativeName, i) ==> i > 0 && IsFirstCalled(fields, nativeName, (i - 1) + 1);
      }
    }
  }

  predicate IsCalled(f: Field, nativeName: string) {
    f.name == nativeName || (f.nativeName != "" && f.nativeName == nativeName)
  }

  // ---- an example ----

  function Named(name: string, kind: Kind, goType: string, depth: int): Field {
    Field(name, "", Type(kind, goType, depth, 0, 0, None, [], []), None)
  }

  /** A counted string: two 16-bit lengths and a pointer. */
  function UnicodeString(): seq<Field> {
    [Named("Length", Primitive, "uint16", 0), Named("MaximumLength", Primitive, "uint16", 0), Named("Buffer", Pointer, "*uint16", 1)]
  }

  /** A field known to be of this size and alignment goes to this offset. */
  lemma PlacesNext(fields: seq<Field>, f: Field, pack: nat, architecture: string, size: nat, alignment: nat, offset: nat)
    requires Derive(fields, pack, architecture).Derived? && f.bitField == None
    requires TypeLayout(f.fieldType, architecture) == Known(size, alignment) && alignment > 0 && offset + size < WORD
    requires offset == AlignUp(Derive(fields, pack, architecture).end, if pack == 0 || alignment <= pack then alignment else pack)
    ensures Derive(fields + [f], pack, architecture) == Derived(Derive(fields, pack, architecture).offsets + [offset], offset + size)
  {
    assert (fields + [f])[..|fields|] == fields;
    hide TypeLayout, AlignUp;
  }

  lemma RoundedExamples()
    ensures AlignUp(0, 1) == AlignUp(0, 2) == 0 && AlignUp(1, 1) == 1 && AlignUp(2, 2) == 2
    ensures AlignUp(4, 4) == 4 && AlignUp(4, 8) == 8 && WORD > 100
  {
  }

  lemma UnicodeStringExample()
    ensures Derive(UnicodeString(), 0, "386") == Derived([0, 2, 4], 8)
    ensures Derive(UnicodeString(), 0, "amd64") == Derive(UnicodeString(), 0, "arm64") == Derived([0, 2, 8], 16)
  {
    assert IsAddressMeasure(Known(4, 4), "386") && IsAddressMeasure(Known(8, 8), "amd64") && IsAddressMeasure(Known(8, 8), "arm64");
    UnicodeStringOn("386", 4);
    UnicodeStringOn("amd64", 8);
    UnicodeStringOn("arm64", 8);
  }

  lemma UnicodeStringOn(architecture: string, width: nat)
    requires width in {4, 8} && IsAddressMeasure(Known(width, width), architecture)
    ensures Derive(UnicodeString(), 0, architecture) == Derived([0, 2, width], 2 * width)
  {
    var a, b, c := UnicodeString()[0], UnicodeString()[1], UnicodeString()[2];
    assert UnicodeString() == [a, b, c];
    UnicodeStringMeasures(architecture, width);
    RoundedExamples();
    EmptyIsDerived(0, architecture);
    hide TypeLayout, UnicodeString, Derive, AlignUp, WORD;
    assert [] + [a] == [a] && [a] + [b] == [a, b] && [a, b] + [c] == [a, b, c];
    PlacesNext([], a, 0, architecture, 2, 2, 0);
    PlacesNext([a], b, 0, architecture, 2, 2, 2);
    PlacesNext([a, b], c, 0, architecture, width, width, width);
  }

  lemma UnicodeStringMeasures(architecture: string, width: nat)
    requires width in {4, 8} && IsAddressMeasure(Known(width, width), architecture)
    ensures var a, b, c := UnicodeString()[0], UnicodeString()[1], UnicodeString()[2];
      && TypeLayout(a.fieldType, architecture) == TypeLayout(b.fieldType, architecture) == Known(2, 2)
      && TypeLayout(c.fieldType, architecture) == Known(width, width)
      && a.bitField == b.bitField == c.bitField == None
  {
    var a, b, c := UnicodeString()[0], UnicodeString()[1], UnicodeString()[2];
    AddressesMeasure(c.fieldType, architecture);
    NamesMeasure(a.fieldType, architecture);
    NamesMeasure(b.fieldType, architecture);
    hide TypeLayout;
  }

  lemma EmptyIsDerived(pack: nat, architecture: string)
    ensures Derive([], pack, architecture) == Derived([], 0)
  {
  }

  /** Packing to one byte leaves no gaps. */
  lemma PackedExample()
    ensures Derive([Named("a", Primitive, "uint8", 0), Named("b", Primitive, "uint32", 0)], 1, "amd64") == Derived([0, 1], 5)
  {
    var a, b := Named("a", Primitive, "uint8", 0), Named("b", Primitive, "uint32", 0);
    PackedMeasures(a, b);
    hide TypeLayout, Named, Derive, AlignUp, WORD;
    RoundedExamples();
    EmptyIsDerived(1, "amd64");
    assert [] + [a] == [a] && [a] + [b] == [a, b];
    PlacesNext([], a, 1, "amd64", 1, 1, 0);
    PlacesNext([a], b, 1, "amd64", 4, 4, 1);
  }

  lemma PackedMeasures(a: Field, b: Field)
    requires a == Named("a", Primitive, "uint8", 0) && b == Named("b", Primitive, "uint32", 0)
    ensures TypeLayout(a.fieldType, "amd64") == Known(1, 1) && TypeLayout(b.fieldType, "amd64") == Known(4, 4)
    ensures a.bitField == b.bitField == None
  {
    hide TypeLayout;
    NamesMeasure(a.fieldType, "amd64");
    NamesMeasure(b.fieldType, "amd64");
  }
}
