/** The layout the verifier derives for a record: where each field starts, in
    64-bit unsigned arithmetic, and when that is the layout of C.
 */
module RecordLayout {
  import opened Options
  import opened Arithmetic

  const WORD: nat := 0x1_0000_0000_0000_0000

  datatype Kind = Primitive | Pointer | FixedArray | FunctionPointer | Handle | Opaque | Struct | Union | Guid | OtherKind

  datatype FieldOffset = FieldOffset(name: string, offset: nat)

  datatype Layout = Layout(architecture: string, size: nat, alignment: nat, pack: nat, fields: seq<FieldOffset>)

  datatype BitField = BitField(bitOffset: nat, bitWidth: nat)

  datatype Field = Field(name: string, nativeName: string, fieldType: Type, bitField: Option<BitField>)

  datatype Type = Type(kind: Kind, goType: string, pointerDepth: int, bits: int, length: int, element: Option<Type>,
                       fields: seq<Field>, layouts: seq<Layout>)

  /** Sizes, alignments and offsets are 64-bit words. */
  predicate IsWord(n: int) {
    0 <= n < WORD
  }

  predicate WordLayout(l: Layout) {
    IsWord(l.size) && IsWord(l.alignment) && IsWord(l.pack) && forall i :: 0 <= i < |l.fields| ==> IsWord(l.fields[i].offset)
  }

  predicate WordType(t: Type) {
    && (forall i :: 0 <= i < |t.layouts| ==> WordLayout(t.layouts[i]))
    && t.length < WORD && t.bits < WORD
    && (t.element.Some? ==> WordType(t.element.value))
  }

  // ---- sizes of types ----

  /** A size and an alignment, nothing known, or a division by zero. */
  datatype Measure = Known(size: nat, alignment: nat) | Unknown | Panics

  function PointerLayout(architecture: string): Measure {
    if architecture == "386" then Known(4, 4)
    else if architecture in ["amd64", "arm64", "arm64ec"] then Known(8, 8)
    else Unknown
  }

  /** The first layout for the architecture, otherwise the first for any. */
  function FindLayout(layouts: seq<Layout>, architecture: string): Option<Layout> {
    var exact := FirstFor(layouts, [architecture]);
    if exact.Some? then exact else FirstFor(layouts, ["neutral", "all"])
  }

  function FirstFor(layouts: seq<Layout>, architectures: seq<string>): Option<Layout> {
    if layouts == [] then None
    else if layouts[0].architecture in architectures then Some(layouts[0])
    else FirstFor(layouts[1..], architectures)
  }

  predicate IsAddress(t: Type) {
    t.pointerDepth > 0 || t.kind.Pointer? || t.kind.FunctionPointer? || t.kind.Handle? || t.kind.Opaque?
  }

  function GoTypeLayout(goType: string, architecture: string): Option<Measure> {
    if goType in ["int8", "uint8", "byte"] then Some(Known(1, 1))
    else if goType in ["int16", "uint16"] then Some(Known(2, 2))
    else if goType in ["int32", "uint32", "float32"] then Some(Known(4, 4))
    else if goType in ["int64", "uint64", "float64"] then Some(Known(8, 8))
    else if goType in ["uintptr", "unsafe.Pointer"] then Some(PointerLayout(architecture))
    else None
  }

  /** An array whose element is measured; a zero-size element divides by zero. */
  function ArrayLayout(element: Measure, length: nat): Measure {
    match element
    case Unknown => Unknown
    case Panics => Panics
    case Known(size, alignment) =>
      if size == 0 then Panics
      else if length > (WORD - 1) / size then Unknown
      else Known(size * length, alignment)
  }

  function TypeLayout(t: Type, architecture: string): Measure {
    if IsAddress(t) then
      PointerLayout(architecture)
    else if t.kind.FixedArray? && t.element.Some? && t.length >= 0 then
      ArrayLayout(TypeLayout(t.element.value, architecture), t.length)
    else
      var layout := FindLayout(t.layouts, architecture);
      if layout.Some? then
        Known(layout.value.size, layout.value.alignment)
      else
        var byName := GoTypeLayout(t.goType, architecture);
        if byName.Some? then byName.value
        else if t.bits > 0 && t.bits % 8 == 0 && t.bits / 8 in [1, 2, 4, 8] then Known(t.bits / 8, t.bits / 8)
        else Unknown
  }

  lemma FirstForIsOne(layouts: seq<Layout>, architectures: seq<string>)
    requires FirstFor(layouts, architectures).Some?
    ensures FirstFor(layouts, architectures).value in layouts
  {
    if layouts[0].architecture !in architectures {
      FirstForIsOne(layouts[1..], architectures);
    }
  }

  /** No product of a size and a length leaves 64 bits. */
  lemma {:induction false} TypeLayoutIsWord(t: Type, architecture: string)
    requires WordType(t)
    ensures TypeLayout(t, architecture).Known? ==>
      IsWord(TypeLayout(t, architecture).size) && IsWord(TypeLayout(t, architecture).alignment)
  {
    if IsAddress(t) {
    } else if t.kind.FixedArray? && t.element.Some? && t.length >= 0 {
      TypeLayoutIsWord(t.element.value, architecture);
      var e := TypeLayout(t.element.value, architecture);
      if e.Known? && e.size > 0 && t.length <= (WORD - 1) / e.size {
        ProductFits(e.size, t.length);
      }
    } else if FindLayout(t.layouts, architecture).Some? {
      if FirstFor(t.layouts, [architecture]).Some? {
        FirstForIsOne(t.layouts, [architecture]);
      } else {
        FirstForIsOne(t.layouts, ["neutral", "all"]);
      }
    }
  }

  lemma ProductFits(size: nat, length: nat)
    requires size > 0 && length <= (WORD - 1) / size
    ensures size * length < WORD
  {
    assert size * length <= size * ((WORD - 1) / size) <= WORD - 1;
  }

  // ---- rounding up ----

  /** Rounds up in 64-bit arithmetic. */
  function AlignUp(value: nat, alignment: nat): nat {
    if alignment <= 1 || value % alignment == 0 then value
    else (value + alignment - value % alignment) % WORD
  }

  /** The rounding leaves 64 bits. */
  predicate Wraps(value: nat, alignment: nat) {
    alignment > 1 && value % alignment != 0 && value + alignment - value % alignment >= WORD
  }

  /** x is the least multiple of a at or after v. */
  ghost predicate LeastMultiple(x: nat, a: nat, v: nat)
    requires a > 0
  {
    x >= v && x % a == 0 && forall y: nat :: v <= y < x ==> y % a != 0
  }

  /** v rounded up to a multiple of a, in unbounded arithmetic. */
  function Ceiling(v: nat, a: nat): (r: nat)
    ensures r >= v
  {
    if a <= 1 || v % a == 0 then v else v + a - v % a
  }

  /** Without a wrap, rounding up in 64 bits is exact; with one, it goes below. */
  lemma RoundsExactly(v: nat, a: nat)
    requires IsWord(v)
    ensures Wraps(v, a) ==> Ceiling(v, a) >= WORD && (IsWord(a) ==> AlignUp(v, a) < v)
    ensures !Wraps(v, a) ==> AlignUp(v, a) == Ceiling(v, a) && IsWord(AlignUp(v, a))
  {
    if a > 1 && v % a != 0 {
      WordRemainder(v + a - v % a);
    }
  }

  lemma WordRemainder(x: nat)
    ensures x < WORD ==> x % WORD == x
    ensures WORD <= x < 2 * WORD ==> x % WORD == x - WORD
  {
  }

  lemma CeilingIsLeast(v: nat, a: nat)
    requires a > 0
    ensures LeastMultiple(Ceiling(v, a), a, v)
  {
    if a > 1 && v % a != 0 {
      NextMultiple(v, a);
    }
  }

  /** Rounding up gives the least multiple exactly when it does not wrap. */
  lemma AlignUpIsLeast(v: nat, a: nat)
    requires a > 0 && IsWord(v) && IsWord(a)
    ensures LeastMultiple(AlignUp(v, a), a, v) <==> !Wraps(v, a)
    ensures IsWord(AlignUp(v, a))
  {
    RoundsExactly(v, a);
    CeilingIsLeast(v, a);
    hide AlignUp, Ceiling, Wraps;
  }

  lemma NextMultiple(v: nat, a: nat)
    requires a > 1 && v % a != 0
    ensures (v + a - v % a) % a == 0
    ensures forall y: nat :: v <= y < v + a - v % a ==> y % a != 0
  {
    var q, r := v / a, v % a;
    DivModUnique(v + a - r, a, q + 1, 0);
    forall y: nat | v <= y < v + a - r
      ensures y % a != 0
    {
      DivModUnique(y, a, q, r + (y - v));
    }
  }

  // ---- division by zero ----

  predicate IsMeasuredArray(t: Type) {
    !IsAddress(t) && t.kind.FixedArray? && t.element.Some? && t.length >= 0
  }

  /** e is the element of t, k arrays deep. */
  ghost predicate ElementAt(t: Type, k: nat, e: Type) {
    if k == 0 then e == t else IsMeasuredArray(t) && ElementAt(t.element.value, k - 1, e)
  }

  ghost predicate HasZeroSizeElement(t: Type, architecture: string) {
    exists k: nat, e :: k > 0 && ElementAt(t, k, e) && TypeLayout(e, architecture).Known? && TypeLayout(e, architecture).size == 0
  }

  /** Measuring divides by zero exactly when an element of the array, or of an
      array it is made of, has size zero. */
  lemma {:induction false} PanicsExactly(t: Type, architecture: string)
    ensures TypeLayout(t, architecture).Panics? <==> HasZeroSizeElement(t, architecture)
    decreases t
  {
    if IsMeasuredArray(t) {
      var element := t.element.value;
      PanicsExactly(element, architecture);
      var m := TypeLayout(element, architecture);
      if m.Known? && m.size == 0 {
        assert ElementAt(element, 0, element);
        assert ElementAt(t, 1, element);
      }
      if m.Panics? {
        var k: nat, e :| k > 0 && ElementAt(element, k, e) && TypeLayout(e, architecture).Known? && TypeLayout(e, architecture).size == 0;
        assert ElementAt(t, k + 1, e);
      }
      if HasZeroSizeElement(t, architecture) {
        var k: nat, e :| k > 0 && ElementAt(t, k, e) && TypeLayout(e, architecture).Known? && TypeLayout(e, architecture).size == 0;
        assert ElementAt(element, k - 1, e);
      }
    }
  }

  // ---- field offsets ----

  /** The offsets of the fields and the end of the last one; or no offsets, because
      something is not known, or because of a division by zero. */
  datatype Derivation = Derived(offsets: seq<nat>, end: nat) | NotDerived | Crashed

  /** A field's alignment, limited by the packing. */
  function Effective(alignment: nat, pack: nat): nat {
    if pack != 0 && alignment > pack then pack else alignment
  }

  /** Places one more field after the end of the previous ones. */
  function Place(before: Derivation, f: Field, pack: nat, architecture: string): Derivation {
    if !before.Derived? then before
    else if f.bitField.Some? then NotDerived
    else
      match TypeLayout(f.fieldType, architecture)
      case Panics => Crashed
      case Unknown => NotDerived
      case Known(size, alignment) =>
        if alignment == 0 then NotDerived
        else
          var offset := AlignUp(before.end, Effective(alignment, pack));
          if WORD - 1 - offset < size then NotDerived
          else Derived(before.offsets + [offset], offset + size)
  }

  function Derive(fields: seq<Field>, pack: nat, architecture: string): (d: Derivation)
    ensures d.Derived? ==> |d.offsets| == |fields|
  {
    if fields == [] then Derived([], 0)
    else Place(Derive(fields[..|fields| - 1], pack, architecture), fields[|fields| - 1], pack, architecture)
  }

  /** A field that the derivation reaches is no bit-field and has, in its type, an
      array of elements of size zero. */
  ghost predicate Divides(fields: seq<Field>, pack: nat, architecture: string) {
    exists i :: 0 <= i < |fields| && DividesAt(fields, pack, architecture, i)
  }

  ghost predicate DividesAt(fields: seq<Field>, pack: nat, architecture: string, i: nat)
    requires i < |fields|
  {
    Derive(fields[..i], pack, architecture).Derived? && fields[i].bitField == None && HasZeroSizeElement(fields[i].fieldType, architecture)
  }

  lemma DividesOneMore(fields: seq<Field>, pack: nat, architecture: string)
    requires fields != []
    ensures var n := |fields| - 1;
      Divides(fields, pack, architecture) <==> Divides(fields[..n], pack, architecture) || DividesAt(fields, pack, architecture, n)
  {
    var n := |fields| - 1;
    hide HasZeroSizeElement, Place;
    forall i | 0 <= i < n
      ensures DividesAt(fields[..n], pack, architecture, i) <==> DividesAt(fields, pack, architecture, i)
    {
      assert fields[..n][..i] == fields[..i];
    }
  }

  /** The derivation divides by zero exactly at such a field. */
  lemma {:induction false} CrashesExactly(fields: seq<Field>, pack: nat, architecture: string)
    ensures Derive(fields, pack, architecture).Crashed? <==> Divides(fields, pack, architecture)
  {
    if fields != [] {
      var n := |fields| - 1;
      CrashesExactly(fields[..n], pack, architecture);
      PanicsExactly(fields[n].fieldType, architecture);
      DividesOneMore(fields, pack, architecture);
      hide TypeLayout, HasZeroSizeElement, AlignUp, Divides;
      PlaceCrashes(Derive(fields[..n], pack, architecture), fields[n], pack, architecture);
    }
  }

  lemma PlaceCrashes(before: Derivation, f: Field, pack: nat, architecture: string)
    ensures Place(before, f, pack, architecture).Crashed? <==>
      before.Crashed? || (before.Derived? && f.bitField == None && TypeLayout(f.fieldType, architecture).Panics?)
  {
    hide TypeLayout, AlignUp, Effective;
  }

  predicate WordFields(fields: seq<Field>) {
    forall i :: 0 <= i < |fields| ==> WordType(fields[i].fieldType)
  }

  /** A field reduced to what layout depends on. */
  datatype Slot = Slot(size: nat, alignment: nat)

  function SlotOf(f: Field, pack: nat, architecture: string): Slot {
    match TypeLayout(f.fieldType, architecture)
    case Known(size, alignment) => Slot(size, Effective(alignment, pack))
    case _ => Slot(0, 0)
  }

  function Slots(fields: seq<Field>, pack: nat, architecture: string): (slots: seq<Slot>)
    ensures |slots| == |fields|
    ensures forall i :: 0 <= i < |fields| ==> slots[i] == SlotOf(fields[i], pack, architecture)
  {
    if fields == [] then []
    else Slots(fields[..|fields| - 1], pack, architecture) + [SlotOf(fields[|fields| - 1], pack, architecture)]
  }

  /** The end of the field before slot i, or zero. */
  function Start(slots: seq<Slot>, offsets: seq<nat>, i: nat): nat
    requires i <= |slots| == |offsets|
  {
    if i == 0 then 0 else offsets[i - 1] + slots[i - 1].size
  }

  /** The layout of C: each field starts at the least multiple of its alignment at
      or after the end of the previous one. */
  ghost predicate IsCLayout(slots: seq<Slot>, offsets: seq<nat>) {
    && |offsets| == |slots|
    && (forall i :: 0 <= i < |slots| ==>
          slots[i].alignment > 0 && LeastMultiple(offsets[i], slots[i].alignment, Start(slots, offsets, i)))
  }

  /** What the code computes: each field starts where rounding up leaves it. */
  ghost predicate IsRounded(slots: seq<Slot>, offsets: seq<nat>) {
    && |offsets| == |slots| && IsWord(Start(slots, offsets, |slots|))
    && (forall i :: 0 <= i < |slots| ==>
          && slots[i].alignment > 0 && IsWord(slots[i].alignment) && IsWord(Start(slots, offsets, i))
          && offsets[i] == AlignUp(Start(slots, offsets, i), slots[i].alignment))
  }

  lemma {:induction false} DerivedIsRounded(fields: seq<Field>, pack: nat, architecture: string)
    requires WordFields(fields) && IsWord(pack) && Derive(fields, pack, architecture).Derived?
    ensures var d := Derive(fields, pack, architecture);
      IsRounded(Slots(fields, pack, architecture), d.offsets) && d.end == Start(Slots(fields, pack, architecture), d.offsets, |fields|)
  {
    if fields != [] {
      var before, f := fields[..|fields| - 1], fields[|fields| - 1];
      DerivedIsRounded(before, pack, architecture);
      TypeLayoutIsWord(f.fieldType, architecture);
      hide TypeLayout, AlignUp, WordType;
      RoundedOneMore(Slots(before, pack, architecture), Derive(before, pack, architecture).offsets, SlotOf(f, pack, architecture));
    }
  }

  lemma RoundedOneMore(slots: seq<Slot>, offsets: seq<nat>, slot: Slot)
    requires IsRounded(slots, offsets) && slot.alignment > 0 && IsWord(slot.alignment)
    requires AlignUp(Start(slots, offsets, |slots|), slot.alignment) + slot.size < WORD
    ensures IsRounded(slots + [slot], offsets + [AlignUp(Start(slots, offsets, |slots|), slot.alignment)])
  {
    hide AlignUp;
    var slots', offsets' := slots + [slot], offsets + [AlignUp(Start(slots, offsets, |slots|), slot.alignment)];
    assert forall i :: 0 <= i <= |slots| ==> Start(slots', offsets', i) == Start(slots, offsets, i);
  }

  /** No rounding leaves 64 bits. */
  ghost predicate NoWraps(slots: seq<Slot>, offsets: seq<nat>)
    requires |slots| == |offsets|
  {
    forall i :: 0 <= i < |slots| ==> !Wraps(Start(slots, offsets, i), slots[i].alignment)
  }

  /** The derived offsets are those of C exactly when no rounding wraps. */
  lemma DerivesCLayout(fields: seq<Field>, pack: nat, architecture: string)
    requires WordFields(fields) && IsWord(pack) && Derive(fields, pack, architecture).Derived?
    ensures var slots, offsets := Slots(fields, pack, architecture), Derive(fields, pack, architecture).offsets;
      |slots| == |offsets| && (IsCLayout(slots, offsets) <==> NoWraps(slots, offsets))
  {
    DerivedIsRounded(fields, pack, architecture);
    RoundedIsC(Slots(fields, pack, architecture), Derive(fields, pack, architecture).offsets);
  }

  lemma RoundedIsC(slots: seq<Slot>, offsets: seq<nat>)
    requires IsRounded(slots, offsets)
    ensures IsCLayout(slots, offsets) <==> NoWraps(slots, offsets)
  {
    hide LeastMultiple, AlignUp, Wraps;
    forall i | 0 <= i < |slots|
      ensures LeastMultiple(offsets[i], slots[i].alignment, Start(slots, offsets, i)) <==>
              !Wraps(Start(slots, offsets, i), slots[i].alignment)
    {
      AlignUpIsLeast(Start(slots, offsets, i), slots[i].alignment);
    }
  }

  // ---- when the layout is that of C, told from the fields ----

  /** Where the last field ends in the layout of C, however far that is. */
  function ExactEnd(slots: seq<Slot>): nat {
    if slots == [] then 0
    else
      var n := |slots| - 1;
      Ceiling(ExactEnd(slots[..n]), slots[n].alignment) + slots[n].size
  }

  function ExactOffsets(slots: seq<Slot>): seq<nat> {
    if slots == [] then []
    else
      var n := |slots| - 1;
      ExactOffsets(slots[..n]) + [Ceiling(ExactEnd(slots[..n]), slots[n].alignment)]
  }

  /** The field is no bit-field, and size and alignment of its type are known. */
  predicate IsMeasured(f: Field, architecture: string) {
    f.bitField == None && TypeLayout(f.fieldType, architecture).Known? && TypeLayout(f.fieldType, architecture).alignment > 0
  }

  predicate AreMeasured(fields: seq<Field>, architecture: string) {
    forall i :: 0 <= i < |fields| ==> IsMeasured(fields[i], architecture)
  }

  /** Offsets are derived, and no rounding on the way wraps. */
  ghost predicate DerivesWithoutWraps(fields: seq<Field>, pack: nat, architecture: string) {
    var d := Derive(fields, pack, architecture);
    d.Derived? && NoWraps(Slots(fields, pack, architecture), d.offsets)
  }

  /** One more field is placed without a wrap exactly when it ends within 64 bits. */
  lemma PlacesExactly(before: Derivation, f: Field, pack: nat, architecture: string)
    requires before.Derived? && IsWord(before.end) && IsMeasured(f, architecture)
    ensures var slot := SlotOf(f, pack, architecture);
      var offset := Ceiling(before.end, slot.alignment);
      && (Place(before, f, pack, architecture).Derived? && !Wraps(before.end, slot.alignment) <==> offset + slot.size < WORD)
      && (offset + slot.size < WORD ==> Place(before, f, pack, architecture) == Derived(before.offsets + [offset], offset + slot.size))
  {
    RoundsExactly(before.end, SlotOf(f, pack, architecture).alignment);
    hide TypeLayout, AlignUp, Wraps, Ceiling;
  }

  lemma NotMeasuredNotPlaced(before: Derivation, f: Field, pack: nat, architecture: string)
    ensures Place(before, f, pack, architecture).Derived? ==> before.Derived? && IsMeasured(f, architecture)
  {
    hide TypeLayout, AlignUp;
  }

  lemma NoWrapsOneMore(slots: seq<Slot>, offsets: seq<nat>)
    requires |slots| == |offsets| > 0
    ensures var n := |slots| - 1;
      NoWraps(slots, offsets) <==> NoWraps(slots[..n], offsets[..n]) && !Wraps(Start(slots[..n], offsets[..n], n), slots[n].alignment)
  {
    hide Wraps;
    var n := |slots| - 1;
    assert forall i :: 0 <= i <= n ==> Start(slots[..n], offsets[..n], i) == Start(slots, offsets, i);
    assert forall i :: 0 <= i < n ==> slots[..n][i] == slots[i];
  }

  /** All of a derivation without wraps but the last field is one too. */
  lemma DerivesOneMore(fields: seq<Field>, pack: nat, architecture: string)
    requires fields != [] && WordFields(fields) && IsWord(pack)
    ensures var n := |fields| - 1;
      var before := Derive(fields[..n], pack, architecture);
      DerivesWithoutWraps(fields, pack, architecture) <==>
        && DerivesWithoutWraps(fields[..n], pack, architecture) && Place(before, fields[n], pack, architecture).Derived?
        && !Wraps(before.end, SlotOf(fields[n], pack, architecture).alignment)
  {
    var n := |fields| - 1;
    var d, before := Derive(fields, pack, architecture), Derive(fields[..n], pack, architecture);
    NotMeasuredNotPlaced(before, fields[n], pack, architecture);
    if d.Derived? {
      DerivedIsRounded(fields[..n], pack, architecture);
      PlaceAppends(before, fields[n], pack, architecture);
      hide TypeLayout, AlignUp, Place, IsMeasured, Wraps, Start, NoWraps, IsRounded, WordType;
      var slots := Slots(fields, pack, architecture);
      assert slots[..n] == Slots(fields[..n], pack, architecture) && d.offsets[..n] == before.offsets;
      NoWrapsOneMore(slots, d.offsets);
    }
  }

  lemma PlaceAppends(before: Derivation, f: Field, pack: nat, architecture: string)
    requires before.Derived?
    ensures var d := Place(before, f, pack, architecture);
      d.Derived? ==> |d.offsets| == |before.offsets| + 1 && d.offsets[..|before.offsets|] == before.offsets
  {
    hide TypeLayout, AlignUp;
  }

  /** Derived without wraps exactly when measured and ending within 64 bits, and then as
      computed without bounds. */
  ghost predicate IsExact(fields: seq<Field>, pack: nat, architecture: string) {
    var slots := Slots(fields, pack, architecture);
    && (DerivesWithoutWraps(fields, pack, architecture) <==> AreMeasured(fields, architecture) && ExactEnd(slots) < WORD)
    && (DerivesWithoutWraps(fields, pack, architecture) ==>
          Derive(fields, pack, architecture) == Derived(ExactOffsets(slots), ExactEnd(slots)))
  }

  lemma ExactOneMore(slots: seq<Slot>)
    requires slots != []
    ensures var n := |slots| - 1;
      var offset := Ceiling(ExactEnd(slots[..n]), slots[n].alignment);
      && ExactEnd(slots) == offset + slots[n].size >= ExactEnd(slots[..n])
      && ExactOffsets(slots) == ExactOffsets(slots[..n]) + [offset]
  {
    hide Ceiling;
  }

  lemma MeasuredOneMore(fields: seq<Field>, architecture: string)
    requires fields != []
    ensures var n := |fields| - 1;
      AreMeasured(fields, architecture) <==> AreMeasured(fields[..n], architecture) && IsMeasured(fields[n], architecture)
  {
    hide IsMeasured;
  }

  lemma IsExactOneMore(fields: seq<Field>, pack: nat, architecture: string)
    requires fields != [] && WordFields(fields) && IsWord(pack) && IsExact(fields[..|fields| - 1], pack, architecture)
    ensures IsExact(fields, pack, architecture)
  {
    var n := |fields| - 1;
    assert Derive(fields, pack, architecture) == Place(Derive(fields[..n], pack, architecture), fields[n], pack, architecture);
    hide TypeLayout, AlignUp, Wraps, Ceiling, NoWraps, IsMeasured, WordType, DerivesWithoutWraps, Place, AreMeasured, Derive, ExactEnd, ExactOffsets,
         SlotOf, WordFields;
    var slots, f, before := Slots(fields, pack, architecture), fields[n], Derive(fields[..n], pack, architecture);
    assert slots[..n] == Slots(fields[..n], pack, architecture);
    DerivesOneMore(fields, pack, architecture);
    ExactOneMore(slots);
    MeasuredOneMore(fields, architecture);
    NotMeasuredNotPlaced(before, f, pack, architecture);
    if DerivesWithoutWraps(fields[..n], pack, architecture) && IsMeasured(f, architecture) {
      PlacesExactly(before, f, pack, architecture);
    }
  }

  lemma {:induction false} DerivedExactly(fields: seq<Field>, pack: nat, architecture: string)
    requires WordFields(fields) && IsWord(pack)
    ensures IsExact(fields, pack, architecture)
  {
    if fields != [] {
      DerivedExactly(fields[..|fields| - 1], pack, architecture);
      hide IsExact;
      IsExactOneMore(fields, pack, architecture);
    }
  }

  /** The program derives the layout of C exactly when all fields can be measured and
      the last one ends within 64 bits; sizes, alignments and the packing tell. */
  lemma DerivesCLayoutExactly(fields: seq<Field>, pack: nat, architecture: string)
    requires WordFields(fields) && IsWord(pack)
    ensures var d, slots := Derive(fields, pack, architecture), Slots(fields, pack, architecture);
      && (d.Derived? && IsCLayout(slots, d.offsets) <==> AreMeasured(fields, architecture) && ExactEnd(slots) < WORD)
      && (d.Derived? && IsCLayout(slots, d.offsets) ==> d.offsets == ExactOffsets(slots) && d.end == ExactEnd(slots))
  {
    DerivedExactly(fields, pack, architecture);
    hide IsCLayout, NoWraps, AreMeasured, ExactEnd, ExactOffsets;
    if Derive(fields, pack, architecture).Derived? {
      DerivesCLayout(fields, pack, architecture);
    }
  }

  /** In the layout of C fields are aligned, in order and do not overlap. */
  lemma {:induction false} CLayoutIsDisjoint(slots: seq<Slot>, offsets: seq<nat>, i: nat, j: nat)
    requires IsCLayout(slots, offsets) && i < j < |slots|
    ensures slots[i].alignment > 0 && offsets[i] % slots[i].alignment == 0
    ensures offsets[i] + slots[i].size <= offsets[j]
    decreases j - i
  {
    assert LeastMultiple(offsets[j], slots[j].alignment, Start(slots, offsets, j));
    assert LeastMultiple(offsets[i], slots[i].alignment, Start(slots, offsets, i));
    if i + 1 < j {
      CLayoutIsDisjoint(slots, offsets, i, j - 1);
    }
  }

  /** Only one layout is that of C. */
  lemma {:induction false} CLayoutIsUnique(slots: seq<Slot>, a: seq<nat>, b: seq<nat>, i: nat)
    requires IsCLayout(slots, a) && IsCLayout(slots, b) && i < |slots|
    ensures a[i] == b[i]
  {
    if i > 0 {
      CLayoutIsUnique(slots, a, b, i - 1);
    }
    assert LeastMultiple(a[i], slots[i].alignment, Start(slots, a, i));
    assert LeastMultiple(b[i], slots[i].alignment, Start(slots, b, i));
  }

  /** A type whose size and alignment are given for one architecture. */
  function GivenType(size: nat, alignment: nat): Type {
    Type(Struct, "", 0, 0, 0, None, [], [Layout("amd64", size, alignment, 0, [])])
  }

  lemma GivenTypeIs(size: nat, alignment: nat)
    requires IsWord(size) && IsWord(alignment)
    ensures WordType(GivenType(size, alignment)) && TypeLayout(GivenType(size, alignment), "amd64") == Known(size, alignment)
  {
  }

  /** When a rounding wraps, a field can land on top of the previous ones: here a
      second field starts at zero. */
  lemma WrapExample()
    ensures var a, b := Field("a", "a", GivenType(WORD - 1, 1), None), Field("b", "b", GivenType(0, 8), None);
      WordFields([a, b]) && Derive([a, b], 0, "amd64") == Derived([0, 0], 0)
  {
    GivenTypeIs(WORD - 1, 1);
    GivenTypeIs(0, 8);
    hide TypeLayout, GivenType;
    var a, b := Field("a", "a", GivenType(WORD - 1, 1), None), Field("b", "b", GivenType(0, 8), None);
    assert [a, b][..1] == [a] && [a][..0] == [];
    assert Derive([a], 0, "amd64") == Place(Derived([], 0), a, 0, "amd64") == Derived([0], WORD - 1);
  }

  /** One empty element is enough to divide by zero. */
  lemma CrashExample()
    ensures var empty := GivenType(0, 1);
      var f := Field("a", "a", Type(FixedArray, "", 0, 0, 1, Some(empty), [], []), None);
      WordFields([f]) && Derive([f], 0, "amd64") == Crashed
  {
    var empty := GivenType(0, 1);
    GivenTypeIs(0, 1);
    hide GivenType;
    var f := Field("a", "a", Type(FixedArray, "", 0, 0, 1, Some(empty), [], []), None);
    assert TypeLayout(f.fieldType, "amd64") == Panics;
    assert [f][..0] == [];
  }

  // ---- the offsets by name ----

  /** The field with this native name, by its own native name or its Go name. */
  function FindField(fields: seq<Field>, nativeName: string): Option<Field> {
    if fields == [] then None
    else
      var f := fields[0];
      var name := if f.nativeName == "" then f.name else f.nativeName;
      if name == nativeName || f.name == nativeName then Some(f) else FindField(fields[1..], nativeName)
  }

  /** Explicit offsets, under the layout's names and the model's. */
  function ExplicitOffsets(layout: seq<FieldOffset>, fields: seq<Field>): map<string, nat> {
    if layout == [] then map[]
    else
      var before, l := ExplicitOffsets(layout[..|layout| - 1], fields), layout[|layout| - 1];
      var f := FindField(fields, l.name);
      var named := before[l.name := l.offset];
      if f.Some? then named[f.value.name := l.offset] else named
  }

  /** Offsets under the fields' names; a repeated name keeps the last. */
  function ByName(fields: seq<Field>, offsets: seq<nat>): map<string, nat>
    requires |fields| == |offsets|
  {
    if fields == [] then map[]
    else
      var n := |fields| - 1;
      ByName(fields[..n], offsets[..n])[fields[n].name := offsets[n]]
  }

  lemma {:induction false} ByNameHas(fields: seq<Field>, offsets: seq<nat>, i: nat)
    requires |fields| == |offsets| && i < |fields|
    requires forall a, b :: 0 <= a < b < |fields| ==> fields[a].name != fields[b].name
    ensures fields[i].name in ByName(fields, offsets) && ByName(fields, offsets)[fields[i].name] == offsets[i]
  {
    var n := |fields| - 1;
    if i < n {
      ByNameHas(fields[..n], offsets[..n], i);
      assert fields[i].name != fields[n].name;
    }
  }

  datatype Answer = Offsets(byName: map<string, nat>) | NotKnown | DivisionByZero

  /** The offsets the verifier compares with: explicit ones, zeros for a union,
      derived ones for a struct. */
  function RecordOffsetsOf(record: Type, layout: Layout, architecture: string): Answer {
    if layout.fields != [] then Offsets(ExplicitOffsets(layout.fields, record.fields))
    else if record.kind.Union? then Offsets(ByName(record.fields, seq(|record.fields|, _ => 0)))
    else if !record.kind.Struct? then NotKnown
    else
      match Derive(record.fields, layout.pack, architecture)
      case Derived(offsets, _) => Offsets(ByName(record.fields, offsets))
      case NotDerived => NotKnown
      case Crashed => DivisionByZero
  }

  /** The offsets are derived, not given, and deriving them divides by zero. */
  ghost predicate RecordDivides(record: Type, layout: Layout, architecture: string) {
    layout.fields == [] && record.kind.Struct? && Divides(record.fields, layout.pack, architecture)
  }

  lemma RecordDividesExactly(record: Type, layout: Layout, architecture: string)
    ensures RecordOffsetsOf(record, layout, architecture).DivisionByZero? <==> RecordDivides(record, layout, architecture)
  {
    hide Derive, Divides, ByName, ExplicitOffsets;
    CrashesExactly(record.fields, layout.pack, architecture);
  }

  /** A failed beginning stays failed. */
  lemma {:induction false} DerivationStops(fields: seq<Field>, pack: nat, architecture: string, i: nat)
    requires i <= |fields| && !Derive(fields[..i], pack, architecture).Derived?
    ensures Derive(fields, pack, architecture) == Derive(fields[..i], pack, architecture)
  {
    if i == |fields| {
      assert fields[..i] == fields;
    } else {
      var before := fields[..|fields| - 1];
      assert before[..i] == fields[..i];
      DerivationStops(before, pack, architecture, i);
    }
  }

  method RecordOffsets(record: Type, layout: Layout, architecture: string) returns (r: Answer)
    ensures r == RecordOffsetsOf(record, layout, architecture)
  {
    var offsets: map<string, nat> := map[];
    for i := 0 to |layout.fields|
      invariant offsets == ExplicitOffsets(layout.fields[..i], record.fields)
    {
      var l := layout.fields[i];
      assert layout.fields[..i + 1][..i] == layout.fields[..i];
      offsets := offsets[l.name := l.offset];
      var f := FindField(record.fields, l.name);
      if f.Some? {
        offsets := offsets[f.value.name := l.offset];
      }
    }
    assert layout.fields[..|layout.fields|] == layout.fields;
    if layout.fields != [] {
      return Offsets(offsets);
    }
    if record.kind.Union? {
      offsets := map[];
      var zeros := seq(|record.fields|, _ => 0);
      for i := 0 to |record.fields|
        invariant offsets == ByName(record.fields[..i], zeros[..i])
      {
        assert record.fields[..i + 1][..i] == record.fields[..i] && zeros[..i + 1][..i] == zeros[..i];
        offsets := offsets[record.fields[i].name := 0];
      }
      assert record.fields[..|record.fields|] == record.fields && zeros[..|zeros|] == zeros;
      return Offsets(offsets);
    }
    if !record.kind.Struct? {
      return NotKnown;
    }
    r := DeriveOffsets(record.fields, layout.pack, architecture);
  }

  method DeriveOffsets(fields: seq<Field>, pack: nat, architecture: string) returns (r: Answer)
    ensures match Derive(fields, pack, architecture)
      case Derived(offsets, _) => r == Offsets(ByName(fields, offsets))
      case NotDerived => r == NotKnown
      case Crashed => r == DivisionByZero
  {
    hide TypeLayout, AlignUp;
    var byName: map<string, nat> := map[];
    var offset: nat := 0;
    ghost var offsets: seq<nat> := [];
    for i := 0 to |fields|
      invariant |offsets| == i && Derive(fields[..i], pack, architecture) == Derived(offsets, offset)
      invariant byName == ByName(fields[..i], offsets)
    {
      var f := fields[i];
      assert fields[..i + 1][..i] == fields[..i];
      if !Derive(fields[..i + 1], pack, architecture).Derived? {
        DerivationStops(fields, pack, architecture, i + 1);
      }
      if f.bitField.Some? {
        return NotKnown;
      }
      var m := TypeLayout(f.fieldType, architecture);
      if m.Panics? {
        return DivisionByZero;
      }
      if m.Unknown? || m.alignment == 0 {
        return NotKnown;
      }
      var alignment := m.alignment;
      if pack != 0 && alignment > pack {
        alignment := pack;
      }
      offset := AlignUp(offset, alignment);
      byName := byName[f.name := offset];
      if WORD - 1 - offset < m.size {
        return NotKnown;
      }
      assert (offsets + [offset])[..i] == offsets;
      offsets := offsets + [offset];
      offset := offset + m.size;
    }
    assert fields[..|fields|] == fields;
    r := Offsets(byName);
  }
}
