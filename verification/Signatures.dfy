/** Field and method signatures of ECMA-335 II.23.2: a recursive reader and the
    printer it inverts.
 */
module Signatures {
  import opened CompressedInts

  // ---- types ----

  const VOID: Byte := 0x01
  const PTR: Byte := 0x0F
  const BYREF: Byte := 0x10
  const ARRAY: Byte := 0x14
  const SZARRAY: Byte := 0x1D
  const FIELD: Byte := 0x06

  predicate IsPrimitive(e: Byte) {
    0x02 <= e <= 0x0E || e == 0x18 || e == 0x19 || e == 0x1C
  }

  predicate IsWrapper(e: Byte) {
    e == PTR || e == BYREF || e == SZARRAY
  }

  /** A value type, a class, or a type or method variable: an index follows. */
  predicate IsIndexed(e: Byte) {
    e == 0x11 || e == 0x12 || e == 0x13 || e == 0x1E
  }

  datatype TypeSig =
    | Simple(element: Byte)
    | Wrapped(element: Byte, inner: TypeSig)
    | Indexed(element: Byte, index: nat)
    | Array(inner: TypeSig, rank: nat, sizes: seq<nat>, lowerBounds: seq<int>)

  // ---- reading ----

  /** n unsigned integers in a row. */
  function UintsAt(data: seq<Byte>, off: nat, n: nat): (r: Parsed<seq<nat>>)
    requires off <= |data|
    ensures r.Parsed? ==> off <= r.next <= |data| && |r.value| == n
  {
    if n == 0 then
      Parsed([], off)
    else
      var before := UintsAt(data, off, n - 1);
      if before.Bad? then before else
      var last := UintAt(data, before.next);
      if last.Bad? then Bad(last.error) else Parsed(before.value + [last.value], last.next)
  }

  /** n signed integers in a row. */
  function IntsAt(data: seq<Byte>, off: nat, n: nat): (r: Parsed<seq<int>>)
    requires off <= |data|
    ensures r.Parsed? ==> off <= r.next <= |data| && |r.value| == n
  {
    if n == 0 then
      Parsed([], off)
    else
      var before := IntsAt(data, off, n - 1);
      if before.Bad? then before else
      var last := IntAt(data, before.next);
      if last.Bad? then Bad(last.error) else Parsed(before.value + [last.value], last.next)
  }

  datatype Shape = Shape(rank: nat, sizes: seq<nat>, lowerBounds: seq<int>)

  /** An array's rank, then its sizes and its lower bounds, each with their number. */
  function ShapeAt(data: seq<Byte>, off: nat): (r: Parsed<Shape>)
    requires off <= |data|
    ensures r.Parsed? ==> off < r.next <= |data|
  {
    var rank := UintAt(data, off);
    if rank.Bad? then Bad(rank.error) else
    var n := UintAt(data, rank.next);
    if n.Bad? then Bad(n.error) else
    if n.value > rank.value then Bad(InvalidEncoding) else
    var sizes := UintsAt(data, n.next, n.value);
    if sizes.Bad? then Bad(sizes.error) else
    var m := UintAt(data, sizes.next);
    if m.Bad? then Bad(m.error) else
    if m.value > rank.value then Bad(InvalidEncoding) else
    var bounds := IntsAt(data, m.next, m.value);
    if bounds.Bad? then Bad(bounds.error) else
    Parsed(Shape(rank.value, sizes.value, bounds.value), bounds.next)
  }

  /** A type; void only where it is allowed. */
  function TypeAt(data: seq<Byte>, off: nat, allowVoid: bool): (r: Parsed<TypeSig>)
    requires off <= |data|
    ensures r.Parsed? ==> off < r.next <= |data|
    decreases |data| - off
  {
    if off == |data| then
      Bad(Truncated)
    else
      var e := data[off];
      if e == VOID then
        if allowVoid then Parsed(Simple(e), off + 1) else Bad(InvalidEncoding)
      else if IsPrimitive(e) then
        Parsed(Simple(e), off + 1)
      else if IsWrapper(e) then
        var inner := TypeAt(data, off + 1, e == PTR);
        if inner.Bad? then Bad(inner.error) else Parsed(Wrapped(e, inner.value), inner.next)
      else if IsIndexed(e) then
        var index := UintAt(data, off + 1);
        if index.Bad? then Bad(index.error) else Parsed(Indexed(e, index.value), index.next)
      else if e == ARRAY then
        var inner := TypeAt(data, off + 1, false);
        if inner.Bad? then Bad(inner.error) else
        var shape := ShapeAt(data, inner.next);
        if shape.Bad? then Bad(shape.error) else
        Parsed(Array(inner.value, shape.value.rank, shape.value.sizes, shape.value.lowerBounds), shape.next)
      else
        Bad(InvalidEncoding)
  }

  // ---- printing ----

  /** A tree the grammar can express: elements of the right class, integers in
      range, no more sizes or bounds than the rank, void only where allowed. */
  predicate Expressible(t: TypeSig, allowVoid: bool) {
    match t
    case Simple(e) => IsPrimitive(e) || (e == VOID && allowVoid)
    case Wrapped(e, inner) => IsWrapper(e) && Expressible(inner, e == PTR)
    case Indexed(e, index) => IsIndexed(e) && index <= MAX_UINT
    case Array(inner, rank, sizes, bounds) => Expressible(inner, false) && ExpressibleShape(Shape(rank, sizes, bounds))
  }

  predicate ExpressibleShape(s: Shape) {
    && s.rank <= MAX_UINT && |s.sizes| <= s.rank && |s.lowerBounds| <= s.rank
    && (forall k :: 0 <= k < |s.sizes| ==> s.sizes[k] <= MAX_UINT)
    && (forall k :: 0 <= k < |s.lowerBounds| ==> MIN_INT <= s.lowerBounds[k] <= MAX_INT)
  }

  function PrintUints(values: seq<nat>): seq<Byte>
    requires forall k :: 0 <= k < |values| ==> values[k] <= MAX_UINT
  {
    if values == [] then [] else PrintUints(values[..|values| - 1]) + EncodeUint(values[|values| - 1])
  }

  function PrintInts(values: seq<int>): seq<Byte>
    requires forall k :: 0 <= k < |values| ==> MIN_INT <= values[k] <= MAX_INT
  {
    if values == [] then [] else PrintInts(values[..|values| - 1]) + EncodeInt(values[|values| - 1])
  }

  function PrintShape(s: Shape): seq<Byte>
    requires ExpressibleShape(s)
  {
    EncodeUint(s.rank) + (EncodeUint(|s.sizes|) + (PrintUints(s.sizes) + (EncodeUint(|s.lowerBounds|) + PrintInts(s.lowerBounds))))
  }

  function PrintType(t: TypeSig, allowVoid: bool): (s: seq<Byte>)
    requires Expressible(t, allowVoid)
  {
    match t
    case Simple(e) => [e]
    case Wrapped(e, inner) => [e] + PrintType(inner, e == PTR)
    case Indexed(e, index) => [e] + EncodeUint(index)
    case Array(inner, rank, sizes, bounds) => [ARRAY] + (PrintType(inner, false) + PrintShape(Shape(rank, sizes, bounds)))
  }

  /** No lower bound in the tree is one whose encoding the reader refuses. */
  predicate Readable(t: TypeSig) {
    match t
    case Simple(_) => true
    case Wrapped(_, inner) => Readable(inner)
    case Indexed(_, _) => true
    case Array(inner, _, _, bounds) => Readable(inner) && ReadableInts(bounds)
  }

  predicate ReadableInts(values: seq<int>) {
    forall k :: 0 <= k < |values| ==> !Refused(values[k])
  }

  // ---- reading what was printed ----

  lemma OccursSplit(data: seq<Byte>, off: nat, a: seq<Byte>, b: seq<Byte>)
    ensures Occurs(data, off, a + b) <==> Occurs(data, off, a) && Occurs(data, off + |a|, b)
  {
    if off + |a| + |b| <= |data| {
      var s := data[off..off + |a + b|];
      assert s == data[off..off + |a|] + data[off + |a|..off + |a| + |b|];
      assert s[..|a|] == data[off..off + |a|] && s[|a|..] == data[off + |a|..off + |a| + |b|];
      assert (a + b)[..|a|] == a && (a + b)[|a|..] == b;
    }
  }

  lemma OccursFits(data: seq<Byte>, off: nat, s: seq<Byte>)
    requires Occurs(data, off, s)
    ensures off + |s| <= |data|
  {
  }

  lemma {:induction false} UintsRead(data: seq<Byte>, off: nat, values: seq<nat>)
    requires off <= |data| && forall k :: 0 <= k < |values| ==> values[k] <= MAX_UINT
    requires Occurs(data, off, PrintUints(values))
    ensures UintsAt(data, off, |values|) == Parsed(values, off + |PrintUints(values)|)
  {
    hide EncodeUint, UintAt, Occurs;
    if values != [] {
      var before, last := values[..|values| - 1], values[|values| - 1];
      OccursSplit(data, off, PrintUints(before), EncodeUint(last));
      UintsRead(data, off, before);
      EncodedUintReads(data, off + |PrintUints(before)|, last);
      assert values == before + [last];
    }
  }

  lemma ReadableNone()
    ensures ReadableInts([]) && ReadableTypes([])
  {
  }

  lemma LastInt(values: seq<int>)
    requires values != []
    ensures ReadableInts(values) <==> ReadableInts(values[..|values| - 1]) && !Refused(values[|values| - 1])
  {
    hide Refused;
  }

  lemma {:induction false} IntsRead(data: seq<Byte>, off: nat, values: seq<int>)
    requires off <= |data| && forall k :: 0 <= k < |values| ==> MIN_INT <= values[k] <= MAX_INT
    requires Occurs(data, off, PrintInts(values))
    ensures IntsAt(data, off, |values|) ==
      if ReadableInts(values) then Parsed(values, off + |PrintInts(values)|) else Bad(InvalidEncoding)
  {
    hide EncodeInt, IntAt, Occurs, Refused, ReadableInts;
    ReadableNone();
    if values != [] {
      var before, last := values[..|values| - 1], values[|values| - 1];
      OccursSplit(data, off, PrintInts(before), EncodeInt(last));
      IntsRead(data, off, before);
      EncodedIntReads(data, off + |PrintInts(before)|, last);
      assert values == before + [last];
      LastInt(values);
    }
  }

  lemma ShapeReads(data: seq<Byte>, off: nat, s: Shape)
    requires off <= |data| && ExpressibleShape(s) && Occurs(data, off, PrintShape(s))
    ensures ShapeAt(data, off) ==
      if ReadableInts(s.lowerBounds) then Parsed(s, off + |PrintShape(s)|) else Bad(InvalidEncoding)
  {
    hide EncodeUint, UintAt, IntAt, UintsAt, IntsAt, Occurs, ReadableInts;
    var rank, n, sizes, m, bounds :=
      EncodeUint(s.rank), EncodeUint(|s.sizes|), PrintUints(s.sizes), EncodeUint(|s.lowerBounds|), PrintInts(s.lowerBounds);
    OccursSplit(data, off, rank, n + (sizes + (m + bounds)));
    EncodedUintReads(data, off, s.rank);
    var off1 := off + |rank|;
    OccursSplit(data, off1, n, sizes + (m + bounds));
    EncodedUintReads(data, off1, |s.sizes|);
    var off2 := off1 + |n|;
    OccursSplit(data, off2, sizes, m + bounds);
    UintsRead(data, off2, s.sizes);
    var off3 := off2 + |sizes|;
    OccursSplit(data, off3, m, bounds);
    EncodedUintReads(data, off3, |s.lowerBounds|);
    IntsRead(data, off3 + |m|, s.lowerBounds);
  }

  /** Reading a printed tree gives the tree back and stops right after it, unless
      it holds a refused bound; then reading fails. */
  lemma {:induction false} PrintedTypeReads(data: seq<Byte>, off: nat, t: TypeSig, allowVoid: bool)
    requires off <= |data| && Expressible(t, allowVoid) && Occurs(data, off, PrintType(t, allowVoid))
    ensures TypeAt(data, off, allowVoid) ==
      if Readable(t) then Parsed(t, off + |PrintType(t, allowVoid)|) else Bad(InvalidEncoding)
    decreases t
  {
    hide Occurs, ShapeAt, EncodeUint, UintAt, PrintShape, ExpressibleShape, ReadableInts, TypeAt;
    match t
    case Simple(e) =>
      assert [e] + [] == [e];
      FirstByte(data, off, e, []);
      SimpleReads(data, off, allowVoid);
    case Wrapped(e, inner) =>
      FirstByte(data, off, e, PrintType(inner, e == PTR));
      PrintedTypeReads(data, off + 1, inner, e == PTR);
      WrappedReads(data, off, allowVoid);
    case Indexed(e, index) =>
      FirstByte(data, off, e, EncodeUint(index));
      EncodedUintReads(data, off + 1, index);
      IndexedReads(data, off, allowVoid);
    case Array(inner, rank, sizes, bounds) =>
      var s := Shape(rank, sizes, bounds);
      var p := PrintType(inner, false);
      FirstByte(data, off, ARRAY, p + PrintShape(s));
      OccursSplit(data, off + 1, p, PrintShape(s));
      OccursFits(data, off + 1, p);
      PrintedTypeReads(data, off + 1, inner, false);
      ShapeReads(data, off + 1 + |p|, s);
      ArrayReads(data, off, inner, s, p, allowVoid);
  }

  /** What reading does at each kind of element. */
  lemma SimpleReads(data: seq<Byte>, off: nat, allowVoid: bool)
    requires off < |data| && (IsPrimitive(data[off]) || (data[off] == VOID && allowVoid))
    ensures TypeAt(data, off, allowVoid) == Parsed(Simple(data[off]), off + 1)
  {
  }

  lemma WrappedReads(data: seq<Byte>, off: nat, allowVoid: bool)
    requires off < |data| && IsWrapper(data[off])
    ensures var inner := TypeAt(data, off + 1, data[off] == PTR);
      TypeAt(data, off, allowVoid) == if inner.Bad? then Bad(inner.error) else Parsed(Wrapped(data[off], inner.value), inner.next)
  {
  }

  lemma IndexedReads(data: seq<Byte>, off: nat, allowVoid: bool)
    requires off < |data| && IsIndexed(data[off])
    ensures var index := UintAt(data, off + 1);
      TypeAt(data, off, allowVoid) == if index.Bad? then Bad(index.error) else Parsed(Indexed(data[off], index.value), index.next)
  {
  }

  /** How the parts of an array make the whole. */
  lemma ArrayReads(data: seq<Byte>, off: nat, inner: TypeSig, s: Shape, p: seq<Byte>, allowVoid: bool)
    requires off + 1 + |p| <= |data| && data[off] == ARRAY
    requires TypeAt(data, off + 1, false) == if Readable(inner) then Parsed(inner, off + 1 + |p|) else Bad(InvalidEncoding)
    requires ExpressibleShape(s)
    requires ShapeAt(data, off + 1 + |p|) ==
      if ReadableInts(s.lowerBounds) then Parsed(s, off + 1 + |p| + |PrintShape(s)|) else Bad(InvalidEncoding)
    ensures TypeAt(data, off, allowVoid) ==
      if Readable(inner) && ReadableInts(s.lowerBounds) then
        Parsed(Array(inner, s.rank, s.sizes, s.lowerBounds), off + |[ARRAY] + (p + PrintShape(s))|)
      else
        Bad(InvalidEncoding)
  {
    hide ShapeAt, Readable, ReadableInts, PrintShape, ExpressibleShape;
  }

  lemma FirstByte(data: seq<Byte>, off: nat, e: Byte, rest: seq<Byte>)
    requires Occurs(data, off, [e] + rest)
    ensures off < |data| && data[off] == e && Occurs(data, off + 1, rest)
  {
    OccursSplit(data, off, [e], rest);
    OccursAt(data, off, [e]);
  }

  // ---- printing what was read ----

  /** None of the n signed integers takes more bytes than it needs. */
  predicate TightInts(data: seq<Byte>, off: nat, n: nat)
    requires off <= |data|
  {
    n == 0 || (TightInts(data, off, n - 1) && TightNext(data, IntsAt(data, off, n - 1)))
  }

  /** Nor does the one after those that were read. */
  predicate TightNext(data: seq<Byte>, before: Parsed<seq<int>>) {
    before.Parsed? && IntAt(data, before.next).Parsed? ==>
      !Overlong(IntAt(data, before.next).value, IntAt(data, before.next).next - before.next)
  }

  /** None of an array's lower bounds takes more bytes than it needs. */
  predicate TightShape(data: seq<Byte>, off: nat)
    requires off <= |data|
  {
    ShapeAt(data, off).Parsed? ==>
      var n := UintAt(data, UintAt(data, off).next);
      var m := UintAt(data, UintsAt(data, n.next, n.value).next);
      TightInts(data, m.next, m.value)
  }

  /** None of the lower bounds in a type takes more bytes than it needs. */
  predicate TightType(data: seq<Byte>, off: nat, allowVoid: bool)
    requires off <= |data|
    decreases |data| - off
  {
    off < |data| ==>
      if IsWrapper(data[off]) then TightType(data, off + 1, data[off] == PTR)
      else if data[off] == ARRAY then
        var inner := TypeAt(data, off + 1, false);
        inner.Parsed? ==> TightType(data, off + 1, false) && TightShape(data, inner.next)
      else true
  }

  lemma {:induction false} ReadUintsArePrinted(data: seq<Byte>, off: nat, n: nat)
    requires off <= |data| && UintsAt(data, off, n).Parsed?
    ensures var r := UintsAt(data, off, n);
      && (forall k :: 0 <= k < n ==> r.value[k] <= MAX_UINT)
      && Occurs(data, off, PrintUints(r.value)) && r.next == off + |PrintUints(r.value)|
  {
    hide EncodeUint, Occurs;
    if n == 0 {
      NothingOccurs(data, off);
    } else {
      var r, before := UintsAt(data, off, n), UintsAt(data, off, n - 1);
      ReadUintsArePrinted(data, off, n - 1);
      ReadUintIsEncoded(data, before.next);
      assert r.value[..n - 1] == before.value;
      OccursSplit(data, off, PrintUints(before.value), EncodeUint(r.value[n - 1]));
    }
  }

  lemma NothingOccurs(data: seq<Byte>, off: nat)
    requires off <= |data|
    ensures Occurs(data, off, [])
  {
  }

  lemma {:induction false} ReadIntsArePrinted(data: seq<Byte>, off: nat, n: nat)
    requires off <= |data| && IntsAt(data, off, n).Parsed?
    ensures var r := IntsAt(data, off, n);
      && (forall k :: 0 <= k < n ==> MIN_INT <= r.value[k] <= MAX_INT)
      && (TightInts(data, off, n) <==> Occurs(data, off, PrintInts(r.value)))
      && (Occurs(data, off, PrintInts(r.value)) ==> r.next == off + |PrintInts(r.value)|)
  {
    hide EncodeInt, Occurs, IntAt, Overlong;
    if n == 0 {
      NothingOccurs(data, off);
    } else {
      var r, before := IntsAt(data, off, n), IntsAt(data, off, n - 1);
      ReadIntsArePrinted(data, off, n - 1);
      assert r.value[..n - 1] == before.value;
      OccursSplit(data, off, PrintInts(before.value), EncodeInt(r.value[n - 1]));
      ReadIntIsEncoded(data, before.next);
      if Occurs(data, off, PrintInts(r.value)) {
        EncodedIntReads(data, before.next, r.value[n - 1]);
      }
    }
  }

  /** Up to the lower bounds a shape that is read was printed so. */
  lemma ReadShapeIsPrinted(data: seq<Byte>, off: nat)
    requires off <= |data| && ShapeAt(data, off).Parsed?
    ensures var r := ShapeAt(data, off);
      && ExpressibleShape(r.value)
      && (TightShape(data, off) <==> Occurs(data, off, PrintShape(r.value)))
      && (Occurs(data, off, PrintShape(r.value)) ==> r.next == off + |PrintShape(r.value)|)
  {
    hide EncodeUint, Occurs, UintAt, IntAt, UintsAt, IntsAt, TightInts, PrintUints, PrintInts;
    var r := ShapeAt(data, off);
    var s := r.value;
    var rank := UintAt(data, off);
    var n := UintAt(data, rank.next);
    var sizes := UintsAt(data, n.next, n.value);
    var m := UintAt(data, sizes.next);
    ReadUintIsEncoded(data, off);
    ReadUintIsEncoded(data, rank.next);
    ReadUintsArePrinted(data, n.next, n.value);
    ReadUintIsEncoded(data, sizes.next);
    ReadIntsArePrinted(data, m.next, m.value);
    var a, b, c, d, e :=
      EncodeUint(s.rank), EncodeUint(|s.sizes|), PrintUints(s.sizes), EncodeUint(|s.lowerBounds|), PrintInts(s.lowerBounds);
    OccursSplit(data, sizes.next, d, e);
    OccursSplit(data, n.next, c, d + e);
    OccursSplit(data, rank.next, b, c + (d + e));
    OccursSplit(data, off, a, b + (c + (d + e)));
  }

  /** Whatever is read can be expressed; the input was its printed form exactly when no
      bound in it takes more bytes than it needs. */
  lemma {:induction false} ReadTypeIsPrinted(data: seq<Byte>, off: nat, allowVoid: bool)
    requires off <= |data| && TypeAt(data, off, allowVoid).Parsed?
    ensures var r := TypeAt(data, off, allowVoid);
      && Expressible(r.value, allowVoid)
      && (TightType(data, off, allowVoid) <==> Occurs(data, off, PrintType(r.value, allowVoid)))
      && (Occurs(data, off, PrintType(r.value, allowVoid)) ==> r.next == off + |PrintType(r.value, allowVoid)|)
    decreases |data| - off
  {
    hide Occurs, ShapeAt, EncodeUint, UintAt, PrintShape, ExpressibleShape, TightShape;
    var e := data[off];
    var r := TypeAt(data, off, allowVoid);
    match r.value
    case Simple(_) =>
      assert [e] + [] == [e];
      NothingOccurs(data, off + 1);
      FirstByteIs(data, off, []);
    case Wrapped(_, inner) =>
      ReadTypeIsPrinted(data, off + 1, e == PTR);
      FirstByteIs(data, off, PrintType(inner, e == PTR));
    case Indexed(_, index) =>
      ReadUintIsEncoded(data, off + 1);
      FirstByteIs(data, off, EncodeUint(index));
    case Array(inner, rank, sizes, bounds) =>
      ReadTypeIsPrinted(data, off + 1, false);
      ReadShapeIsPrinted(data, TypeAt(data, off + 1, false).next);
      var s := Shape(rank, sizes, bounds);
      var p := PrintType(inner, false);
      OccursSplit(data, off + 1, p, PrintShape(s));
      FirstByteIs(data, off, p + PrintShape(s));
  }

  lemma FirstByteIs(data: seq<Byte>, off: nat, rest: seq<Byte>)
    requires off < |data|
    ensures Occurs(data, off + 1, rest) <==> Occurs(data, off, [data[off]] + rest)
  {
    OccursSplit(data, off, [data[off]], rest);
    assert data[off..off + 1] == [data[off]];
  }

  // ---- field signatures ----

  /** A whole blob: the field prefix, a type, nothing after it. */
  function FieldOf(blob: seq<Byte>): Result<TypeSig> {
    if |blob| == 0 then Err(Truncated)
    else if blob[0] != FIELD then Err(InvalidEncoding)
    else
      var t := TypeAt(blob, 1, false);
      if t.Bad? then Err(t.error)
      else if t.next != |blob| then Err(InvalidEncoding)
      else Ok(t.value)
  }

  function PrintField(t: TypeSig): seq<Byte>
    requires Expressible(t, false)
  {
    [FIELD] + PrintType(t, false)
  }

  lemma WholeOccurs(blob: seq<Byte>)
    ensures Occurs(blob, 0, blob)
  {
    assert blob[0..|blob|] == blob;
  }

  lemma OccursWhole(blob: seq<Byte>, s: seq<Byte>)
    requires Occurs(blob, 0, s) && |s| == |blob|
    ensures blob == s
  {
    assert blob[0..|blob|] == blob;
  }

  /** A printed field signature is read back as the same tree, unless it has a
      refused bound. */
  lemma PrintedFieldReads(t: TypeSig)
    requires Expressible(t, false)
    ensures FieldOf(PrintField(t)) == if Readable(t) then Ok(t) else Err(InvalidEncoding)
  {
    var blob := PrintField(t);
    WholeOccurs(blob);
    FirstByte(blob, 0, FIELD, PrintType(t, false));
    PrintedTypeReads(blob, 1, t, false);
  }

  /** A field signature that is read was printed so exactly when no bound in it takes
      more bytes than it needs. */
  lemma ReadFieldIsPrinted(blob: seq<Byte>)
    requires FieldOf(blob).Ok?
    ensures var t := FieldOf(blob).value;
      Expressible(t, false) && (blob == PrintField(t) <==> TightType(blob, 1, false))
  {
    ReadTypeIsPrinted(blob, 1, false);
    var t := FieldOf(blob).value;
    FirstByteIs(blob, 0, PrintType(t, false));
    WholeOccurs(blob);
    if TightType(blob, 1, false) {
      OccursWhole(blob, PrintField(t));
    }
  }

  /** With a negative bound the input need not be what is printed: here minus one
      takes two bytes. */
  lemma OverlongFieldExample()
    ensures FieldOf([FIELD, ARRAY, 0x08, 0x01, 0x00, 0x01, 0xBF, 0xFF]) == Ok(Array(Simple(0x08), 1, [], [-1]))
    ensures |PrintField(Array(Simple(0x08), 1, [], [-1]))| == 7
  {
    var blob := [FIELD, ARRAY, 0x08, 0x01, 0x00, 0x01, 0xBF, 0xFF];
    OverlongReads(blob);
    OverlongPrints();
    assert TypeAt(blob, 2, false) == Parsed(Simple(0x08), 3);
    assert TypeAt(blob, 1, false) == Parsed(Array(Simple(0x08), 1, [], [-1]), 8);
  }

  lemma OverlongReads(blob: seq<Byte>)
    requires blob == [FIELD, ARRAY, 0x08, 0x01, 0x00, 0x01, 0xBF, 0xFF]
    ensures ShapeAt(blob, 3) == Parsed(Shape(1, [], [-1]), 8)
  {
    assert UintAt(blob, 3) == Parsed(1, 4) && UintAt(blob, 4) == Parsed(0, 5) && UintAt(blob, 5) == Parsed(1, 6);
    assert IntAt(blob, 6) == Parsed(-1, 8);
    hide UintAt, IntAt;
    assert IntsAt(blob, 6, 0) == Parsed([], 6);
    assert [] + [-1] == [-1];
    assert IntsAt(blob, 6, 1) == Parsed([-1], 8);
    assert UintsAt(blob, 5, 0) == Parsed([], 5);
  }

  lemma OverlongPrints()
    ensures PrintShape(Shape(1, [], [-1])) == [0x01, 0x00, 0x01, 0x7F]
  {
    assert [-1][..0] == [] && PrintInts([]) == [] && EncodeInt(-1) == [0x7F];
    assert PrintInts([-1]) == [0x7F];
    assert PrintUints([]) == [];
    assert EncodeUint(1) == [0x01] && EncodeUint(0) == [0x00];
  }

  // ---- method signatures ----

  datatype MethodSig = MethodSig(convention: Byte, hasThis: bool, explicitThis: bool, varArgs: bool, genericArity: nat,
                                 returns_: TypeSig, parameters: seq<TypeSig>)

  function TypesAt(data: seq<Byte>, off: nat, n: nat): (r: Parsed<seq<TypeSig>>)
    requires off <= |data|
    ensures r.Parsed? ==> off <= r.next <= |data| && |r.value| == n
  {
    if n == 0 then
      Parsed([], off)
    else
      var before := TypesAt(data, off, n - 1);
      if before.Bad? then before else
      var last := TypeAt(data, before.next, false);
      if last.Bad? then Bad(last.error) else Parsed(before.value + [last.value], last.next)
  }

  predicate Bit(b: Byte, weight: int)
    requires weight > 0
  {
    b / weight % 2 == 1
  }

  /** The generic arity, present only when its flag is set. */
  function ArityAt(blob: seq<Byte>): (r: Parsed<nat>)
    requires |blob| > 0
    ensures r.Parsed? ==> 1 <= r.next <= |blob|
  {
    if Bit(blob[0], 0x10) then UintAt(blob, 1) else Parsed(0, 1)
  }

  /** A whole blob: flags, generic arity, parameter count, return type and
      parameter types, nothing after them. */
  function MethodOf(blob: seq<Byte>): Result<MethodSig> {
    if |blob| == 0 then Err(Truncated) else
    var cc := blob[0];
    if cc % 0x10 > 5 then Err(InvalidEncoding) else
    var arity := ArityAt(blob);
    if arity.Bad? then Err(arity.error) else
    var count := UintAt(blob, arity.next);
    if count.Bad? then Err(count.error) else
    var ret := TypeAt(blob, count.next, true);
    if ret.Bad? then Err(ret.error) else
    if count.value > |blob| - ret.next + 1 then Err(Truncated) else
    var params := TypesAt(blob, ret.next, count.value);
    if params.Bad? then Err(params.error) else
    if params.next != |blob| then Err(InvalidEncoding) else
    Ok(MethodSig(cc % 0x10, Bit(cc, 0x20), Bit(cc, 0x40), cc % 0x10 == 5, arity.value, ret.value, params.value))
  }

  predicate ExpressibleMethod(m: MethodSig) {
    && m.convention <= 5 && m.varArgs == (m.convention == 5) && m.genericArity <= MAX_UINT
    && |m.parameters| <= MAX_UINT && Expressible(m.returns_, true) && ExpressibleTypes(m.parameters)
  }

  predicate ExpressibleTypes(types: seq<TypeSig>) {
    forall k :: 0 <= k < |types| ==> Expressible(types[k], false)
  }

  function PrintTypes(types: seq<TypeSig>): seq<Byte>
    requires ExpressibleTypes(types)
  {
    if types == [] then [] else PrintTypes(types[..|types| - 1]) + PrintType(types[|types| - 1], false)
  }

  function Flags(m: MethodSig): Byte
    requires ExpressibleMethod(m)
  {
    m.convention + (if m.genericArity > 0 then 0x10 else 0) + (if m.hasThis then 0x20 else 0) + (if m.explicitThis then 0x40 else 0)
  }

  function PrintArity(arity: nat): seq<Byte>
    requires arity <= MAX_UINT
  {
    if arity > 0 then EncodeUint(arity) else []
  }

  function PrintMethod(m: MethodSig): seq<Byte>
    requires ExpressibleMethod(m)
  {
    [Flags(m)] + (PrintArity(m.genericArity) + (EncodeUint(|m.parameters|) + (PrintType(m.returns_, true) + PrintTypes(m.parameters))))
  }

  predicate ReadableTypes(types: seq<TypeSig>) {
    forall k :: 0 <= k < |types| ==> Readable(types[k])
  }

  lemma LastType(types: seq<TypeSig>)
    requires types != []
    ensures ReadableTypes(types) <==> ReadableTypes(types[..|types| - 1]) && Readable(types[|types| - 1])
    ensures ExpressibleTypes(types) <==> ExpressibleTypes(types[..|types| - 1]) && Expressible(types[|types| - 1], false)
  {
    hide Readable, Expressible;
  }

  lemma {:induction false} PrintedTypesRead(data: seq<Byte>, off: nat, types: seq<TypeSig>)
    requires off <= |data| && ExpressibleTypes(types) && Occurs(data, off, PrintTypes(types))
    ensures TypesAt(data, off, |types|) ==
      if ReadableTypes(types) then Parsed(types, off + |PrintTypes(types)|) else Bad(InvalidEncoding)
    ensures |PrintTypes(types)| >= |types|
  {
    hide Occurs, TypeAt, PrintType, Readable, Expressible, ReadableTypes, ExpressibleTypes;
    ReadableNone();
    if types != [] {
      LastType(types);
      var before, last := types[..|types| - 1], types[|types| - 1];
      OccursSplit(data, off, PrintTypes(before), PrintType(last, false));
      PrintedTypesRead(data, off, before);
      OccursFits(data, off, PrintTypes(before));
      PrintedTypeReads(data, off + |PrintTypes(before)|, last, false);
      PrintTypeNotEmpty(last, false);
      assert types == before + [last];
    }
  }

  lemma PrintTypeNotEmpty(t: TypeSig, allowVoid: bool)
    requires Expressible(t, allowVoid)
    ensures |PrintType(t, allowVoid)| > 0
  {
  }

  lemma FlagsRead(m: MethodSig)
    requires ExpressibleMethod(m)
    ensures var cc := Flags(m);
      && cc < 0x80 && cc % 0x10 == m.convention && Bit(cc, 0x10) == (m.genericArity > 0)
      && Bit(cc, 0x20) == m.hasThis && Bit(cc, 0x40) == m.explicitThis
  {
  }

  /** How the parts of a method signature make the whole. */
  lemma MethodReads(blob: seq<Byte>, m: MethodSig, off1: nat, off2: nat, off3: nat)
    requires ExpressibleMethod(m) && |blob| > 0 && blob[0] == Flags(m) && off2 <= |blob| && off3 <= |blob|
    requires ArityAt(blob) == Parsed(m.genericArity, off1) && UintAt(blob, off1) == Parsed(|m.parameters|, off2)
    requires |m.parameters| <= |blob| - off3
    requires TypeAt(blob, off2, true) == if Readable(m.returns_) then Parsed(m.returns_, off3) else Bad(InvalidEncoding)
    requires TypesAt(blob, off3, |m.parameters|) ==
      if ReadableTypes(m.parameters) then Parsed(m.parameters, |blob|) else Bad(InvalidEncoding)
    ensures MethodOf(blob) ==
      if Readable(m.returns_) && ReadableTypes(m.parameters) then Ok(m) else Err(InvalidEncoding)
  {
    FlagsRead(m);
    hide TypeAt, TypesAt, UintAt, ArityAt, Readable, ReadableTypes, Expressible, ExpressibleTypes, Flags, Bit;
  }

  /** A printed method signature is read back as the same signature, unless it has
      a refused bound. */
  lemma PrintedMethodReads(m: MethodSig)
    requires ExpressibleMethod(m)
    ensures MethodOf(PrintMethod(m)) ==
      if Readable(m.returns_) && ReadableTypes(m.parameters) then Ok(m) else Err(InvalidEncoding)
  {
    hide Occurs, TypeAt, TypesAt, EncodeUint, UintAt, Expressible, ExpressibleTypes, Readable, ReadableTypes, PrintType, PrintTypes, Flags, Bit,
         MethodOf;
    var blob := PrintMethod(m);
    FlagsRead(m);
    WholeOccurs(blob);
    var arity, count, ret, params :=
      PrintArity(m.genericArity), EncodeUint(|m.parameters|), PrintType(m.returns_, true), PrintTypes(m.parameters);
    FirstByte(blob, 0, Flags(m), arity + (count + (ret + params)));
    OccursSplit(blob, 1, arity, count + (ret + params));
    if m.genericArity > 0 {
      EncodedUintReads(blob, 1, m.genericArity);
    }
    var off1 := 1 + |arity|;
    OccursSplit(blob, off1, count, ret + params);
    EncodedUintReads(blob, off1, |m.parameters|);
    var off2 := off1 + |count|;
    OccursSplit(blob, off2, ret, params);
    OccursFits(blob, off2, ret);
    PrintedTypeReads(blob, off2, m.returns_, true);
    PrintedTypesRead(blob, off2 + |ret|, m.parameters);
    OccursFits(blob, off2 + |ret|, params);
    MethodReads(blob, m, off1, off2, off2 + |ret|);
  }

  predicate TightTypes(data: seq<Byte>, off: nat, n: nat)
    requires off <= |data|
  {
    n == 0 || (TightTypes(data, off, n - 1)
               && (TypesAt(data, off, n - 1).Parsed? ==> TightType(data, TypesAt(data, off, n - 1).next, false)))
  }

  lemma {:induction false} ReadTypesArePrinted(data: seq<Byte>, off: nat, n: nat)
    requires off <= |data| && TypesAt(data, off, n).Parsed?
    ensures var r := TypesAt(data, off, n);
      && ExpressibleTypes(r.value)
      && (TightTypes(data, off, n) <==> Occurs(data, off, PrintTypes(r.value)))
      && (Occurs(data, off, PrintTypes(r.value)) ==> r.next == off + |PrintTypes(r.value)|)
  {
    hide Occurs, TypeAt, PrintType, TightType, Expressible;
    if n == 0 {
      NothingOccurs(data, off);
    } else {
      var r, before := TypesAt(data, off, n), TypesAt(data, off, n - 1);
      ReadTypesArePrinted(data, off, n - 1);
      ReadTypeIsPrinted(data, before.next, false);
      assert r.value[..n - 1] == before.value;
      OccursSplit(data, off, PrintTypes(before.value), PrintType(r.value[n - 1], false));
    }
  }

  /** None of the lower bounds in a method signature takes more bytes than it needs. */
  predicate TightMethod(blob: seq<Byte>) {
    MethodOf(blob).Ok? ==>
      var count := UintAt(blob, ArityAt(blob).next);
      TightType(blob, count.next, true) && TightTypes(blob, TypeAt(blob, count.next, true).next, count.value)
  }

  lemma FlagsOf(cc: Byte, m: MethodSig)
    requires ExpressibleMethod(m) && cc < 0x80 && m.convention == cc % 0x10
    requires m.hasThis == Bit(cc, 0x20) && m.explicitThis == Bit(cc, 0x40) && (m.genericArity > 0) == Bit(cc, 0x10)
    ensures Flags(m) == cc
  {
  }

  lemma MethodOccurs(blob: seq<Byte>, m: MethodSig)
    requires MethodOf(blob) == Ok(m) && ExpressibleMethod(m) && Flags(m) == blob[0]
    requires Bit(blob[0], 0x10) <==> m.genericArity > 0
    ensures blob == PrintMethod(m) <==> TightMethod(blob)
  {
    hide Occurs, TypeAt, TypesAt, EncodeUint, UintAt, Expressible, ExpressibleTypes, PrintType, PrintTypes, Flags, Bit, TightType, TightTypes;
    var arity := ArityAt(blob);
    var count := UintAt(blob, arity.next);
    var ret := TypeAt(blob, count.next, true);
    if Bit(blob[0], 0x10) {
      ReadUintIsEncoded(blob, 1);
    } else {
      NothingOccurs(blob, 1);
    }
    ReadUintIsEncoded(blob, arity.next);
    ReadTypeIsPrinted(blob, count.next, true);
    ReadTypesArePrinted(blob, ret.next, count.value);
    var a, b, c, d := PrintArity(m.genericArity), EncodeUint(|m.parameters|), PrintType(m.returns_, true), PrintTypes(m.parameters);
    OccursSplit(blob, count.next, c, d);
    OccursSplit(blob, arity.next, b, c + d);
    OccursSplit(blob, 1, a, b + (c + d));
    FirstByteIs(blob, 0, a + (b + (c + d)));
    WholeOccurs(blob);
    if TightMethod(blob) {
      OccursWhole(blob, PrintMethod(m));
    }
  }

  /** A method signature that is read was printed so exactly when its top flag is clear,
      a flagged generic arity is not zero, and no bound in it takes more bytes than it
      needs. */
  lemma ReadMethodIsPrinted(blob: seq<Byte>)
    requires MethodOf(blob).Ok?
    ensures var m := MethodOf(blob).value;
      && ExpressibleMethod(m)
      && (blob == PrintMethod(m) <==> blob[0] < 0x80 && (Bit(blob[0], 0x10) ==> m.genericArity > 0) && TightMethod(blob))
  {
    var m := MethodOf(blob).value;
    var arity := ArityAt(blob);
    var count := UintAt(blob, arity.next);
    var ret := TypeAt(blob, count.next, true);
    if Bit(blob[0], 0x10) {
      ReadUintIsEncoded(blob, 1);
    }
    ReadUintIsEncoded(blob, arity.next);
    ReadTypeIsPrinted(blob, count.next, true);
    ReadTypesArePrinted(blob, ret.next, count.value);
    assert ExpressibleMethod(m);
    FlagsRead(m);
    hide MethodOf, TightMethod, ExpressibleMethod, PrintMethod, Flags, TypeAt, TypesAt, UintAt, ArityAt;
    FirstIsFlags(m);
    if blob[0] < 0x80 && (Bit(blob[0], 0x10) ==> m.genericArity > 0) {
      FlagsOf(blob[0], m);
      MethodOccurs(blob, m);
    }
  }

  lemma FirstIsFlags(m: MethodSig)
    requires ExpressibleMethod(m)
    ensures |PrintMethod(m)| > 0 && PrintMethod(m)[0] == Flags(m)
  {
  }

  /** The top flag is not recorded: with it and without it, the method without
      parameters that returns nothing reads the same. */
  lemma TopFlagExample()
    ensures MethodOf([0x80, 0x00, VOID]) == MethodOf([0x00, 0x00, VOID]) == Ok(NoParameters())
  {
    ShortMethodReads(0x80);
    ShortMethodReads(0x00);
  }

  /** Nor is a flagged generic arity of zero. */
  lemma ZeroArityExample()
    ensures MethodOf([0x10, 0x00, 0x00, VOID]) == MethodOf([0x00, 0x00, VOID]) == Ok(NoParameters())
  {
    ShortMethodReads(0x00);
    var blob := [0x10, 0x00, 0x00, VOID];
    assert UintAt(blob, 1) == Parsed(0, 2) && UintAt(blob, 2) == Parsed(0, 3);
    assert TypeAt(blob, 3, true) == Parsed(Simple(VOID), 4);
    assert TypesAt(blob, 4, 0) == Parsed([], 4);
  }

  function NoParameters(): MethodSig {
    MethodSig(0, false, false, false, 0, Simple(VOID), [])
  }

  lemma ShortMethodReads(flags: Byte)
    requires flags == 0x80 || flags == 0x00
    ensures MethodOf([flags, 0x00, VOID]) == Ok(NoParameters())
  {
    var blob := [flags, 0x00, VOID];
    assert UintAt(blob, 1) == Parsed(0, 2);
    assert TypeAt(blob, 2, true) == Parsed(Simple(VOID), 3);
    assert TypesAt(blob, 3, 0) == Parsed([], 3);
  }

  // ---- the recursive reader ----

  method ParseUints(r: Reader, n: nat) returns (res: Result<seq<nat>>)
    requires 0 <= r.off <= |r.data|
    modifies r
    ensures old(r.off) <= r.off <= |r.data|
    ensures Agrees(res, UintsAt(r.data, old(r.off), n), r.off)
  {
    hide UintAt;
    ghost var start := r.off;
    var values: seq<nat> := [];
    for i := 0 to n
      invariant start <= r.off <= |r.data|
      invariant UintsAt(r.data, start, i) == Parsed(values, r.off)
    {
      var v := r.ReadUint();
      if v.Err? {
        UintsStop(r.data, start, i + 1, n);
        return Err(v.error);
      }
      values := values + [v.value];
    }
    res := Ok(values);
  }

  /** A list fails where one of its beginnings fails. */
  lemma {:induction false} UintsStop(data: seq<Byte>, off: nat, i: nat, n: nat)
    requires off <= |data| && i <= n && UintsAt(data, off, i).Bad?
    ensures UintsAt(data, off, n) == UintsAt(data, off, i)
  {
    if i < n {
      UintsStop(data, off, i, n - 1);
    }
  }

  method ParseInts(r: Reader, n: nat) returns (res: Result<seq<int>>)
    requires 0 <= r.off <= |r.data|
    modifies r
    ensures old(r.off) <= r.off <= |r.data|
    ensures Agrees(res, IntsAt(r.data, old(r.off), n), r.off)
  {
    hide IntAt;
    ghost var start := r.off;
    var values: seq<int> := [];
    for i := 0 to n
      invariant start <= r.off <= |r.data|
      invariant IntsAt(r.data, start, i) == Parsed(values, r.off)
    {
      var v := r.ReadInt();
      if v.Err? {
        IntsStop(r.data, start, i + 1, n);
        return Err(v.error);
      }
      values := values + [v.value];
    }
    res := Ok(values);
  }

  lemma {:induction false} IntsStop(data: seq<Byte>, off: nat, i: nat, n: nat)
    requires off <= |data| && i <= n && IntsAt(data, off, i).Bad?
    ensures IntsAt(data, off, n) == IntsAt(data, off, i)
  {
    if i < n {
      IntsStop(data, off, i, n - 1);
    }
  }

  method ParseShape(r: Reader) returns (res: Result<Shape>)
    requires 0 <= r.off <= |r.data|
    modifies r
    ensures old(r.off) <= r.off <= |r.data|
    ensures Agrees(res, ShapeAt(r.data, old(r.off)), r.off)
  {
    hide UintAt, UintsAt, IntsAt;
    var rank := r.ReadUint();
    if rank.Err? {
      return Err(rank.error);
    }
    var n := r.ReadUint();
    if n.Err? {
      return Err(n.error);
    }
    if n.value > rank.value {
      return Err(InvalidEncoding);
    }
    var sizes := ParseUints(r, n.value);
    if sizes.Err? {
      return Err(sizes.error);
    }
    var m := r.ReadUint();
    if m.Err? {
      return Err(m.error);
    }
    if m.value > rank.value {
      return Err(InvalidEncoding);
    }
    var bounds := ParseInts(r, m.value);
    if bounds.Err? {
      return Err(bounds.error);
    }
    return Ok(Shape(rank.value, sizes.value, bounds.value));
  }

  /** Reads a type, recursing on what is left; the cursor never passes the end. */
  method ParseType(r: Reader, allowVoid: bool) returns (res: Result<TypeSig>)
    requires 0 <= r.off <= |r.data|
    modifies r
    ensures old(r.off) <= r.off <= |r.data|
    ensures Agrees(res, TypeAt(r.data, old(r.off), allowVoid), r.off)
    decreases |r.data| - r.off
  {
    hide UintAt, ShapeAt;
    var b := r.ReadByte();
    if b.Err? {
      return Err(b.error);
    }
    var e := b.value;
    if e == VOID {
      return if allowVoid then Ok(Simple(e)) else Err(InvalidEncoding);
    } else if IsPrimitive(e) {
      return Ok(Simple(e));
    } else if IsWrapper(e) {
      var inner := ParseType(r, e == PTR);
      return if inner.Err? then Err(inner.error) else Ok(Wrapped(e, inner.value));
    } else if IsIndexed(e) {
      var index := r.ReadUint();
      return if index.Err? then Err(index.error) else Ok(Indexed(e, index.value));
    } else if e == ARRAY {
      var inner := ParseType(r, false);
      if inner.Err? {
        return Err(inner.error);
      }
      var shape := ParseShape(r);
      if shape.Err? {
        return Err(shape.error);
      }
      return Ok(Array(inner.value, shape.value.rank, shape.value.sizes, shape.value.lowerBounds));
    } else {
      return Err(InvalidEncoding);
    }
  }

  method ParseFieldSignature(blob: seq<Byte>) returns (res: Result<TypeSig>)
    ensures res == FieldOf(blob)
  {
    hide TypeAt;
    var r := new Reader(blob);
    var b := r.ReadByte();
    if b.Err? {
      return Err(b.error);
    }
    if b.value != FIELD {
      return Err(InvalidEncoding);
    }
    res := ParseType(r, false);
    if res.Ok? && r.Remaining() != 0 {
      res := Err(InvalidEncoding);
    }
  }

  method ParseTypes(r: Reader, n: nat) returns (res: Result<seq<TypeSig>>)
    requires 0 <= r.off <= |r.data|
    modifies r
    ensures old(r.off) <= r.off <= |r.data|
    ensures Agrees(res, TypesAt(r.data, old(r.off), n), r.off)
  {
    hide TypeAt;
    ghost var start := r.off;
    var values: seq<TypeSig> := [];
    for i := 0 to n
      invariant start <= r.off <= |r.data|
      invariant TypesAt(r.data, start, i) == Parsed(values, r.off)
    {
      var v := ParseType(r, false);
      if v.Err? {
        TypesStop(r.data, start, i + 1, n);
        return Err(v.error);
      }
      values := values + [v.value];
    }
    res := Ok(values);
  }

  lemma {:induction false} TypesStop(data: seq<Byte>, off: nat, i: nat, n: nat)
    requires off <= |data| && i <= n && TypesAt(data, off, i).Bad?
    ensures TypesAt(data, off, n) == TypesAt(data, off, i)
  {
    if i < n {
      TypesStop(data, off, i, n - 1);
    }
  }

  method ParseMethodSignature(blob: seq<Byte>) returns (res: Result<MethodSig>)
    ensures res == MethodOf(blob)
  {
    hide TypeAt, TypesAt, UintAt;
    var r := new Reader(blob);
    var b := r.ReadByte();
    if b.Err? {
      return Err(b.error);
    }
    var cc := b.value;
    if cc % 0x10 > 5 {
      return Err(InvalidEncoding);
    }
    var arity := Ok(0);
    if Bit(cc, 0x10) {
      arity := r.ReadUint();
      if arity.Err? {
        return Err(arity.error);
      }
    }
    var count := r.ReadUint();
    if count.Err? {
      return Err(count.error);
    }
    var ret := ParseType(r, true);
    if ret.Err? {
      return Err(ret.error);
    }
    if count.value > r.Remaining() + 1 {
      return Err(Truncated);
    }
    var params := ParseTypes(r, count.value);
    if params.Err? {
      return Err(params.error);
    }
    if r.Remaining() != 0 {
      return Err(InvalidEncoding);
    }
    return Ok(MethodSig(cc % 0x10, Bit(cc, 0x20), Bit(cc, 0x40), cc % 0x10 == 5, arity.value, ret.value, params.value));
  }

  // ---- the bytes of the standard ----

  /** Which bytes stand for which elements (section II.23.1.16), and what follows them; no
      others are read. */
  lemma ElementBytes(data: seq<Byte>, off: nat, allowVoid: bool)
    requires off < |data|
    ensures var e, r := data[off], TypeAt(data, off, allowVoid);
      && (e == 0x01 ==> r == if allowVoid then Parsed(Simple(e), off + 1) else Bad(InvalidEncoding))
      && (0x02 <= e <= 0x0E || e == 0x18 || e == 0x19 || e == 0x1C ==> r == Parsed(Simple(e), off + 1))
      && (e == 0x0F || e == 0x10 || e == 0x1D ==>
            var inner := TypeAt(data, off + 1, e == 0x0F);
            r == if inner.Bad? then Bad(inner.error) else Parsed(Wrapped(e, inner.value), inner.next))
      && (e == 0x11 || e == 0x12 || e == 0x13 || e == 0x1E ==>
            var index := UintAt(data, off + 1);
            r == if index.Bad? then Bad(index.error) else Parsed(Indexed(e, index.value), index.next))
      && (e == 0x14 ==>
            var inner := TypeAt(data, off + 1, false);
            r == if inner.Bad? then Bad(inner.error) else
                 var shape := ShapeAt(data, inner.next);
                 if shape.Bad? then Bad(shape.error)
                 else Parsed(Array(inner.value, shape.value.rank, shape.value.sizes, shape.value.lowerBounds), shape.next))
      && (e == 0x00 || e == 0x15 || e == 0x16 || e == 0x17 || e == 0x1A || e == 0x1B || e > 0x1E ==> r == Bad(InvalidEncoding))
  {
    hide UintAt, ShapeAt;
  }

  /** What the first byte of a signature says (sections II.23.2.1 and II.23.2.4). */
  lemma FirstBytes(blob: seq<Byte>)
    requires blob != []
    ensures FieldOf(blob).Ok? ==> blob[0] == 0x06
    ensures MethodOf(blob).Ok? ==>
      var cc, m := blob[0], MethodOf(blob).value;
      && m.convention == cc % 16 <= 5 && (m.varArgs <==> cc % 16 == 5)
      && (m.hasThis <==> cc / 32 % 2 == 1) && (m.explicitThis <==> cc / 64 % 2 == 1)
      && (cc / 16 % 2 == 0 ==> m.genericArity == 0)
      && (cc / 16 % 2 == 1 ==> UintAt(blob, 1).Parsed? && m.genericArity == UintAt(blob, 1).value)
  {
    hide TypeAt, TypesAt, UintAt;
  }

  lemma OneOfEach(data: seq<Byte>, off: nat)
    requires off <= |data|
    ensures UintAt(data, off).Parsed? ==> UintsAt(data, off, 1) == Parsed([UintAt(data, off).value], UintAt(data, off).next)
    ensures IntAt(data, off).Parsed? ==> IntsAt(data, off, 1) == Parsed([IntAt(data, off).value], IntAt(data, off).next)
    ensures var t := TypeAt(data, off, false);
      t.Parsed? ==> TypesAt(data, off, 1) == Parsed([t.value], t.next)
  {
    hide UintAt, IntAt, TypeAt;
    assert UintsAt(data, off, 0) == Parsed([], off) && IntsAt(data, off, 0) == Parsed([], off) && TypesAt(data, off, 0) == Parsed([], off);
    var u, i, t := UintAt(data, off), IntAt(data, off), TypeAt(data, off, false);
    assert u.Parsed? ==> [] + [u.value] == [u.value];
    assert i.Parsed? ==> [] + [i.value] == [i.value];
    assert t.Parsed? ==> [] + [t.value] == [t.value];
  }

  /** Two dimensions, the first of size three counted from one: an array of 32-bit integers
      with its rank, one size and one lower bound. */
  lemma ArrayExample()
    ensures TypeAt([0x14, 0x08, 0x02, 0x01, 0x03, 0x01, 0x02], 0, false) == Parsed(Array(Simple(0x08), 2, [3], [1]), 7)
  {
    var data := [0x14, 0x08, 0x02, 0x01, 0x03, 0x01, 0x02];
    assert TypeAt(data, 1, false) == Parsed(Simple(0x08), 2);
    assert UintAt(data, 2) == Parsed(2, 3) && UintAt(data, 3) == Parsed(1, 4) && UintAt(data, 4) == Parsed(3, 5);
    assert UintAt(data, 5) == Parsed(1, 6) && IntAt(data, 6) == Parsed(1, 7);
    hide UintAt, IntAt;
    OneOfEach(data, 4);
    OneOfEach(data, 6);
    hide UintsAt, IntsAt;
    assert ShapeAt(data, 2) == Parsed(Shape(2, [3], [1]), 7);
  }

  /** An instance method with one 32-bit parameter and no result. */
  lemma MethodExample()
    ensures MethodOf([0x20, 0x01, 0x01, 0x08]) == Ok(MethodSig(0, true, false, false, 0, Simple(0x01), [Simple(0x08)]))
  {
    var blob := [0x20, 0x01, 0x01, 0x08];
    assert ArityAt(blob) == Parsed(0, 1) && UintAt(blob, 1) == Parsed(1, 2);
    assert TypeAt(blob, 2, true) == Parsed(Simple(0x01), 3) && TypeAt(blob, 3, false) == Parsed(Simple(0x08), 4);
    hide UintAt, TypeAt, ArityAt;
    OneOfEach(blob, 3);
  }
}
