/** Compressed integers of ECMA-335 II.23.2: the decoders, the encoding the
    standard prescribes, and exactly how far the two agree.
 */
module CompressedInts {
  import opened Arithmetic

  type Byte = b: int | 0 <= b < 256

  datatype Error = Truncated | InvalidEncoding

  /** The value read and the offset after it, or why there is none. */
  datatype Parsed<+T> = Parsed(value: T, next: nat) | Bad(error: Error)

  const MAX_UINT: nat := 0x1FFF_FFFF

  // ---- unsigned ----

  /** Big-endian numbers from bytes. */
  function Join2(a: int, b: int): int {
    a * 0x100 + b
  }

  function Join4(a: int, b: int, c: int, d: int): int {
    a * 0x100_0000 + b * 0x1_0000 + c * 0x100 + d
  }

  /** One decoding step at an offset: one, two or four bytes, told apart by the
      leading bits; a value that fits a shorter form is refused. */
  function UintAt(data: seq<Byte>, off: int): (r: Parsed<nat>)
    ensures r.Parsed? ==> 0 <= off < r.next <= |data| && r.value <= MAX_UINT
  {
    if off < 0 || off >= |data| then
      Bad(Truncated)
    else
      var b0 := data[off];
      if b0 < 0x80 then
        Parsed(b0, off + 1)
      else if b0 < 0xC0 then
        if off + 1 >= |data| then
          Bad(Truncated)
        else
          var v := Join2(b0 - 0x80, data[off + 1]);
          if v < 0x80 then Bad(InvalidEncoding) else Parsed(v, off + 2)
      else if b0 < 0xE0 then
        if off + 3 >= |data| then
          Bad(Truncated)
        else
          var v := Join4(b0 - 0xC0, data[off + 1], data[off + 2], data[off + 3]);
          if v < 0x4000 then Bad(InvalidEncoding) else Parsed(v, off + 4)
      else
        Bad(InvalidEncoding)
  }

  /** The three forms, for a value that fits the form. */
  function Form1(v: nat): seq<Byte>
    requires v < 0x80
  {
    [v]
  }

  function Form2(v: nat): seq<Byte>
    requires v < 0x4000
  {
    [0x80 + v / 0x100, v % 0x100]
  }

  function Form4(v: nat): seq<Byte>
    requires v <= MAX_UINT
  {
    [0xC0 + v / 0x100_0000, v / 0x1_0000 % 0x100, v / 0x100 % 0x100, v % 0x100]
  }

  /** The encoding of II.23.2: the shortest form the value fits. */
  function EncodeUint(v: nat): (s: seq<Byte>)
    requires v <= MAX_UINT
    ensures |s| > 0
  {
    if v < 0x80 then Form1(v) else if v < 0x4000 then Form2(v) else Form4(v)
  }

  /** The bytes are one of the forms of v, not necessarily the shortest. */
  ghost predicate Denotes(s: seq<Byte>, v: nat) {
    || (v < 0x80 && s == Form1(v))
    || (v < 0x4000 && s == Form2(v))
    || (v <= MAX_UINT && s == Form4(v))
  }

  /** The prescribed encoding is the only shortest one. */
  lemma EncodeUintIsShortest(v: nat, s: seq<Byte>)
    requires v <= MAX_UINT && Denotes(s, v)
    ensures |EncodeUint(v)| <= |s|
    ensures |EncodeUint(v)| == |s| ==> s == EncodeUint(v)
  {
  }

  /** s occurs in data at off. */
  predicate Occurs(data: seq<Byte>, off: int, s: seq<Byte>) {
    0 <= off && off + |s| <= |data| && data[off..off + |s|] == s
  }

  lemma OccursAt(data: seq<Byte>, off: int, s: seq<Byte>)
    requires Occurs(data, off, s)
    ensures forall k :: 0 <= k < |s| ==> data[off + k] == s[k]
  {
    forall k | 0 <= k < |s|
      ensures data[off + k] == s[k]
    {
      assert data[off..off + |s|][k] == data[off + k];
    }
  }

  lemma Split2(a: int, b: int)
    requires 0 <= b < 0x100
    ensures Join2(a, b) / 0x100 == a && Join2(a, b) % 0x100 == b
  {
  }

  lemma Split4(a: int, b: int, c: int, d: int)
    requires 0 <= b < 0x100 && 0 <= c < 0x100 && 0 <= d < 0x100
    ensures var v := Join4(a, b, c, d);
      v / 0x100_0000 == a && v / 0x1_0000 % 0x100 == b && v / 0x100 % 0x100 == c && v % 0x100 == d
  {
    var v, ab, abc := Join4(a, b, c, d), a * 0x100 + b, a * 0x1_0000 + b * 0x100 + c;
    DivModUnique(v, 0x100_0000, a, b * 0x1_0000 + c * 0x100 + d);
    DivModUnique(v, 0x1_0000, ab, c * 0x100 + d);
    DivModUnique(ab, 0x100, a, b);
    DivModUnique(v, 0x100, abc, d);
    DivModUnique(abc, 0x100, ab, c);
  }

  lemma Joined4(v: nat)
    requires v <= MAX_UINT
    ensures v == Join4(v / 0x100_0000, v / 0x1_0000 % 0x100, v / 0x100 % 0x100, v % 0x100)
    ensures v / 0x100_0000 < 0x20
  {
    var w := v / 0x100;
    assert w / 0x100 == v / 0x1_0000 && w / 0x1_0000 == v / 0x100_0000;
  }

  /** The prescribed encoding of every value is read back, with anything around it. */
  lemma EncodedUintReads(data: seq<Byte>, off: int, v: nat)
    requires v <= MAX_UINT && Occurs(data, off, EncodeUint(v))
    ensures UintAt(data, off) == Parsed(v, off + |EncodeUint(v)|)
  {
    OccursAt(data, off, EncodeUint(v));
    if v >= 0x4000 {
      Joined4(v);
    }
  }

  /** Whatever is read was encoded as prescribed. */
  lemma ReadUintIsEncoded(data: seq<Byte>, off: int)
    requires UintAt(data, off).Parsed?
    ensures var r := UintAt(data, off);
      Occurs(data, off, EncodeUint(r.value)) && r.next == off + |EncodeUint(r.value)|
  {
    var b0, v := data[off], UintAt(data, off).value;
    if b0 >= 0xC0 {
      Split4(b0 - 0xC0, data[off + 1], data[off + 2], data[off + 3]);
    } else if b0 >= 0x80 {
      Split2(b0 - 0x80, data[off + 1]);
    }
  }

  // ---- signed ----

  const MIN_INT: int := -0x1000_0000
  const MAX_INT: int := 0xFFF_FFFF

  /** How many values the signed form of n bytes has on each side of zero. */
  function Half(n: int): int {
    if n == 1 then 0x40 else if n == 2 then 0x2000 else 0x1000_0000
  }

  /** In 32-bit words, setting the bits above a form's own subtracts the form's
      half range, which is how IntAt writes it. */
  lemma SignExtension1(v: bv32)
    requires v < 0x40
    ensures v | 0xFFFF_FFC0 == v - 0x40
  {
  }

  lemma SignExtension2(v: bv32)
    requires v < 0x2000
    ensures v | 0xFFFF_E000 == v - 0x2000
  {
  }

  lemma SignExtension4(v: bv32)
    requires v < 0x1000_0000
    ensures v | 0xF000_0000 == v - 0x1000_0000
  {
  }

  /** Reads an unsigned value and undoes the rotation: the lowest bit is the sign. */
  function IntAt(data: seq<Byte>, off: int): (r: Parsed<int>)
    ensures r.Parsed? ==> 0 <= off < r.next <= |data|
    ensures r.Parsed? ==> MIN_INT <= r.value <= MAX_INT
  {
    var u := UintAt(data, off);
    if u.Bad? then
      Bad(u.error)
    else if u.value % 2 == 0 then
      Parsed(u.value / 2, u.next)
    else
      Parsed(u.value / 2 - Half(u.next - off), u.next)
  }

  /** v fits the signed form of n bytes. */
  predicate Fits(v: int, n: int) {
    -Half(n) <= v < Half(n)
  }

  /** Two's complement in the form's width, rotated left by one. */
  function Rotated(v: int, n: int): (u: nat)
    requires Fits(v, n)
    ensures u < 2 * Half(n)
  {
    if v >= 0 then 2 * v else 2 * (v + Half(n)) + 1
  }

  /** The bytes of the n-byte form holding u. */
  function FormOf(u: nat, n: int): seq<Byte>
    requires n == 1 || n == 2 || n == 4
    requires u < 2 * Half(n)
  {
    if n == 1 then Form1(u) else if n == 2 then Form2(u) else Form4(u)
  }

  /** The signed encoding of II.23.2: the shortest form whose range has v. */
  function EncodedLength(v: int): int {
    if Fits(v, 1) then 1 else if Fits(v, 2) then 2 else 4
  }

  function EncodeInt(v: int): seq<Byte>
    requires MIN_INT <= v <= MAX_INT
  {
    FormOf(Rotated(v, EncodedLength(v)), EncodedLength(v))
  }

  /** The values whose prescribed encoding the decoder refuses: rotated, they
      leave the upper bits of their form empty. */
  predicate Refused(v: int) {
    -8192 <= v <= -8129 || -0x1000_0000 <= v <= -0x1000_0000 + 8191
  }

  lemma FormReads(data: seq<Byte>, off: int, u: nat, n: int)
    requires n == 1 || n == 2 || n == 4
    requires u < 2 * Half(n) && Occurs(data, off, FormOf(u, n))
    ensures var short := (n == 2 && u < 0x80) || (n == 4 && u < 0x4000);
      UintAt(data, off) == if short then Bad(InvalidEncoding) else Parsed(u, off + n)
  {
    var s := FormOf(u, n);
    OccursAt(data, off, s);
    assert data[off + 0] == s[0];
    if n == 4 {
      Joined4(u);
      assert data[off + 1] == s[1] && data[off + 2] == s[2] && data[off + 3] == s[3];
    } else if n == 2 {
      assert data[off + 1] == s[1];
      assert Join2(u / 0x100, u % 0x100) == u;
    }
  }

  /** Just the refused values leave the upper bits of their form empty. */
  lemma RefusedExactly(v: int)
    requires MIN_INT <= v <= MAX_INT
    ensures var n := EncodedLength(v);
      Fits(v, n) && (Refused(v) <==> (n == 2 && Rotated(v, n) < 0x80) || (n == 4 && Rotated(v, n) < 0x4000))
  {
  }

  lemma RotatedBack(v: int)
    requires MIN_INT <= v <= MAX_INT
    ensures var n := EncodedLength(v); var u := Rotated(v, n);
      v == if u % 2 == 0 then u / 2 else u / 2 - Half(n)
  {
  }

  /** The decoder inverts the prescribed encoding of every value it does not
      refuse, and of no other. */
  lemma EncodedIntReads(data: seq<Byte>, off: int, v: int)
    requires MIN_INT <= v <= MAX_INT && Occurs(data, off, EncodeInt(v))
    ensures IntAt(data, off) == if Refused(v) then Bad(InvalidEncoding) else Parsed(v, off + |EncodeInt(v)|)
  {
    RefusedExactly(v);
    RotatedBack(v);
    var n := EncodedLength(v);
    assert n == 1 || n == 2 || n == 4;
    hide UintAt, Occurs, Rotated, Half, Refused, EncodedLength;
    FormReads(data, off, Rotated(v, n), n);
    FormLength(Rotated(v, n), n);
  }

  lemma FormLength(u: nat, n: int)
    requires (n == 1 || n == 2 || n == 4) && u < 2 * Half(n)
    ensures |FormOf(u, n)| == n
  {
  }

  /** A value is accepted in a form wider than the prescribed one. */
  predicate Overlong(v: int, n: int) {
    (n == 2 && -64 <= v < 0) || (n == 4 && -8192 <= v < 0)
  }

  /** What is accepted is the rotated form of the value in some width; it is the
      prescribed encoding unless it is an overlong negative. */
  lemma ReadIntIsEncoded(data: seq<Byte>, off: int)
    requires IntAt(data, off).Parsed?
    ensures var r, n := IntAt(data, off), IntAt(data, off).next - off;
      && (n == 1 || n == 2 || n == 4) && Fits(r.value, n) && Occurs(data, off, FormOf(Rotated(r.value, n), n))
      && (Occurs(data, off, EncodeInt(r.value)) <==> !Overlong(r.value, n))
  {
    ReadUintIsEncoded(data, off);
    var u, v, n := UintAt(data, off).value, IntAt(data, off).value, IntAt(data, off).next - off;
    assert Rotated(v, n) == u;
    if Occurs(data, off, EncodeInt(v)) {
      EncodedIntReads(data, off, v);
    }
  }

  /** The shortest such input: minus one, in two bytes instead of one. */
  lemma OverlongExample()
    ensures IntAt([0xBF, 0xFF], 0) == Parsed(-1, 2) && EncodeInt(-1) == [0x7F]
  {
  }

  // ---- the cursor ----

  datatype Result<+T> = Ok(value: T) | Err(error: Error)

  class Reader {
    const data: seq<Byte>
    var off: int

    constructor (data: seq<Byte>)
      ensures this.data == data && off == 0
    {
      this.data := data;
      off := 0;
    }

    function Remaining(): int
      reads this
    {
      |data| - off
    }

    method ReadByte() returns (r: Result<Byte>)
      modifies this
      ensures r.Ok? <==> 0 <= old(off) < |data|
      ensures r.Ok? ==> r.value == data[old(off)] && off == old(off) + 1
      ensures r.Err? ==> r.error == Truncated && off == old(off)
    {
      if off < 0 || off >= |data| {
        return Err(Truncated);
      }
      var v := data[off];
      off := off + 1;
      return Ok(v);
    }

    method ReadBytes(n: nat) returns (r: Result<seq<Byte>>)
      modifies this
      ensures r.Ok? <==> 0 <= old(off) && old(off) + n <= |data|
      ensures r.Ok? ==> r.value == data[old(off)..old(off) + n] && off == old(off) + n
      ensures r.Err? ==> r.error == Truncated && off == old(off)
    {
      if off < 0 || n > |data| - off {
        return Err(Truncated);
      }
      var v := data[off..off + n];
      off := off + n;
      return Ok(v);
    }

    /** The cursor never leaves the data, whatever is read. */
    method ReadUint() returns (r: Result<nat>)
      modifies this
      ensures Agrees(r, UintAt(data, old(off)), off)
      ensures old(off) <= off && (0 <= old(off) <= |data| ==> off <= |data|)
    {
      var b0 := ReadByte();
      if b0.Err? {
        return Err(b0.error);
      }
      if b0.value < 0x80 {
        return Ok(b0.value);
      } else if b0.value < 0xC0 {
        var b1 := ReadByte();
        if b1.Err? {
          return Err(b1.error);
        }
        var v := Join2(b0.value - 0x80, b1.value);
        return if v < 0x80 then Err(InvalidEncoding) else Ok(v);
      } else if b0.value < 0xE0 {
        var bs := ReadBytes(3);
        if bs.Err? {
          return Err(bs.error);
        }
        var v := Join4(b0.value - 0xC0, bs.value[0], bs.value[1], bs.value[2]);
        return if v < 0x4000 || v > MAX_UINT then Err(InvalidEncoding) else Ok(v);
      } else {
        return Err(InvalidEncoding);
      }
    }

    method ReadInt() returns (r: Result<int>)
      modifies this
      ensures Agrees(r, IntAt(data, old(off)), off)
      ensures old(off) <= off && (0 <= old(off) <= |data| ==> off <= |data|)
    {
      var start := off;
      var u := ReadUint();
      if u.Err? {
        return Err(u.error);
      }
      var v := u.value / 2;
      if u.value % 2 != 0 {
        v := v - Half(off - start);
      }
      return Ok(v);
    }
  }

  /** A reading method returned what the decoding function says, and left the
      cursor after it. */
  ghost predicate Agrees<T>(r: Result<T>, spec: Parsed<T>, off: int) {
    match spec
    case Parsed(value, next) => r == Ok(value) && off == next
    case Bad(error) => r == Err(error)
  }

  // ---- the examples of the standard ----

  /** The examples of section II.23.2 for unsigned integers. */
  lemma UnsignedExamples()
    ensures UintAt([0x03], 0) == Parsed(0x03, 1) && UintAt([0x7F], 0) == Parsed(0x7F, 1)
    ensures UintAt([0x80, 0x80], 0) == Parsed(0x80, 2) && UintAt([0xAE, 0x57], 0) == Parsed(0x2E57, 2)
    ensures UintAt([0xBF, 0xFF], 0) == Parsed(0x3FFF, 2) && UintAt([0xC0, 0x00, 0x40, 0x00], 0) == Parsed(0x4000, 4)
    ensures UintAt([0xDF, 0xFF, 0xFF, 0xFF], 0) == Parsed(0x1FFF_FFFF, 4)
  {
  }

  /** And those for signed ones; the last negative one of each of the longer forms is
      refused, against the standard. */
  lemma SignedExamples()
    ensures IntAt([0x06], 0) == Parsed(3, 1) && IntAt([0x7B], 0) == Parsed(-3, 1) && IntAt([0x01], 0) == Parsed(-64, 1)
    ensures IntAt([0x80, 0x80], 0) == Parsed(64, 2) && IntAt([0x80, 0x01], 0) == Bad(InvalidEncoding)
    ensures IntAt([0xC0, 0x00, 0x40, 0x00], 0) == Parsed(8192, 4)
    ensures IntAt([0xDF, 0xFF, 0xFF, 0xFE], 0) == Parsed(268435455, 4) && IntAt([0xC0, 0x00, 0x00, 0x01], 0) == Bad(InvalidEncoding)
  {
    UnsignedForSigned();
    hide UintAt;
  }

  lemma UnsignedForSigned()
    ensures UintAt([0x06], 0) == Parsed(6, 1) && UintAt([0x7B], 0) == Parsed(0x7B, 1) && UintAt([0x01], 0) == Parsed(1, 1)
    ensures UintAt([0x80, 0x80], 0) == Parsed(0x80, 2) && UintAt([0x80, 0x01], 0) == Bad(InvalidEncoding)
    ensures UintAt([0xC0, 0x00, 0x40, 0x00], 0) == Parsed(0x4000, 4)
    ensures UintAt([0xDF, 0xFF, 0xFF, 0xFE], 0) == Parsed(0x1FFF_FFFE, 4) && UintAt([0xC0, 0x00, 0x00, 0x01], 0) == Bad(InvalidEncoding)
  {
  }
}
