/** The header of the metadata table stream (ECMA-335 II.24.2.6) and coded indices.
 */
module TableStream {
  import opened Options
  import opened Arithmetic
  import opened CompressedInts
  import BitFields

  // ---- bytes ----

  /** A bit of a number, the lowest first. */
  function BitOf(n: nat, k: nat): bool {
    if k == 0 then n % 2 == 1 else BitOf(n / 2, k - 1)
  }

  function ByteOf(b: seq<bool>): Byte
    requires |b| == 8
  {
    BitFields.NatWithin(b);
    BitFields.ToNat(b)
  }

  lemma {:induction false} BitsOfNumber(b: seq<bool>, k: nat)
    requires k < |b|
    ensures BitOf(BitFields.ToNat(b), k) == b[k]
  {
    if k > 0 {
      BitsOfNumber(b[1..], k - 1);
    }
  }

  /** A little-endian 64-bit word as its bits. */
  function WordAt(data: seq<Byte>, off: nat): (bits: seq<bool>)
    requires off + 8 <= |data|
    ensures |bits| == 64
  {
    seq(64, t requires 0 <= t < 64 => BitOf(data[off + t / 8], t % 8))
  }

  function WordBytes(bits: seq<bool>): (bytes: seq<Byte>)
    requires |bits| == 64
    ensures |bytes| == 8
  {
    seq(8, i requires 0 <= i < 8 => ByteOf(bits[8 * i..8 * i + 8]))
  }

  lemma WordReads(data: seq<Byte>, off: nat, bits: seq<bool>)
    requires |bits| == 64 && off + 8 <= |data| && data[off..off + 8] == WordBytes(bits)
    ensures WordAt(data, off) == bits
  {
    forall t: nat | t < 64
      ensures WordAt(data, off)[t] == bits[t]
    {
      var i, k := t / 8, t % 8;
      assert data[off + i] == data[off..off + 8][i];
      BitsOfNumber(bits[8 * i..8 * i + 8], k);
      assert bits[8 * i..8 * i + 8][k] == bits[t];
    }
  }

  function Uint32At(data: seq<Byte>, off: nat): nat
    requires off + 4 <= |data|
  {
    Join4(data[off + 3], data[off + 2], data[off + 1], data[off])
  }

  function Uint32Bytes(v: nat): (bytes: seq<Byte>)
    ensures |bytes| == 4
  {
    var a := v / 0x100;
    var b := a / 0x100;
    [v % 0x100, a % 0x100, b % 0x100, b / 0x100 % 0x100]
  }

  const WORD32: nat := 0x1_0000_0000

  lemma Uint32Reads(data: seq<Byte>, off: nat, v: nat)
    requires off + 4 <= |data| && v < WORD32 && data[off..off + 4] == Uint32Bytes(v)
    ensures Uint32At(data, off) == v
  {
    var bytes := data[off..off + 4];
    assert data[off] == bytes[0] && data[off + 1] == bytes[1] && data[off + 2] == bytes[2] && data[off + 3] == bytes[3];
  }

  // ---- the header ----

  /** valid and sorted hold one bit for each of the 64 tables. */
  datatype Header = Header(major: Byte, minor: Byte, heapSizes: Byte, valid: seq<bool>, sorted: seq<bool>, rows: map<nat, nat>)

  const FIXED: nat := 24

  /** How many of the first n tables are present. */
  function Present(valid: seq<bool>, n: nat): nat
    requires n <= |valid|
  {
    if n == 0 then 0 else Present(valid, n - 1) + if valid[n - 1] then 1 else 0
  }

  /** The row counts of the first n tables, one after the other. */
  function RowsAt(data: seq<Byte>, valid: seq<bool>, n: nat): map<nat, nat>
    requires n <= |valid| && FIXED + 4 * Present(valid, n) <= |data|
  {
    if n == 0 then map[]
    else
      var before := RowsAt(data, valid, n - 1);
      if valid[n - 1] then before[n - 1 := Uint32At(data, FIXED + 4 * Present(valid, n - 1))] else before
  }

  function HeaderAt(data: seq<Byte>): Parsed<Header> {
    if |data| < FIXED then Bad(Truncated)
    else
      var valid := WordAt(data, 8);
      var end := FIXED + 4 * Present(valid, 64);
      if |data| < end then Bad(Truncated)
      else Parsed(Header(data[4], data[5], data[6], valid, WordAt(data, 16), RowsAt(data, valid, 64)), end)
  }

  lemma {:induction false} PresentGrows(valid: seq<bool>, m: nat, n: nat)
    requires m <= n <= |valid|
    ensures Present(valid, m) <= Present(valid, n)
  {
    if m < n {
      PresentGrows(valid, m, n - 1);
    }
  }

  /** A row count for each table that is present, and for no other. */
  lemma {:induction false} RowsOfPresentTables(data: seq<Byte>, valid: seq<bool>, n: nat, t: nat)
    requires n <= |valid| && FIXED + 4 * Present(valid, n) <= |data|
    ensures t in RowsAt(data, valid, n) <==> t < n && valid[t]
    ensures t < n && valid[t] ==>
      Present(valid, t) < Present(valid, n) && RowsAt(data, valid, n)[t] == Uint32At(data, FIXED + 4 * Present(valid, t))
  {
    if n > 0 {
      RowsOfPresentTables(data, valid, n - 1, t);
    }
  }

  method ParseHeader(data: seq<Byte>) returns (r: Result<Header>)
    ensures r == match HeaderAt(data) { case Parsed(h, _) => Ok(h) case Bad(e) => Err(e) }
  {
    hide WordAt, Uint32At;
    if |data| < FIXED {
      return Err(Truncated);
    }
    var valid := WordAt(data, 8);
    var rows: map<nat, nat>, off := map[], FIXED;
    for table := 0 to 64
      invariant off == FIXED + 4 * Present(valid, table) <= |data|
      invariant rows == RowsAt(data, valid, table)
    {
      if !valid[table] {
        continue;
      }
      if |data| - off < 4 {
        PresentGrows(valid, table + 1, 64);
        return Err(Truncated);
      }
      rows := rows[table := Uint32At(data, off)];
      off := off + 4;
    }
    r := Ok(Header(data[4], data[5], data[6], valid, WordAt(data, 16), rows));
  }

  // ---- printing ----

  ghost predicate IsHeader(h: Header) {
    && |h.valid| == 64 && |h.sorted| == 64
    && (forall t: nat :: t in h.rows <==> t < 64 && h.valid[t])
    && (forall t: nat :: t in h.rows ==> h.rows[t] < WORD32)
  }

  ghost function PrintRows(h: Header, n: nat): seq<Byte>
    requires IsHeader(h) && n <= 64
  {
    if n == 0 then [] else PrintRows(h, n - 1) + if h.valid[n - 1] then Uint32Bytes(h.rows[n - 1]) else []
  }

  ghost function PrintHeader(h: Header): seq<Byte>
    requires IsHeader(h)
  {
    [0, 0, 0, 0, h.major, h.minor, h.heapSizes, 1] + WordBytes(h.valid) + WordBytes(h.sorted) + PrintRows(h, 64)
  }

  lemma {:induction false} PrintedRows(h: Header, n: nat, t: nat)
    requires IsHeader(h) && n <= 64
    ensures |PrintRows(h, n)| == 4 * Present(h.valid, n)
    ensures t < n && h.valid[t] ==> Present(h.valid, t) < Present(h.valid, n)
    ensures t < n && h.valid[t] ==>
      PrintRows(h, n)[4 * Present(h.valid, t)..4 * Present(h.valid, t) + 4] == Uint32Bytes(h.rows[t])
  {
    hide Uint32Bytes;
    if n > 0 {
      PrintedRows(h, n - 1, t);
      var before, after := PrintRows(h, n - 1), PrintRows(h, n);
      if t < n - 1 && h.valid[t] {
        var k := 4 * Present(h.valid, t);
        assert after[k..k + 4] == before[k..k + 4];
      } else if t == n - 1 && h.valid[t] {
        assert after[|before|..] == Uint32Bytes(h.rows[t]);
      }
    }
  }

  /** A printed header reads back as itself, and exactly its bytes are used. */
  lemma PrintedHeaderReads(h: Header, rest: seq<Byte>)
    requires IsHeader(h)
    ensures HeaderAt(PrintHeader(h) + rest) == Parsed(h, |PrintHeader(h)|)
  {
    hide WordAt, WordBytes, Uint32At, Uint32Bytes, Present, RowsAt, PrintRows;
    var data, rows := PrintHeader(h) + rest, PrintRows(h, 64);
    PrintedRows(h, 64, 0);
    assert data[8..16] == WordBytes(h.valid) && data[16..24] == WordBytes(h.sorted);
    WordReads(data, 8, h.valid);
    WordReads(data, 16, h.sorted);
    var read := RowsAt(data, h.valid, 64);
    forall t: nat
      ensures t in read <==> t in h.rows
      ensures t in h.rows ==> read[t] == h.rows[t]
    {
      RowsOfPresentTables(data, h.valid, 64, t);
      PrintedRows(h, 64, t);
      if t in h.rows {
        var k := 4 * Present(h.valid, t);
        assert data[FIXED + k..FIXED + k + 4] == rows[k..k + 4];
        Uint32Reads(data, FIXED + k, h.rows[t]);
      }
    }
    assert read == h.rows;
  }

  /** Whatever is read is a header: the bytes after it do not matter, and it reads the
      same when printed. */
  lemma ReadHeaderPrints(data: seq<Byte>)
    requires HeaderAt(data).Parsed?
    ensures IsHeader(HeaderAt(data).value)
    ensures HeaderAt(PrintHeader(HeaderAt(data).value)).Parsed? && HeaderAt(PrintHeader(HeaderAt(data).value)).value == HeaderAt(data).value
  {
    var h := HeaderAt(data).value;
    assert h.rows == RowsAt(data, h.valid, 64) && FIXED + 4 * Present(h.valid, 64) <= |data|;
    hide HeaderAt, WordAt, Present, RowsAt, PrintHeader, Uint32At;
    forall t: nat
      ensures t in h.rows <==> t < 64 && h.valid[t]
      ensures t in h.rows ==> h.rows[t] < WORD32
    {
      RowsOfPresentTables(data, h.valid, 64, t);
      if t < 64 && h.valid[t] {
        Uint32IsSmall(data, FIXED + 4 * Present(h.valid, t));
      }
    }
    PrintedHeaderReads(h, []);
    assert PrintHeader(h) + [] == PrintHeader(h);
  }

  lemma Uint32IsSmall(data: seq<Byte>, off: nat)
    requires off + 4 <= |data|
    ensures Uint32At(data, off) < WORD32
  {
  }

  // ---- coded indices ----

  /** The row is counted from zero. */
  datatype CodedIndex = NullIndex | CodedIndex(table: nat, row: nat)

  function TagRange(tagBits: nat): nat {
    [1, 2, 4, 8, 16, 32][if tagBits < 6 then tagBits else 0]
  }

  function DecodeCodedIndex(raw: nat, tagBits: nat, tables: seq<nat>): Option<CodedIndex> {
    var range := TagRange(tagBits);
    if tagBits > 5 || |tables| == 0 || |tables| > range then None
    else if raw == 0 then Some(NullIndex)
    else if raw % range >= |tables| then None
    else if raw / range == 0 then None
    else Some(CodedIndex(tables[raw % range], raw / range - 1))
  }

  function EncodeCodedIndex(tag: nat, row: nat, tagBits: nat): nat {
    (row + 1) * TagRange(tagBits) + tag
  }

  lemma EncodedParts(tag: nat, row: nat, tagBits: nat)
    requires tag < TagRange(tagBits)
    ensures var raw, range := EncodeCodedIndex(tag, row, tagBits), TagRange(tagBits);
      range > 0 && raw > 0 && raw % range == tag && raw / range == row + 1
  {
    hide TagRange;
    var raw, range := EncodeCodedIndex(tag, row, tagBits), TagRange(tagBits);
    assert raw == range * (row + 1) + tag;
    DivModUnique(raw, range, row + 1, tag);
    MultipleIsLarge(range, row + 1);
  }

  lemma PartsEncode(raw: nat, tagBits: nat)
    requires TagRange(tagBits) > 0 && raw / TagRange(tagBits) > 0
    ensures raw == EncodeCodedIndex(raw % TagRange(tagBits), raw / TagRange(tagBits) - 1, tagBits)
  {
    hide TagRange;
    var range := TagRange(tagBits);
    assert raw == range * (raw / range) + raw % range;
  }

  lemma RangeIsPositive(tagBits: nat)
    ensures TagRange(tagBits) > 0
  {
  }

  /** An index decodes to a row of a table exactly when it is the encoding of the
      table's tag and that row. */
  lemma CodedIndexIsEncoded(raw: nat, tagBits: nat, tables: seq<nat>, table: nat, row: nat)
    requires tagBits <= 5 && 0 < |tables| <= TagRange(tagBits)
    ensures DecodeCodedIndex(raw, tagBits, tables) == Some(CodedIndex(table, row)) <==>
      exists tag :: 0 <= tag < |tables| && tables[tag] == table && raw == EncodeCodedIndex(tag, row, tagBits)
  {
    hide TagRange, EncodeCodedIndex;
    var range := TagRange(tagBits);
    RangeIsPositive(tagBits);
    if DecodeCodedIndex(raw, tagBits, tables) == Some(CodedIndex(table, row)) {
      PartsEncode(raw, tagBits);
      assert tables[raw % range] == table;
    }
    if tag :| 0 <= tag < |tables| && tables[tag] == table && raw == EncodeCodedIndex(tag, row, tagBits) {
      EncodedParts(tag, row, tagBits);
    }
  }

  // ---- the places of the standard ----

  /** The tag of a coded index takes up to five bits: the powers of two. */
  lemma TagRanges()
    ensures TagRange(0) == 1 && TagRange(1) == 2 && TagRange(2) == 4 && TagRange(3) == 8 && TagRange(4) == 16 && TagRange(5) == 32
    ensures forall raw, tables :: DecodeCodedIndex(raw, 6, tables) == None
  {
  }

  /** A bit of a byte, by its weight. */
  predicate IsSet(b: int, k: nat) {
    k < 8 && b / [1, 2, 4, 8, 16, 32, 64, 128][k] % 2 == 1
  }

  lemma HalvedOnce(n: nat, w: nat)
    requires w > 0
    ensures n / w / 2 == n / (2 * w)
  {
    var q, r := n / w, n % w;
    var h, s := q / 2, q % 2;
    assert n == w * q + r && q == 2 * h + s;
    assert w * q == (2 * w) * h + w * s;
    assert 0 <= w * s <= w;
    DivModUnique(n, 2 * w, h, w * s + r);
  }

  /** The number without its lowest k bits. */
  function Halved(n: nat, k: nat): nat {
    if k == 0 then n else Halved(n, k - 1) / 2
  }

  lemma {:induction false} HalvedFirst(n: nat, k: nat)
    requires k > 0
    ensures Halved(n, k) == Halved(n / 2, k - 1)
  {
    if k > 1 {
      HalvedFirst(n, k - 1);
    }
  }

  lemma {:induction false} BitOfHalved(n: nat, k: nat)
    ensures BitOf(n, k) <==> Halved(n, k) % 2 == 1
  {
    if k > 0 {
      HalvedFirst(n, k);
      BitOfHalved(n / 2, k - 1);
    }
  }

  function Weight(k: nat): (w: nat)
    ensures w > 0
  {
    if k == 0 then 1 else 2 * Weight(k - 1)
  }

  lemma {:induction false} HalvedByWeight(n: nat, k: nat)
    ensures Halved(n, k) == n / Weight(k)
  {
    if k > 0 {
      HalvedByWeight(n, k - 1);
      HalvedOnce(n, Weight(k - 1));
    }
  }

  lemma Weights()
    ensures Weight(0) == 1 && Weight(1) == 2 && Weight(2) == 4 && Weight(3) == 8 && Weight(4) == 16 && Weight(5) == 32
    ensures Weight(6) == 64 && Weight(7) == 128
  {
    assert Weight(3) == 8;
  }

  lemma BitsByWeight(b: nat, k: nat)
    requires k < 8
    ensures BitOf(b, k) <==> IsSet(b, k)
  {
    BitOfHalved(b, k);
    HalvedByWeight(b, k);
    Weights();
    hide Weight, Halved, BitOf;
    assert Weight(k) == [1, 2, 4, 8, 16, 32, 64, 128][k];
  }

  /** Four bytes from the one of least weight to that of most. */
  predicate IsUint32(n: int, a: int, b: int, c: int, d: int) {
    n == a + 0x100 * b + 0x1_0000 * c + 0x100_0000 * d
  }

  /** Where the header has its parts (section II.24.2.6), and which bits stand for which
      tables. */
  lemma HeaderBytes(data: seq<Byte>, t: nat)
    requires HeaderAt(data).Parsed? && t < 64
    ensures var h := HeaderAt(data).value;
      && |data| >= 24 && h.major == data[4] && h.minor == data[5] && h.heapSizes == data[6] && |h.valid| == |h.sorted| == 64
      && (h.valid[t] <==> IsSet(data[8 + t / 8], t % 8)) && (h.sorted[t] <==> IsSet(data[16 + t / 8], t % 8))
      && (t in h.rows <==> h.valid[t])
  {
    var h := HeaderAt(data).value;
    BitsByWeight(data[8 + t / 8], t % 8);
    BitsByWeight(data[16 + t / 8], t % 8);
    RowsOfPresentTables(data, h.valid, 64, t);
    hide Present, RowsAt, BitOf, IsSet;
  }

  /** A table's row count stands behind those of the present tables below it. */
  lemma RowBytes(data: seq<Byte>, t: nat)
    requires HeaderAt(data).Parsed? && t in HeaderAt(data).value.rows
    ensures t < 64
    ensures var h := HeaderAt(data).value;
      var off := 24 + 4 * Present(h.valid, t);
      off + 4 <= |data| && IsUint32(h.rows[t], data[off], data[off + 1], data[off + 2], data[off + 3])
  {
    var h := HeaderAt(data).value;
    RowsOfPresentTables(data, h.valid, 64, t);
    hide Present, RowsAt, WordAt;
  }
}
