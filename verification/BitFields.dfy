/** The accessors emitted for bit-fields: what reading gives after writing, on storage
    of any width up to 64 bits.
 */
module BitFields {
  import opened Arithmetic

  /** A machine word, lowest bit first. */
  type Word = seq<bool>

  // ---- the operators the accessors use ----

  /** Conversion between unsigned widths: cut off, or fill with zeros. */
  function Convert(w: Word, width: nat): (r: Word)
    ensures |r| == width
  {
    seq(width, i requires 0 <= i < width => i < |w| && w[i])
  }

  function And(a: Word, b: Word): (r: Word)
    requires |a| == |b|
    ensures |r| == |a|
  {
    seq(|a|, i requires 0 <= i < |a| => a[i] && b[i])
  }

  function AndNot(a: Word, b: Word): (r: Word)
    requires |a| == |b|
    ensures |r| == |a|
  {
    seq(|a|, i requires 0 <= i < |a| => a[i] && !b[i])
  }

  function Or(a: Word, b: Word): (r: Word)
    requires |a| == |b|
    ensures |r| == |a|
  {
    seq(|a|, i requires 0 <= i < |a| => a[i] || b[i])
  }

  function ShiftLeft(a: Word, k: nat): (r: Word)
    ensures |r| == |a|
  {
    seq(|a|, i requires 0 <= i < |a| => i >= k && a[i - k])
  }

  function ShiftRight(a: Word, k: nat): (r: Word)
    ensures |r| == |a|
  {
    seq(|a|, i requires 0 <= i < |a| => i + k < |a| && a[i + k])
  }

  /** The shift of a signed word repeats its top bit. */
  function ShiftRightSigned(a: Word, k: nat): (r: Word)
    requires a != []
    ensures |r| == |a|
  {
    seq(|a|, i requires 0 <= i < |a| => if i + k < |a| then a[i + k] else a[|a| - 1])
  }

  /** The constant with so many ones from a bit on. */
  function Mask(width: nat, from: nat, count: nat): (r: Word)
    ensures |r| == width
  {
    seq(width, i requires 0 <= i < width => from <= i < from + count)
  }

  // ---- the accessors ----

  datatype Field = Field(bitOffset: nat, bitWidth: nat)

  predicate Fits(f: Field, storage: nat) {
    0 < f.bitWidth && f.bitOffset + f.bitWidth <= storage <= 64
  }

  /** What both getters read: the storage as 64 bits, shifted down and masked. */
  function Raw(bits: Word, f: Field): Word {
    And(ShiftRight(Convert(bits, 64), f.bitOffset), Mask(64, 0, f.bitWidth))
  }

  function Get(bits: Word, f: Field, resultWidth: nat): Word {
    Convert(Raw(bits, f), resultWidth)
  }

  function GetSigned(bits: Word, f: Field): Word
    requires f.bitWidth <= 32
  {
    var raw, shift := Convert(Raw(bits, f), 32), 32 - f.bitWidth;
    ShiftRightSigned(ShiftLeft(raw, shift), shift)
  }

  function Set(bits: Word, f: Field, value: Word): (r: Word)
    ensures |r| == |bits|
  {
    var mask := Mask(|bits|, f.bitOffset, f.bitWidth);
    Or(AndNot(bits, mask), And(ShiftLeft(Convert(value, |bits|), f.bitOffset), mask))
  }

  // ---- bit by bit ----

  /** Writing changes the field's bits and no others. */
  lemma SetBits(bits: Word, f: Field, value: Word, i: nat)
    requires i < |bits|
    ensures Set(bits, f, value)[i] ==
      if f.bitOffset <= i < f.bitOffset + f.bitWidth then i - f.bitOffset < |value| && value[i - f.bitOffset] else bits[i]
  {
  }

  lemma GetBits(bits: Word, f: Field, resultWidth: nat, i: nat)
    requires Fits(f, |bits|) && i < resultWidth
    ensures Get(bits, f, resultWidth)[i] == (i < f.bitWidth && bits[f.bitOffset + i])
  {
  }

  lemma GetSignedBits(bits: Word, f: Field, i: nat)
    requires Fits(f, |bits|) && f.bitWidth <= 32 && i < 32
    ensures GetSigned(bits, f)[i] == bits[f.bitOffset + if i < f.bitWidth then i else f.bitWidth - 1]
  {
  }

  predicate Disjoint(f: Field, g: Field) {
    f.bitOffset + f.bitWidth <= g.bitOffset || g.bitOffset + g.bitWidth <= f.bitOffset
  }

  /** Writing one field leaves what every disjoint field reads as it was. */
  lemma OtherFieldsAreKept(bits: Word, f: Field, g: Field, value: Word, resultWidth: nat)
    requires Fits(f, |bits|) && Fits(g, |bits|) && Disjoint(f, g)
    ensures Get(Set(bits, f, value), g, resultWidth) == Get(bits, g, resultWidth)
    ensures g.bitWidth <= 32 ==> GetSigned(Set(bits, f, value), g) == GetSigned(bits, g)
  {
    hide Get, GetSigned, Set;
    var after := Set(bits, f, value);
    GetLength(bits, after, g, resultWidth);
    forall i: nat | i < resultWidth
      ensures Get(after, g, resultWidth)[i] == Get(bits, g, resultWidth)[i]
    {
      GetBits(after, g, resultWidth, i);
      GetBits(bits, g, resultWidth, i);
      if i < g.bitWidth {
        SetBits(bits, f, value, g.bitOffset + i);
      }
    }
    if g.bitWidth <= 32 {
      forall i: nat | i < 32
        ensures GetSigned(after, g)[i] == GetSigned(bits, g)[i]
      {
        GetSignedBits(after, g, i);
        GetSignedBits(bits, g, i);
        SetBits(bits, f, value, g.bitOffset + if i < g.bitWidth then i else g.bitWidth - 1);
      }
    }
  }

  lemma GetLength(a: Word, b: Word, g: Field, resultWidth: nat)
    ensures |Get(a, g, resultWidth)| == |Get(b, g, resultWidth)| == resultWidth
    ensures g.bitWidth <= 32 ==> |GetSigned(a, g)| == |GetSigned(b, g)| == 32
  {
  }

  /** Writes of disjoint fields can change places. */
  lemma DisjointWritesCommute(bits: Word, f: Field, g: Field, v: Word, w: Word)
    requires Disjoint(f, g)
    ensures Set(Set(bits, f, v), g, w) == Set(Set(bits, g, w), f, v)
  {
    hide Set;
    forall i: nat | i < |bits|
      ensures Set(Set(bits, f, v), g, w)[i] == Set(Set(bits, g, w), f, v)[i]
    {
      SetBits(Set(bits, f, v), g, w, i);
      SetBits(bits, f, v, i);
      SetBits(Set(bits, g, w), f, v, i);
      SetBits(bits, g, w, i);
    }
  }

  // ---- as numbers ----

  function Pow2(n: nat): nat
    ensures Pow2(n) > 0
  {
    if n == 0 then 1 else 2 * Pow2(n - 1)
  }

  function ToNat(w: Word): nat {
    if w == [] then 0 else (if w[0] then 1 else 0) + 2 * ToNat(w[1..])
  }

  /** The two's complement number of a word. */
  function ToInt(w: Word): int
    requires w != []
  {
    if w[|w| - 1] then ToNat(w) - Pow2(|w|) else ToNat(w)
  }

  lemma {:induction false} NatWithin(w: Word)
    ensures ToNat(w) < Pow2(|w|)
  {
    if w != [] {
      NatWithin(w[1..]);
    }
  }

  /** The low bits of a word are its number modulo a power of two. */
  lemma {:induction false} LowBitsAreModulus(w: Word, low: Word, k: nat)
    requires forall i :: 0 <= i < |low| ==> low[i] == (i < k && i < |w| && w[i])
    requires |low| >= k || |low| >= |w|
    ensures ToNat(low) == ToNat(w) % Pow2(k)
  {
    if k == 0 {
      NothingSet(low);
      DivModUnique(ToNat(w), Pow2(0), ToNat(w), 0);
    } else if low == [] || w == [] {
      NothingSet(low);
      DivModUnique(0, Pow2(k), 0, 0);
    } else {
      LowBitsAreModulus(w[1..], low[1..], k - 1);
      LowBitsStep(w, low, k);
    }
  }

  lemma LowBitsStep(w: Word, low: Word, k: nat)
    requires k > 0 && w != [] && low != [] && low[0] == w[0] && ToNat(low[1..]) == ToNat(w[1..]) % Pow2(k - 1)
    ensures ToNat(low) == ToNat(w) % Pow2(k)
  {
    assert Pow2(k) == 2 * Pow2(k - 1);
    DoubleRemainder(if w[0] then 1 else 0, ToNat(w[1..]), Pow2(k - 1));
  }

  lemma {:induction false} NothingSet(w: Word)
    requires forall i :: 0 <= i < |w| ==> !w[i]
    ensures ToNat(w) == 0
  {
    if w != [] {
      NothingSet(w[1..]);
    }
  }

  /** An unsigned field reads back what was written, modulo two to its width. */
  lemma UnsignedReadsBack(bits: Word, f: Field, value: Word)
    requires Fits(f, |bits|)
    ensures ToNat(Get(Set(bits, f, value), f, |value|)) == ToNat(value) % Pow2(f.bitWidth)
  {
    hide Get, Set;
    var after := Set(bits, f, value);
    var low := Get(after, f, |value|);
    GetLength(bits, after, f, |value|);
    forall i: nat | i < |value|
      ensures low[i] == (i < f.bitWidth && value[i])
    {
      GetBits(after, f, |value|, i);
      if i < f.bitWidth {
        SetBits(bits, f, value, f.bitOffset + i);
      }
    }
    LowBitsAreModulus(value, low, f.bitWidth);
  }

  /** The number from -2^(k-1) to 2^(k-1) - 1 that agrees with n modulo 2^k. */
  function Wrapped(n: int, k: nat): int
    requires k > 0
  {
    var low := n % Pow2(k);
    if low >= Pow2(k - 1) then low - Pow2(k) else low
  }

  lemma {:induction false} TopBit(w: Word)
    requires w != []
    ensures w[|w| - 1] <==> ToNat(w) >= Pow2(|w| - 1)
  {
    if |w| > 1 {
      TopBit(w[1..]);
    }
  }

  lemma NumberOfTail(w: Word)
    requires |w| > 1
    ensures ToInt(w) == (if w[0] then 1 else 0) + 2 * ToInt(w[1..])
  {
    var tail := w[1..];
    assert tail[|tail| - 1] == w[|w| - 1];
    assert ToNat(w) == (if w[0] then 1 else 0) + 2 * ToNat(tail);
    assert Pow2(|w|) == 2 * Pow2(|tail|);
    hide ToNat, Pow2;
    assert ToInt(tail) == ToNat(tail) - (if w[|w| - 1] then Pow2(|tail|) else 0);
  }

  lemma NumberOfBit(w: Word)
    requires |w| == 1
    ensures ToInt(w) == if w[0] then -1 else 0
  {
    assert w[1..] == [] && ToNat(w[1..]) == 0 && Pow2(1) == 2;
  }

  /** Repeating the top bit keeps the number. */
  lemma {:induction false} ExtensionKeepsNumber(w: Word, extended: Word)
    requires w != [] && |extended| >= |w|
    requires forall i :: 0 <= i < |extended| ==> extended[i] == w[if i < |w| then i else |w| - 1]
    ensures ToInt(extended) == ToInt(w)
    decreases |extended|
  {
    hide ToInt;
    if |extended| == |w| {
      assert extended == w;
    } else {
      NumberOfTail(extended);
      if |w| > 1 {
        NumberOfTail(w);
        ExtensionKeepsNumber(w[1..], extended[1..]);
      } else {
        NumberOfBit(w);
        ExtensionKeepsNumber(w, extended[1..]);
      }
    }
  }

  /** A signed field of at most 32 bits reads back what was written, as the signed
      number of its width. */
  lemma SignedReadsBack(bits: Word, f: Field, value: Word)
    requires Fits(f, |bits|) && f.bitWidth <= 32 && |value| == 32
    ensures ToInt(GetSigned(Set(bits, f, value), f)) == Wrapped(ToInt(value), f.bitWidth)
  {
    hide GetSigned, Set;
    var after, low := Set(bits, f, value), value[..f.bitWidth];
    var r := GetSigned(after, f);
    GetLength(bits, after, f, 0);
    forall i: nat | i < 32
      ensures r[i] == low[if i < f.bitWidth then i else f.bitWidth - 1]
    {
      GetSignedBits(after, f, i);
      SetBits(bits, f, value, f.bitOffset + if i < f.bitWidth then i else f.bitWidth - 1);
    }
    ExtensionKeepsNumber(low, r);
    LowIsWrapped(value, f.bitWidth);
  }

  lemma LowIsWrapped(value: Word, k: nat)
    requires 0 < k <= |value|
    ensures ToInt(value[..k]) == Wrapped(ToInt(value), k)
  {
    LowBitsAreModulus(value, value[..k], k);
    TopBit(value[..k]);
    var q := Pow2Divides(|value|, k);
    hide Pow2, ToNat;
    assert Pow2(k) * -q == -(Pow2(k) * q);
    AddMultiple(ToNat(value), Pow2(k), -q);
  }

  lemma {:induction false} Pow2Divides(n: nat, k: nat) returns (q: int)
    requires k <= n
    ensures Pow2(n) == Pow2(k) * q
  {
    if n == k {
      q := 1;
    } else {
      q := Pow2Divides(n - 1, k);
      assert 2 * (Pow2(k) * q) == Pow2(k) * (2 * q);
      q := 2 * q;
    }
  }

  /** So a value in the field's range comes back unchanged. */
  lemma SignedValuesInRangeReadBack(bits: Word, f: Field, value: Word)
    requires Fits(f, |bits|) && f.bitWidth <= 32 && |value| == 32
    requires 0 <= ToInt(value) + Pow2(f.bitWidth - 1) < Pow2(f.bitWidth)
    ensures ToInt(GetSigned(Set(bits, f, value), f)) == ToInt(value)
  {
    SignedReadsBack(bits, f, value);
    var n, p := ToInt(value), Pow2(f.bitWidth);
    assert p == 2 * Pow2(f.bitWidth - 1);
    hide Pow2, ToInt, GetSigned, Set;
    if n < 0 {
      DivModUnique(n, p, -1, n + p);
    } else {
      DivModUnique(n, p, 0, n);
    }
  }
}
