/**
 * Big-endian (network byte order) two's-complement integers, as written by
 * `WriteBytesExt::write_i16/write_i32/write_i64::<BigEndian>` and read back
 * by a consumer of the stream.
 */
module BigEndian {

  /** One octet of the output buffer. */
  type Byte = b: int | 0 <= b < 256

  /**
   * The result of a reader that may run out of input. Not about byte order,
   * but every module that reads bytes imports this one.
   */
  datatype Option<T> = None | Some(value: T)

  function Pow256(n: nat): (r: nat)
    ensures r >= 1
  {
    if n == 0 then 1 else 256 * Pow256(n - 1)
  }

  lemma Pow256Values()
    ensures Pow256(2) == 0x1_0000
    ensures Pow256(4) == 0x1_0000_0000
    ensures Pow256(8) == 0x1_0000_0000_0000_0000
  {
  }

  predicate IsInt16(x: int) { -0x8000 <= x < 0x8000 }
  predicate IsInt32(x: int) { -0x8000_0000 <= x < 0x8000_0000 }
  predicate IsInt64(x: int) { -0x8000_0000_0000_0000 <= x < 0x8000_0000_0000_0000 }

  /** `x` is representable as a signed integer of `width` bytes. */
  predicate InSignedRange(x: int, width: nat)
  {
    width >= 1 && -(Pow256(width) / 2) <= x < Pow256(width) / 2
  }

  // ---------------------------------------------------------------------
  // The reader

  /** The unsigned value of a big-endian byte string. */
  function UnsignedValue(b: seq<Byte>): nat
  {
    if b == [] then 0 else UnsignedValue(b[..|b| - 1]) * 256 + b[|b| - 1]
  }

  lemma {:induction false} UnsignedValueBound(b: seq<Byte>)
    ensures UnsignedValue(b) < Pow256(|b|)
  {
    if b != [] {
      var init := b[..|b| - 1];
      UnsignedValueBound(init);
      var v := UnsignedValue(init);
      assert v * 256 + b[|b| - 1] < (v + 1) * 256;
      assert (v + 1) * 256 <= Pow256(|init|) * 256;
    }
  }

  /** Proof step only: keeps nonlinear arithmetic out of `UnsignedValueConcat`'s context. */
  lemma ShiftByte(high: int, low: int, scale: int, last: int)
    ensures (high * scale + low) * 256 + last == high * (scale * 256) + (low * 256 + last)
  {
  }

  /**
   * Concatenation is associative. A general sequence fact, kept here because
   * every module that builds a byte buffer imports this one; proofs cite it
   * instead of re-deriving it.
   */
  lemma ConcatAssoc<T>(a: seq<T>, b: seq<T>, c: seq<T>)
    ensures a + b + c == a + (b + c)
  {
  }

  /** Appending `c` shifts the value of `a` by the width of `c`. */
  lemma {:induction false} UnsignedValueConcat(a: seq<Byte>, c: seq<Byte>)
    ensures UnsignedValue(a + c) == UnsignedValue(a) * Pow256(|c|) + UnsignedValue(c)
  {
    if c == [] {
      assert a + c == a;
    } else {
      var init := c[..|c| - 1];
      assert (a + c)[..|a + c| - 1] == a + init;
      UnsignedValueConcat(a, init);
      var va, vi, p, last := UnsignedValue(a), UnsignedValue(init), Pow256(|init|), c[|c| - 1];
      assert UnsignedValue(a + c) == UnsignedValue(a + init) * 256 + last;
      assert UnsignedValue(c) == vi * 256 + last;
      ShiftByte(va, vi, p, last);
    }
  }

  /** The two's-complement value of a big-endian byte string. */
  function SignedValue(b: seq<Byte>): int
    requires |b| >= 1
  {
    var u := UnsignedValue(b);
    if u >= Pow256(|b|) / 2 then u - Pow256(|b|) else u
  }

  /** A `width`-byte string reads as a value of the signed `width`-byte range. */
  lemma SignedValueRange(b: seq<Byte>)
    requires |b| >= 1
    ensures InSignedRange(SignedValue(b), |b|)
  {
    UnsignedValueBound(b);
  }

  /** Reading a signed 16-bit field yields a value of the int16 range. */
  lemma Int16ValueRange(b: seq<Byte>)
    requires |b| == 2
    ensures IsInt16(SignedValue(b))
  {
    Pow256Values();
    SignedValueRange(b);
  }

  lemma Int32ValueRange(b: seq<Byte>)
    requires |b| == 4
    ensures IsInt32(SignedValue(b))
  {
    Pow256Values();
    SignedValueRange(b);
  }

  lemma Int64ValueRange(b: seq<Byte>)
    requires |b| == 8
    ensures IsInt64(SignedValue(b))
  {
    Pow256Values();
    SignedValueRange(b);
  }

  // ---------------------------------------------------------------------
  // The writers

  /** The two bytes of an unsigned 16-bit word, high byte first. */
  function Word16(v: int): (r: seq<Byte>)
    requires 0 <= v < 0x1_0000
    ensures |r| == 2
  {
    [v / 0x100, v % 0x100]
  }

  /** The four bytes of an unsigned 32-bit word: the high half, then the low half. */
  function Word32(v: int): (r: seq<Byte>)
    requires 0 <= v < 0x1_0000_0000
    ensures |r| == 4
  {
    Word16(v / 0x1_0000) + Word16(v % 0x1_0000)
  }

  /** `write_i16::<BigEndian>`: the two's-complement bytes, high byte first. */
  function Int16Bytes(x: int): (r: seq<Byte>)
    requires IsInt16(x)
    ensures |r| == 2
  {
    Word16(if x < 0 then x + 0x1_0000 else x)
  }

  /** `write_i32::<BigEndian>` */
  function Int32Bytes(x: int): (r: seq<Byte>)
    requires IsInt32(x)
    ensures |r| == 4
  {
    Word32(if x < 0 then x + 0x1_0000_0000 else x)
  }

  /** `write_i64::<BigEndian>`: the high word, then the low word. */
  function Int64Bytes(x: int): (r: seq<Byte>)
    requires IsInt64(x)
    ensures |r| == 8
  {
    var u := if x < 0 then x + 0x1_0000_0000_0000_0000 else x;
    Word32(u / 0x1_0000_0000) + Word32(u % 0x1_0000_0000)
  }

  /** Reading a 16-bit word back yields its value. */
  lemma Word16Value(v: int)
    requires 0 <= v < 0x1_0000
    ensures UnsignedValue(Word16(v)) == v
  {
    var b := Word16(v);
    assert UnsignedValue(b[..1]) == b[0] by {
      assert b[..1][..0] == [];
    }
  }

  /** Reading a 32-bit word back yields its value. */
  lemma Word32Value(v: int)
    requires 0 <= v < 0x1_0000_0000
    ensures UnsignedValue(Word32(v)) == v
  {
    var high, low := v / 0x1_0000, v % 0x1_0000;
    Word16Value(high);
    Word16Value(low);
    UnsignedValueConcat(Word16(high), Word16(low));
    Pow256Values();
  }

  /** Reading back what `write_i16` wrote yields the value written. */
  lemma Int16RoundTrip(x: int)
    requires IsInt16(x)
    ensures SignedValue(Int16Bytes(x)) == x
  {
    Word16Value(if x < 0 then x + 0x1_0000 else x);
    Pow256Values();
  }

  lemma Int32RoundTrip(x: int)
    requires IsInt32(x)
    ensures SignedValue(Int32Bytes(x)) == x
  {
    Word32Value(if x < 0 then x + 0x1_0000_0000 else x);
    Pow256Values();
  }

  lemma Int64RoundTrip(x: int)
    requires IsInt64(x)
    ensures SignedValue(Int64Bytes(x)) == x
  {
    var u := if x < 0 then x + 0x1_0000_0000_0000_0000 else x;
    var high, low := u / 0x1_0000_0000, u % 0x1_0000_0000;
    Word32Value(high);
    Word32Value(low);
    UnsignedValueConcat(Word32(high), Word32(low));
    Pow256Values();
    var b := Int64Bytes(x);
    assert b == Word32(high) + Word32(low);
    assert UnsignedValue(b) == high * 0x1_0000_0000 + low == u;
    assert Pow256(|b|) == 0x1_0000_0000_0000_0000;
  }
}
