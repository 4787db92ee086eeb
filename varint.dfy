/**
  The length computation for the base-128 varint encoding (the format of
  LevelDB's util/coding.h and of Protocol Buffers): each byte carries seven
  bits of the value, so the encoding of v has as many bytes as v has
  base-128 digits, and at least one.
 */
module Varint {

  /** Largest number of bytes a varint encoding of a 32-bit value takes. */
  const Varint32MaxSize: nat := 5
  /** Largest number of bytes a varint encoding of a 64-bit value takes. */
  const Varint64MaxSize: nat := 10

  const Two32: nat := 0x1_0000_0000
  const Two64: nat := 0x1_0000_0000_0000_0000

  /** An unsigned 64-bit integer. */
  type uint64 = x: nat | x < 0x1_0000_0000_0000_0000

  /** 128 to the power n, i.e. 2 to the power 7n. */
  function Pow128(n: nat): (p: nat)
    ensures p >= 1
  {
    if n == 0 then 1 else 128 * Pow128(n - 1)
  }

  /**
    The number of base-128 digits of v (one for every value below 128).
    It is the number of bytes of the varint encoding of v.
   */
  function Length(v: nat): (n: nat)
    ensures n >= 1
    ensures n == 1 <==> v < 128
  {
    if v < 128 then 1 else 1 + Length(v / 128)
  }

  /** The length is the least n >= 1 for which v fits in 7n bits. */
  lemma {:induction false} LengthIsLeastFit(v: nat, n: nat)
    requires n >= 1
    ensures v < Pow128(n) <==> Length(v) <= n
  {
    if v >= 128 && n > 1 {
      LengthIsLeastFit(v / 128, n - 1);
    } else if v >= 128 {
      assert Pow128(1) == 128;
    }
  }

  /** v always fits in 7 * Length(v) bits, and needs all of them. */
  lemma LengthFits(v: nat)
    ensures v < Pow128(Length(v))
    ensures Length(v) > 1 ==> Pow128(Length(v) - 1) <= v
  {
    LengthIsLeastFit(v, Length(v));
    if Length(v) > 1 {
      LengthIsLeastFit(v, Length(v) - 1);
    }
  }

  /** A larger value never has a shorter encoding. */
  lemma LengthMonotone(u: nat, v: nat)
    requires u <= v
    ensures Length(u) <= Length(v)
  {
    LengthIsLeastFit(v, Length(v));
    LengthIsLeastFit(u, Length(v));
  }

  lemma Pow128Values()
    ensures Pow128(4) == 0x1000_0000 && Pow128(5) == 0x8_0000_0000
    ensures Pow128(9) == 0x8000_0000_0000_0000
    ensures Pow128(10) == 0x40_0000_0000_0000_0000
  {
    assert Pow128(1) == 0x80;
    assert Pow128(2) == 0x4000;
    assert Pow128(3) == 0x20_0000;
    assert Pow128(4) == 0x1000_0000;
    assert Pow128(5) == 0x8_0000_0000;
    assert Pow128(6) == 0x400_0000_0000;
    assert Pow128(7) == 0x2_0000_0000_0000;
    assert Pow128(8) == 0x100_0000_0000_0000;
    assert Pow128(9) == 0x8000_0000_0000_0000;
  }

  /** Every 64-bit value encodes in at most 10 bytes, and the largest one needs all 10. */
  lemma Length64Bound(v: nat)
    requires v < Two64
    ensures Length(v) <= Varint64MaxSize
    ensures v == Two64 - 1 ==> Length(v) == Varint64MaxSize
  {
    Pow128Values();
    LengthIsLeastFit(v, 10);
    if v == Two64 - 1 {
      LengthIsLeastFit(v, 9);
    }
  }

  /** Every 32-bit value encodes in at most 5 bytes, and the largest one needs all 5. */
  lemma Length32Bound(v: nat)
    requires v < Two32
    ensures Length(v) <= Varint32MaxSize
    ensures v == Two32 - 1 ==> Length(v) == Varint32MaxSize
  {
    Pow128Values();
    LengthIsLeastFit(v, 5);
    if v == Two32 - 1 {
      LengthIsLeastFit(v, 4);
    }
  }

  /**
    varint_length: count the bytes by shifting seven bits off a copy of v
    until what is left fits in one byte.
   */
  method VarintLength(v: uint64) returns (len: int)
    ensures len == Length(v)
    ensures 1 <= len <= Varint64MaxSize
  {
    var rest: uint64 := v;
    len := 1;
    while rest >= 128
      invariant rest <= v
      invariant 1 <= len && len + Length(rest) == Length(v) + 1
      decreases rest
    {
      rest := rest / 128;
      len := len + 1;
    }
    Length64Bound(v);
  }
}
