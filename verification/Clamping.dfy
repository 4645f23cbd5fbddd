/** Clamping of X25519 scalars, which both the key hierarchy and the envelope do in place. */
module Clamping {
  import opened Bytes
  import opened MachineBits

  type Key32 = b: Bytes | |b| == 32 witness Zeros(32)

  /** RFC 7748, section 5: a multiple of 8 with bit 254 set and bit 255 clear. */
  function Clamped(s: Key32): Key32 {
    s[0 := s[0] - s[0] % 8][31 := 64 + s[31] % 64]
  }

  lemma ClampedBytes(b: byte)
    ensures (b - b % 8) % 8 == 0
    ensures (64 + b % 64) % 64 == b % 64
  {
  }

  lemma ClampIdempotent(s: Key32)
    ensures Clamped(Clamped(s)) == Clamped(s)
  {
    ClampedBytes(s[0]);
    ClampedBytes(s[31]);
  }

  lemma Eighth(b: byte)
    ensures b / 2 / 2 / 2 < 32 && 8 * (b / 2 / 2 / 2) == b - b % 8
  {
  }

  lemma ClearLowBits(b: byte)
    ensures And(b, 248) == b - b % 8
  {
    hide And, Low;
    AndEven(b, 124);
    AndEven(b / 2, 62);
    AndEven(b / 2 / 2, 31);
    assert TwoTo(5) == 4 * TwoTo(3) == 16 * TwoTo(1);
    Eighth(b);
    var z := b / 2 / 2 / 2;
    MaskIsLow(z, 5);
    LowOfSmall(z, 5);
    assert And(z, 31) == z;
    assert And(b / 2 / 2, 62) == 2 * z;
    assert And(b / 2, 124) == 4 * z;
  }

  lemma BitSix(y: nat)
    requires y < 128
    ensures TwoTo(6) == 64 && (Bit(y, 6) <==> y >= 64)
  {
    hide Bit, Low, Shr;
    assert TwoTo(6) == 4 * TwoTo(4) == 16 * TwoTo(2);
    BitIsParity(y, 6);
    ShlShrLow(y, 6);
    var q := Shr(y, 6);
    assert Shl(q, 6) == 4 * Shl(q, 4) == 16 * Shl(q, 2);
    assert Shl(q, 2) == 2 * Shl(q, 1) == 4 * q;
  }

  lemma SixBits(b: byte)
    ensures b % 64 == if b % 128 < 64 then b % 128 else b % 128 - 64
  {
  }

  lemma SetTopBits(b: byte)
    ensures And(b, 127) < 128
    ensures Or(And(b, 127), 64) == 64 + b % 64
  {
    hide And, Or, Bit, TwoTo;
    SevenBits(b);
    SixBits(b);
    SetBitSix(b % 128);
  }

  lemma SetBitSix(y: nat)
    requires y < 128
    ensures Or(y, 64) == if y < 64 then y + 64 else y
  {
    hide Or, Bit, TwoTo;
    BitSix(y);
    OrPower(y, 6);
  }

  method ClampInPlace(raw: array<byte>)
    requires raw.Length == 32
    modifies raw
    ensures raw[..] == Clamped(old(raw[..]))
  {
    hide And, Or;
    ClearLowBits(raw[0]);
    SetTopBits(raw[31]);
    raw[0] := And(raw[0], 248);
    raw[31] := And(raw[31], 127);
    raw[31] := Or(raw[31], 64);
  }

  /** Equal but for the bits that clamping overwrites: the three lowest and the two highest. */
  predicate EqualUpToClamping(x: Key32, y: Key32) {
    && x[0] / 8 == y[0] / 8 && x[31] % 64 == y[31] % 64
    && forall i | 0 < i < 31 :: x[i] == y[i]
  }

  /** Clamping forgets those bits and nothing else. */
  lemma ClampForgets(x: Key32, y: Key32)
    ensures Clamped(x) == Clamped(y) <==> EqualUpToClamping(x, y)
  {
    var c, d := Clamped(x), Clamped(y);
    HighBits(x[0], y[0]);
    assert c[0] == x[0] - x[0] % 8 && d[0] == y[0] - y[0] % 8;
    assert c[31] == 64 + x[31] % 64 && d[31] == 64 + y[31] % 64;
    assert forall i | 0 < i < 31 :: c[i] == x[i] && d[i] == y[i];
    if EqualUpToClamping(x, y) {
      assert forall i | 0 <= i < 32 :: c[i] == d[i];
    }
  }

  lemma HighBits(b: byte, c: byte)
    ensures b - b % 8 == c - c % 8 <==> b / 8 == c / 8
  {
  }

  /** The clamped form of a raw scalar, bit by bit: three low bits clear, bit 254 set, bit 255 clear, the rest kept. */
  predicate AreClamped(c: Bytes, raw: Bytes) {
    && |c| == |raw| == 32
    && c[0] % 8 == 0 && c[0] / 8 == raw[0] / 8
    && 64 <= c[31] < 128 && c[31] % 64 == raw[31] % 64
    && forall i | 0 < i < 31 :: c[i] == raw[i]
  }

  lemma ClampedBits(raw: Key32)
    ensures AreClamped(Clamped(raw), raw)
  {
    ClampedByte(raw[0]);
    ClampedByte(raw[31]);
  }

  lemma ClampedByte(b: byte)
    ensures (b - b % 8) % 8 == 0 && (b - b % 8) / 8 == b / 8
    ensures 64 <= 64 + b % 64 < 128 && (64 + b % 64) % 64 == b % 64
  {
  }
}
