/** Bits of naturals, and the unsigned shift and bitwise operators of the source, one bit at a time. */
module MachineBits {
  import opened Bytes
  import opened Positional

  function TwoTo(k: nat): (p: nat)
    ensures p > 0
  {
    if k == 0 then 1 else 2 * TwoTo(k - 1)
  }

  /** The powers of the positional notation, in a form that doubles. */
  lemma {:induction false} TwoToIsPow(k: nat)
    ensures TwoTo(k) == Pow(2, k)
  {
    if k > 0 {
      TwoToIsPow(k - 1);
    }
  }

  /** Bit i of x, counted from the least significant. */
  predicate Bit(x: nat, i: nat) {
    if i == 0 then x % 2 == 1 else Bit(x / 2, i - 1)
  }

  function Or(x: nat, y: nat): (r: nat)
    decreases x + y
  {
    if x == 0 && y == 0 then 0
    else 2 * Or(x / 2, y / 2) + if x % 2 == 1 || y % 2 == 1 then 1 else 0
  }

  function And(x: nat, y: nat): (r: nat)
    decreases x + y
  {
    if x == 0 && y == 0 then 0
    else 2 * And(x / 2, y / 2) + if x % 2 == 1 && y % 2 == 1 then 1 else 0
  }

  function Xor(x: nat, y: nat): (r: nat)
    decreases x + y
  {
    if x == 0 && y == 0 then 0
    else 2 * Xor(x / 2, y / 2) + if x % 2 != y % 2 then 1 else 0
  }

  function Shr(x: nat, k: nat): (r: nat)
    ensures r <= x
  {
    if k == 0 then x else Shr(x / 2, k - 1)
  }

  /** The k low bits. */
  function Low(x: nat, k: nat): (r: nat)
    ensures r < TwoTo(k)
  {
    if k == 0 then 0 else 2 * Low(x / 2, k - 1) + x % 2
  }

  /** A u32 shifted left: each step drops bit 31 without notice. */
  function Shl32(x: u32, k: nat): (r: u32) {
    if k == 0 then x else
      Low32IsWrap(2 * Shl32(x, k - 1));
      Low(2 * Shl32(x, k - 1), 32)
  }

  /** A left shift that loses nothing. */
  function Shl(x: nat, k: nat): (r: nat) {
    if k == 0 then x else 2 * Shl(x, k - 1)
  }

  // ----- each operator, bit by bit -----

  lemma {:induction false} BitOfZero(i: nat)
    ensures !Bit(0, i)
  {
    if i > 0 {
      BitOfZero(i - 1);
    }
  }

  lemma {:induction false} BitOfOr(x: nat, y: nat, i: nat)
    ensures Bit(Or(x, y), i) == (Bit(x, i) || Bit(y, i))
    decreases i
  {
    if x == 0 && y == 0 {
      BitOfZero(i);
    } else if i > 0 {
      BitOfOr(x / 2, y / 2, i - 1);
    }
  }

  lemma {:induction false} BitOfAnd(x: nat, y: nat, i: nat)
    ensures Bit(And(x, y), i) == (Bit(x, i) && Bit(y, i))
    decreases i
  {
    if x == 0 && y == 0 {
      BitOfZero(i);
    } else if i > 0 {
      BitOfAnd(x / 2, y / 2, i - 1);
    }
  }

  lemma {:induction false} BitOfShr(x: nat, k: nat, i: nat)
    ensures Bit(Shr(x, k), i) == Bit(x, i + k)
  {
    if k > 0 {
      BitOfShr(x / 2, k - 1, i);
    }
  }

  lemma {:induction false} BitOfLow(x: nat, k: nat, i: nat)
    ensures Bit(Low(x, k), i) == (i < k && Bit(x, i))
    decreases k
  {
    if k == 0 {
      BitOfZero(i);
    } else if i > 0 {
      BitOfLow(x / 2, k - 1, i - 1);
    }
  }

  lemma TwoToPlus2(k: nat)
    ensures TwoTo(k + 2) == 4 * TwoTo(k)
  {
    assert TwoTo(k + 1) == 2 * TwoTo(k);
  }

  lemma TwoToPlus8(k: nat)
    ensures TwoTo(k + 8) == 256 * TwoTo(k)
  {
    hide TwoTo;
    TwoToPlus2(k);
    TwoToPlus2(k + 2);
    TwoToPlus2(k + 4);
    TwoToPlus2(k + 6);
  }

  lemma TwoTo32()
    ensures TwoTo(32) == 0x1_0000_0000
  {
    TwoToPlus8(0);
    TwoToPlus8(8);
    TwoToPlus8(16);
    TwoToPlus8(24);
  }

  lemma {:induction false} ShlShrLow(x: nat, k: nat)
    ensures x == Shl(Shr(x, k), k) + Low(x, k)
  {
    if k > 0 {
      ShlShrLow(x / 2, k - 1);
    }
  }

  lemma ShlPlus2(x: nat, k: nat)
    ensures Shl(x, k + 2) == 4 * Shl(x, k)
  {
    assert Shl(x, k + 1) == 2 * Shl(x, k);
  }

  lemma ShlPlus8(x: nat, k: nat)
    ensures Shl(x, k + 8) == 256 * Shl(x, k)
  {
    hide Shl;
    ShlPlus2(x, k);
    ShlPlus2(x, k + 2);
    ShlPlus2(x, k + 4);
    ShlPlus2(x, k + 6);
  }

  /** Keeping 32 bits is arithmetic modulo 2^32. */
  lemma Low32IsWrap(x: nat)
    ensures Low(x, 32) == x % 0x1_0000_0000
  {
    hide Low, Shr, TwoTo;
    TwoTo32();
    ShlShrLow(x, 32);
    var q := Shr(x, 32);
    ShlPlus8(q, 0);
    ShlPlus8(q, 8);
    ShlPlus8(q, 16);
    ShlPlus8(q, 24);
  }

  lemma BitOfDouble(x: nat, i: nat)
    ensures Bit(2 * x, i) == (i > 0 && Bit(x, i - 1))
  {
  }

  lemma {:induction false} BitOfShl32(x: u32, k: nat, i: nat)
    ensures Bit(Shl32(x, k), i) == (k <= i < 32 && Bit(x, i - k))
  {
    hide Bit, Low, TwoTo;
    if k > 0 {
      BitOfLow(2 * Shl32(x, k - 1), 32, i);
      BitOfDouble(Shl32(x, k - 1), i);
      if 0 < i {
        BitOfShl32(x, k - 1, i - 1);
      }
    } else if i >= 32 {
      TwoTo32();
      HighBitsZero(x, 32, i);
    }
  }

  lemma {:induction false} HighBitsZero(x: nat, k: nat, i: nat)
    requires x < TwoTo(k) && k <= i
    ensures !Bit(x, i)
    decreases k
  {
    if k == 0 {
      BitOfZero(i);
    } else {
      HighBitsZero(x / 2, k - 1, i - 1);
    }
  }

  lemma {:induction false} BitOfMask(k: nat, i: nat)
    ensures Bit(TwoTo(k) - 1, i) == (i < k)
  {
    if k == 0 {
      BitOfZero(i);
    } else if i > 0 {
      BitOfMask(k - 1, i - 1);
    }
  }

  lemma {:induction false} ShrIsZero(x: nat, k: nat)
    ensures Shr(x, k) == 0 <==> x < TwoTo(k)
  {
    if k > 0 {
      ShrIsZero(x / 2, k - 1);
    }
  }

  // ----- bit strings -----

  type Bits = seq<bool>

  /** The `width` low bits of v, most significant first. */
  function BitsOf(v: nat, width: nat): (b: Bits)
    ensures |b| == width
  {
    if width == 0 then [] else BitsOf(v / 2, width - 1) + [v % 2 == 1]
  }

  function Num(b: Bits): (v: nat) {
    if b == [] then 0 else 2 * Num(b[..|b| - 1]) + if b[|b| - 1] then 1 else 0
  }

  lemma {:induction false} BitsOfAt(v: nat, width: nat, j: nat)
    requires j < width
    ensures BitsOf(v, width)[j] == Bit(v, width - 1 - j)
  {
    if j < width - 1 {
      BitsOfAt(v / 2, width - 1, j);
    }
  }

  lemma {:induction false} NumBound(b: Bits)
    ensures Num(b) < TwoTo(|b|)
  {
    if b != [] {
      NumBound(b[..|b| - 1]);
    }
  }

  lemma {:induction false} BitsOfNum(b: Bits)
    ensures BitsOf(Num(b), |b|) == b
  {
    if b != [] {
      BitsOfNum(b[..|b| - 1]);
    }
  }

  lemma {:induction false} NumOfBits(v: nat, width: nat)
    requires v < TwoTo(width)
    ensures Num(BitsOf(v, width)) == v
  {
    if width > 0 {
      NumOfBits(v / 2, width - 1);
      assert BitsOf(v, width)[..width - 1] == BitsOf(v / 2, width - 1);
    }
  }

  lemma {:induction false} AndMaskBound(x: nat, k: nat)
    ensures And(x, TwoTo(k) - 1) < TwoTo(k)
    decreases k
  {
    if k == 0 {
      AndZero(x);
    } else {
      AndMaskBound(x / 2, k - 1);
    }
  }

  lemma {:induction false} AndZero(x: nat)
    ensures And(x, 0) == 0
  {
    if x > 0 {
      AndZero(x / 2);
    }
  }

  /** Or-ing x into the zeros that a shift made adds it. */
  lemma {:induction false} OrShifted(x: nat, y: nat, k: nat)
    requires x < TwoTo(k)
    ensures Or(x, Shl(y, k)) == x + Shl(y, k)
    decreases k
  {
    if k == 0 {
      OrZero(y);
    } else {
      OrShifted(x / 2, y, k - 1);
    }
  }

  lemma {:induction false} OrZero(y: nat)
    ensures Or(0, y) == y && Or(y, 0) == y
  {
    if y > 0 {
      OrZero(y / 2);
    }
  }

  // ----- the algebra of exclusive or -----

  lemma {:induction false} BitOfXor(x: nat, y: nat, i: nat)
    ensures Bit(Xor(x, y), i) == (Bit(x, i) != Bit(y, i))
    decreases i
  {
    if x == 0 && y == 0 {
      BitOfZero(i);
    } else if i > 0 {
      BitOfXor(x / 2, y / 2, i - 1);
    }
  }

  lemma {:induction false} SameBits(x: nat, y: nat)
    requires forall i: nat :: Bit(x, i) == Bit(y, i)
    ensures x == y
    decreases x + y
  {
    assert Bit(x, 0) == Bit(y, 0);
    if x > 0 || y > 0 {
      forall i: nat
        ensures Bit(x / 2, i) == Bit(y / 2, i)
      {
        assert Bit(x, i + 1) == Bit(y, i + 1);
      }
      SameBits(x / 2, y / 2);
    }
  }

  lemma {:induction false} XorZero(x: nat)
    ensures Xor(x, 0) == x && Xor(0, x) == x
  {
    if x > 0 {
      XorZero(x / 2);
    }
  }

  lemma {:induction false} XorSelf(x: nat, y: nat)
    ensures Xor(x, y) == 0 <==> x == y
    decreases x + y
  {
    if x > 0 || y > 0 {
      XorSelf(x / 2, y / 2);
    }
  }

  lemma {:induction false} XorCommutes(x: nat, y: nat)
    ensures Xor(x, y) == Xor(y, x)
    decreases x + y
  {
    if x > 0 || y > 0 {
      XorCommutes(x / 2, y / 2);
    }
  }

  lemma {:induction false} XorAssoc(x: nat, y: nat, z: nat)
    ensures Xor(Xor(x, y), z) == Xor(x, Xor(y, z))
    decreases x + y + z
  {
    if x > 0 || y > 0 || z > 0 {
      XorAssoc(x / 2, y / 2, z / 2);
    }
  }

  lemma XorSwap(a: nat, b: nat, c: nat, d: nat)
    ensures Xor(Xor(a, b), Xor(c, d)) == Xor(Xor(a, c), Xor(b, d))
  {
    XorAssoc(a, b, Xor(c, d));
    XorAssoc(b, c, d);
    XorCommutes(b, c);
    XorAssoc(c, b, d);
    XorAssoc(a, c, Xor(b, d));
  }

  lemma {:induction false} XorBound(x: nat, y: nat, k: nat)
    requires x < TwoTo(k) && y < TwoTo(k)
    ensures Xor(x, y) < TwoTo(k)
  {
    if k > 0 {
      XorBound(x / 2, y / 2, k - 1);
    }
  }

  /** Xor-ing x into the zeros that a shift made adds it. */
  lemma {:induction false} XorShifted(x: nat, y: nat, k: nat)
    requires x < TwoTo(k)
    ensures Xor(Shl(y, k), x) == x + Shl(y, k)
    decreases k
  {
    if k == 0 {
      XorZero(y);
    } else {
      XorShifted(x / 2, y, k - 1);
    }
  }

  lemma {:induction false} XorLow(x: nat, y: nat, k: nat)
    ensures Low(Xor(x, y), k) == Xor(Low(x, k), Low(y, k))
  {
    hide Xor;
    if k == 0 {
      XorZero(0);
    } else {
      XorLow(x / 2, y / 2, k - 1);
      XorHalves(x, y);
      XorDouble(Low(x / 2, k - 1), x % 2, Low(y / 2, k - 1), y % 2);
    }
  }

  lemma XorHalves(x: nat, y: nat)
    ensures Xor(x, y) / 2 == Xor(x / 2, y / 2)
    ensures Xor(x, y) % 2 == if x % 2 != y % 2 then 1 else 0
  {
  }

  lemma XorDouble(a: nat, p: nat, b: nat, q: nat)
    requires p < 2 && q < 2
    ensures Xor(2 * a + p, 2 * b + q) == 2 * Xor(a, b) + if p != q then 1 else 0
  {
  }

  lemma {:induction false} XorShr(x: nat, y: nat, k: nat)
    ensures Shr(Xor(x, y), k) == Xor(Shr(x, k), Shr(y, k))
  {
    if k > 0 {
      XorShr(x / 2, y / 2, k - 1);
    }
  }

  lemma {:induction false} XorShl(x: nat, y: nat, k: nat)
    ensures Shl(Xor(x, y), k) == Xor(Shl(x, k), Shl(y, k))
  {
    if k > 0 {
      XorShl(x, y, k - 1);
      XorDouble(Shl(x, k - 1), 0, Shl(y, k - 1), 0);
    }
  }

  lemma {:induction false} MaskIsLow(x: nat, k: nat)
    ensures And(x, TwoTo(k) - 1) == Low(x, k)
    decreases k
  {
    if k == 0 {
      AndZero(x);
    } else {
      MaskIsLow(x / 2, k - 1);
    }
  }

  lemma {:induction false} ShlBound(x: nat, k: nat, j: nat)
    requires x < TwoTo(j)
    ensures Shl(x, k) < TwoTo(j + k)
  {
    if k > 0 {
      ShlBound(x, k - 1, j);
    }
  }

  lemma {:induction false} LowOfSmall(x: nat, k: nat)
    requires x < TwoTo(k)
    ensures Low(x, k) == x
  {
    if k > 0 {
      LowOfSmall(x / 2, k - 1);
    }
  }

  lemma {:induction false} TwoToMono(j: nat, k: nat)
    requires j <= k
    ensures TwoTo(j) <= TwoTo(k)
  {
    if j < k {
      TwoToMono(j, k - 1);
    }
  }

  /** A shift of a u32 that pushes nothing out is the exact shift. */
  lemma {:induction false} Shl32Exact(x: u32, k: nat, j: nat)
    requires x < TwoTo(j) && j + k <= 32
    ensures Shl32(x, k) == Shl(x, k)
  {
    if k > 0 {
      Shl32Exact(x, k - 1, j);
      ShlBound(x, k, j);
      TwoToMono(j + k, 32);
      LowOfSmall(Shl(x, k), 32);
    }
  }

  lemma {:induction false} ShrBound(x: nat, k: nat, j: nat)
    requires x < TwoTo(j + k)
    ensures Shr(x, k) < TwoTo(j)
  {
    if k > 0 {
      ShrBound(x / 2, k - 1, j);
    }
  }

  lemma {:induction false} BitOfShl(x: nat, k: nat, i: nat)
    ensures Bit(Shl(x, k), i) == (k <= i && Bit(x, i - k))
  {
    if k > 0 && i > 0 {
      BitOfShl(x, k - 1, i - 1);
    }
  }

  lemma {:induction false} ShlIsZero(x: nat, k: nat)
    ensures Shl(x, k) == 0 <==> x == 0
  {
    if k > 0 {
      ShlIsZero(x, k - 1);
    }
  }

  lemma {:induction false} AndPower(x: nat, k: nat)
    ensures And(x, TwoTo(k)) == if Bit(x, k) then TwoTo(k) else 0
    decreases k
  {
    if k == 0 {
      AndZero(x / 2);
    } else {
      AndPower(x / 2, k - 1);
    }
  }

  lemma {:induction false} BitIsParity(x: nat, k: nat)
    ensures Bit(x, k) == (Shr(x, k) % 2 == 1)
  {
    if k > 0 {
      BitIsParity(x / 2, k - 1);
    }
  }

  lemma {:induction false} OrPower(x: nat, k: nat)
    ensures Or(x, TwoTo(k)) == if Bit(x, k) then x else x + TwoTo(k)
    decreases k
  {
    if k == 0 {
      OrZero(x / 2);
    } else {
      OrPower(x / 2, k - 1);
    }
  }

  // ----- seven-bit groups -----

  lemma SevenBits(x: nat)
    ensures TwoTo(7) == 128 && And(x, 0x7f) == x % 128 && Shr(x, 7) == x / 128
  {
    hide And, Low, Shr, Shl, TwoTo;
    TwoTo7(0);
    TwoToZero();
    MaskIsLow(x, 7);
    ShlShrLow(x, 7);
    Shl7(Shr(x, 7), 0);
  }

  lemma TwoToZero()
    ensures TwoTo(0) == 1
  {
  }

  lemma TwoTo7(k: nat)
    ensures TwoTo(k + 7) == 128 * TwoTo(k)
  {
    assert TwoTo(k + 7) == 2 * TwoTo(k + 6) == 4 * TwoTo(k + 5) == 8 * TwoTo(k + 4) == 16 * TwoTo(k + 3);
    assert TwoTo(k + 3) == 2 * TwoTo(k + 2) == 4 * TwoTo(k + 1) == 8 * TwoTo(k);
  }

  lemma Shl7(x: nat, k: nat)
    ensures Shl(x, k + 7) == 128 * Shl(x, k) && Shl(x, 0) == x
  {
    assert Shl(x, k + 7) == 2 * Shl(x, k + 6) == 4 * Shl(x, k + 5) == 8 * Shl(x, k + 4) == 16 * Shl(x, k + 3);
    assert Shl(x, k + 3) == 2 * Shl(x, k + 2) == 4 * Shl(x, k + 1) == 8 * Shl(x, k);
  }

  lemma AndEven(x: nat, m: nat)
    ensures And(x, 2 * m) == 2 * And(x / 2, m)
  {
    hide TwoTo;
  }
}
