/** Where the five generator words come from: one round multiplies by x modulo a polynomial over GF(32). */
module Bech32Generator {
  import opened Bytes
  import opened MachineBits
  import opened Bech32Checksum

  // ----- the field and the polynomial of BIP173 -----

  /** Multiplication by the field's element a, where a^5 = a^3 + 1. */
  function Double(x: nat): nat {
    if x < 16 then 2 * x else Xor(2 * x - 32, 9)
  }

  function Doubled(x: nat, n: nat): nat {
    if n == 0 then x else Double(Doubled(x, n - 1))
  }

  /** The product with the n low bits of y: the sum of the doublings that they select. */
  function Product(x: nat, y: nat, n: nat): nat {
    if n == 0 then 0 else Xor(Product(x, y, n - 1), if Bit(y, n - 1) then Doubled(x, n - 1) else 0)
  }

  function Times(x: nat, y: nat): nat { Product(x, y, 5) }

  /** x^6 + 29 x^5 + 22 x^4 + 20 x^3 + 21 x^2 + 29 x + 18, without its leading term. */
  const POLYNOMIAL: seq<nat> := [29, 22, 20, 21, 29, 18]

  function Row(n: nat): (r: seq<nat>)
    ensures |r| == 6
  {
    seq(6, j requires 0 <= j < 6 => Doubled(POLYNOMIAL[j], n))
  }

  function Products(y: nat, n: nat): (r: seq<nat>)
    ensures |r| == 6
  {
    seq(6, j requires 0 <= j < 6 => Product(POLYNOMIAL[j], y, n))
  }

  // ----- the generator words -----

  lemma PlainDoublings()
    ensures Double(5) == 10 && Double(1) == 2 && Double(3) == 6 && Double(13) == 26 && Double(15) == 30
    ensures Double(10) == 20 && Double(2) == 4 && Double(6) == 12 && Double(4) == 8 && Double(12) == 24
  {
  }

  lemma FirstDoublings()
    ensures Double(29) == 19 && Double(22) == 5
  {
  }

  lemma SecondDoublings()
    ensures Double(20) == 1 && Double(21) == 3
  {
  }

  lemma OtherDoublings()
    ensures Double(18) == 13 && Double(19) == 15 && Double(26) == 29 && Double(30) == 21
  {
  }

  lemma Rows()
    ensures Row(0) == [29, 22, 20, 21, 29, 18]
    ensures Row(1) == [19, 5, 1, 3, 19, 13]
    ensures Row(2) == [15, 10, 2, 6, 15, 26]
    ensures Row(3) == [30, 20, 4, 12, 30, 29]
    ensures Row(4) == [21, 1, 8, 24, 21, 19]
  {
    hide Double;
    PlainDoublings();
    FirstDoublings();
    SecondDoublings();
    OtherDoublings();
    forall j | 0 <= j < 6
      ensures Row(1)[j] == Double(Row(0)[j]) && Row(2)[j] == Double(Row(1)[j])
      ensures Row(3)[j] == Double(Row(2)[j]) && Row(4)[j] == Double(Row(3)[j])
    {
    }
  }

  lemma PackSix(a: nat, b: nat, c: nat, d: nat, e: nat, f: nat)
    ensures Pack([a, b, c, d, e, f]) == 32 * (32 * (32 * (32 * (32 * a + b) + c) + d) + e) + f
  {
    PackAppend([], a);
    PackAppend([a], b);
    PackAppend([a, b], c);
    PackAppend([a, b, c], d);
    PackAppend([a, b, c, d], e);
    PackAppend([a, b, c, d, e], f);
    assert [] + [a] == [a] && [a] + [b] == [a, b] && [a, b] + [c] == [a, b, c] && [a, b, c] + [d] == [a, b, c, d];
    assert [a, b, c, d] + [e] == [a, b, c, d, e] && [a, b, c, d, e] + [f] == [a, b, c, d, e, f];
  }

  /** The generator words are the polynomial's coefficients times 1, a, a^2, a^3 and a^4. */
  lemma WordsAreRows(n: nat)
    requires n < 5
    ensures GENERATOR[n] == Pack(Row(n)) && AllBelow(Row(n), 32)
  {
    hide Pack;
    Rows();
    PackSix(29, 22, 20, 21, 29, 18);
    PackSix(19, 5, 1, 3, 19, 13);
    PackSix(15, 10, 2, 6, 15, 26);
    PackSix(30, 20, 4, 12, 30, 29);
    PackSix(21, 1, 8, 24, 21, 19);
  }

  // ----- one round -----

  lemma XorSymbol(a: nat, x: nat, b: nat, y: nat)
    requires x < 32 && y < 32
    ensures Xor(32 * a + x, 32 * b + y) == 32 * Xor(a, b) + Xor(x, y)
  {
    hide Xor;
    Powers();
    XorBelow32(x, y);
    XorShifted(x, a, 5);
    XorShifted(y, b, 5);
    XorShifted(Xor(x, y), Xor(a, b), 5);
    XorShl(a, b, 5);
    XorSwap(Shl(a, 5), x, Shl(b, 5), y);
    Times32(a);
    Times32(b);
    Times32(Xor(a, b));
  }

  lemma Times32(a: nat)
    ensures Shl(a, 5) == 32 * a
  {
    assert Shl(a, 5) == 4 * Shl(a, 3) == 16 * Shl(a, 1);
  }

  /** The sum of two states is the sum of their coefficients. */
  lemma {:induction false} XorPacks(a: seq<nat>, b: seq<nat>)
    requires |a| == |b| && AllBelow(a, 32) && AllBelow(b, 32)
    ensures Xor(Pack(a), Pack(b)) == Pack(Difference(a, b)) && AllBelow(Difference(a, b), 32)
  {
    hide Xor;
    if a == [] {
      XorZero(0);
    } else {
      var n := |a| - 1;
      XorPacks(a[..n], b[..n]);
      XorSymbol(Pack(a[..n]), a[n], Pack(b[..n]), b[n]);
      XorBelow32(a[n], b[n]);
      assert Difference(a, b)[..n] == Difference(a[..n], b[..n]);
      assert Difference(a, b) == Difference(a[..n], b[..n]) + [Xor(a[n], b[n])];
    }
  }

  lemma NoProduct(y: nat)
    ensures Products(y, 0) == Zeros(6)
  {
  }

  lemma NextProduct(y: nat, n: nat)
    ensures Products(y, n + 1) == Difference(Products(y, n), if Bit(y, n) then Row(n) else Zeros(6))
  {
    hide Xor, Doubled, Bit;
  }

  /** The feedback of a leading coefficient is its product with the polynomial. */
  lemma {:induction false} FeedbackIsProduct(y: nat, n: nat)
    requires n <= 5
    ensures FeedbackSum(y, n) == Pack(Products(y, n)) && AllBelow(Products(y, n), 32)
  {
    hide Xor, Pack, Products, Row;
    PackZero(Zeros(6));
    if n == 0 {
      NoProduct(y);
    } else {
      FeedbackIsProduct(y, n - 1);
      NextProduct(y, n - 1);
      WordsAreRows(n - 1);
      XorPacks(Products(y, n - 1), if Bit(y, n - 1) then Row(n - 1) else Zeros(6));
    }
  }

  /** Coefficients after one round: shifted up by one, the new symbol last, minus the polynomial times the old first. */
  function NextCoefficients(cs: seq<nat>, v: nat): (r: seq<nat>)
    requires |cs| == 6
    ensures |r| == 6
  {
    [Xor(cs[1], Times(29, cs[0])), Xor(cs[2], Times(22, cs[0])), Xor(cs[3], Times(20, cs[0])),
     Xor(cs[4], Times(21, cs[0])), Xor(cs[5], Times(29, cs[0])), Xor(v, Times(18, cs[0]))]
  }

  lemma ShiftedState(cs: seq<nat>, v: nat)
    requires |cs| == 6 && AllBelow(cs, 32) && v < 32
    ensures var c := Pack(cs);
            Shr(c, 25) == cs[0] && Xor(Shl(Low(c, 25), 5), v) == Pack(cs[1..] + [v])
  {
    hide Xor, Pack, Shr, Low;
    var low := Pack(cs[1..]);
    Powers();
    assert cs == [cs[0], cs[1], cs[2], cs[3], cs[4], cs[5]];
    PackSix(cs[0], cs[1], cs[2], cs[3], cs[4], cs[5]);
    PackSix(0, cs[1], cs[2], cs[3], cs[4], cs[5]);
    PackFive(cs[1..]);
    TopAndLow(cs[0], low);
    PackAppend(cs[1..], v);
    XorShifted(v, low, 5);
    Times32(low);
  }

  lemma PackFive(cs: seq<nat>)
    requires |cs| == 5 && AllBelow(cs, 32)
    ensures Pack(cs) == Pack([0] + cs) && Pack(cs) < 0x200_0000
    ensures [0] + cs == [0, cs[0], cs[1], cs[2], cs[3], cs[4]]
  {
    PackBound(cs);
    PackLeadingZero(cs);
  }

  lemma {:induction false} PackLeadingZero(cs: seq<nat>)
    ensures Pack([0] + cs) == Pack(cs)
  {
    if cs == [] {
      PackAppend([], 0);
      assert [] + [0] == [0] + cs;
    } else {
      var n := |cs| - 1;
      PackLeadingZero(cs[..n]);
      assert [0] + cs == ([0] + cs[..n]) + [cs[n]] && cs == cs[..n] + [cs[n]];
      PackAppend([0] + cs[..n], cs[n]);
      PackAppend(cs[..n], cs[n]);
    }
  }

  lemma TopAndLow(top: nat, low: nat)
    requires top < 32 && low < 0x200_0000
    ensures Shr(0x200_0000 * top + low, 25) == top && Low(0x200_0000 * top + low, 25) == low
  {
    hide Shr, Low;
    Powers();
    var c := 0x200_0000 * top + low;
    ShlShrLow(c, 25);
    Times2To25(Shr(c, 25));
  }

  lemma Times2To25(a: nat)
    ensures Shl(a, 25) == 0x200_0000 * a
  {
    ShlPlus8(a, 17);
    ShlPlus8(a, 9);
    ShlPlus8(a, 1);
    assert Shl(a, 1) == 2 * a;
  }

  /** One round of the polymod on the coefficients of a state. */
  lemma StepIsRemainder(cs: seq<nat>, v: nat)
    requires |cs| == 6 && AllBelow(cs, 32) && v < 32
    ensures Step(Pack(cs), v) == Pack(NextCoefficients(cs, v)) && AllBelow(NextCoefficients(cs, v), 32)
  {
    hide Xor, Pack, FeedbackSum, Shr, Low, Shl, Product;
    ShiftedState(cs, v);
    FeedbackIsProduct(cs[0], 5);
    XorPacks(cs[1..] + [v], Products(cs[0], 5));
    assert Difference(cs[1..] + [v], Products(cs[0], 5)) == NextCoefficients(cs, v);
  }

  /** Every state of the polymod is of that form, and the initial one is the polynomial 1. */
  lemma StatesAreCoefficients(c: nat)
    requires c < 0x4000_0000
    ensures c == Pack(ChecksumSymbols(c)) && AllBelow(ChecksumSymbols(c), 32)
    ensures Pack([0, 0, 0, 0, 0, 1]) == 1
  {
    ChecksumSymbolsPack(c);
    PackSix(0, 0, 0, 0, 0, 1);
  }
}
