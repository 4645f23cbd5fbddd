/** The checksum of BIP173 and BIP350: a linear code over 30-bit states. */
module Bech32Checksum {
  import opened Bytes
  import opened MachineBits

  const GENERATOR: seq<nat> := [0x3b6a57b2, 0x26508e6d, 0x1ea119fa, 0x3d4233dd, 0x2a1462b3]

  const BECH32M_CONST: nat := 0x2bc830a3

  /** The generator words that the bits of `top` below n select, combined. */
  function FeedbackSum(top: nat, n: nat): nat
    requires n <= 5
  {
    if n == 0 then 0
    else Xor(FeedbackSum(top, n - 1), if Bit(top, n - 1) then GENERATOR[n - 1] else 0)
  }

  /** Shift one symbol into the 30-bit state; the five bits pushed out feed back. */
  function Step(chk: nat, v: nat): nat {
    Xor(Xor(Shl(Low(chk, 25), 5), v), FeedbackSum(Shr(chk, 25), 5))
  }

  function Fold(chk: nat, vs: seq<nat>): nat
    decreases |vs|
  {
    if vs == [] then chk else Fold(Step(chk, vs[0]), vs[1..])
  }

  // ----- the loop -----

  lemma Powers()
    ensures TwoTo(25) == 0x200_0000 && TwoTo(30) == 0x4000_0000 && TwoTo(32) == 0x1_0000_0000
    ensures TwoTo(5) == 32 && TwoTo(8) == 256
  {
    TwoToPlus8(0);
    TwoToPlus8(8);
    TwoToPlus8(16);
    TwoToPlus8(24);
    assert TwoTo(26) == 4 * TwoTo(24) && TwoTo(30) == 16 * TwoTo(26);
  }

  lemma {:induction false} FeedbackBound(top: nat, n: nat)
    requires n <= 5
    ensures FeedbackSum(top, n) < TwoTo(30)
  {
    Powers();
    if n > 0 {
      FeedbackBound(top, n - 1);
      XorBound(FeedbackSum(top, n - 1), if Bit(top, n - 1) then GENERATOR[n - 1] else 0, 30);
    }
  }

  lemma StepBound(chk: nat, v: nat)
    requires v < 256
    ensures Step(chk, v) < 0x4000_0000
  {
    Powers();
    ShlBound(Low(chk, 25), 5, 25);
    XorBound(Shl(Low(chk, 25), 5), v, 30);
    FeedbackBound(Shr(chk, 25), 5);
    XorBound(Xor(Shl(Low(chk, 25), 5), v), FeedbackSum(Shr(chk, 25), 5), 30);
  }

  lemma {:induction false} FoldConcat(chk: nat, a: seq<nat>, b: seq<nat>)
    ensures Fold(chk, a + b) == Fold(Fold(chk, a), b)
    decreases |a|
  {
    if a == [] {
      assert a + b == b;
    } else {
      assert (a + b)[1..] == a[1..] + b && (a + b)[0] == a[0];
      FoldConcat(Step(chk, a[0]), a[1..], b);
    }
  }

  lemma FoldAppend(chk: nat, a: seq<nat>, v: nat)
    ensures Fold(chk, a + [v]) == Step(Fold(chk, a), v)
  {
    FoldConcat(chk, a, [v]);
    assert Fold(Fold(chk, a), [v]) == Fold(Step(Fold(chk, a), v), [v][1..]);
  }

  lemma {:induction false} BitIsMasked(x: nat, i: nat)
    ensures And(Shr(x, i), 1) == if Bit(x, i) then 1 else 0
  {
    if i > 0 {
      BitIsMasked(x / 2, i - 1);
    } else {
      AndZero(x / 2);
    }
  }

  /** `bech32_polymod`: the loop over values. */
  method Polymod(values: Bytes) returns (chk: u32)
    ensures chk == Fold(1, values) && chk < 0x4000_0000
  {
    hide Step;
    chk := 1;
    for k := 0 to |values|
      invariant chk == Fold(1, values[..k]) && chk < 0x4000_0000
    {
      FoldAppend(1, values[..k], values[k]);
      assert values[..k + 1] == values[..k] + [values[k]];
      chk := PolymodRound(chk, values[k]);
    }
    assert values[..|values|] == values;
  }

  /** One round, with the inner loop over the generator words. */
  method PolymodRound(before: u32, v: byte) returns (chk: u32)
    requires before < 0x4000_0000
    ensures chk == Step(before, v) && chk < 0x4000_0000
  {
    var top := Shr(before, 25);
    chk := ShiftIn(before, v);
    for i := 0 to 5
      invariant chk < 0x4000_0000
      invariant chk == Xor(Xor(Shl(Low(before, 25), 5), v), FeedbackSum(top, i))
    {
      BitIsMasked(top, i);
      FeedbackRound(before, v, top, i);
      if And(Shr(top, i), 1) == 1 {
        chk := Xor(chk, GENERATOR[i]);
      }
    }
  }

  /** The shift and symbol of one round, on u32. */
  method ShiftIn(chk: u32, v: byte) returns (r: u32)
    requires chk < 0x4000_0000
    ensures r == Xor(Shl(Low(chk, 25), 5), v) && r < 0x4000_0000
    ensures r == Xor(r, 0)
  {
    Powers();
    MaskIsLow(chk, 25);
    Shl32Exact(Low(chk, 25), 5, 25);
    ShlBound(Low(chk, 25), 5, 25);
    XorBound(Shl(Low(chk, 25), 5), v, 30);
    XorZero(Xor(Shl(Low(chk, 25), 5), v));
    r := Xor(Shl32(And(chk, 0x1ffffff), 5), v);
  }

  lemma FeedbackRound(before: nat, v: nat, top: nat, i: nat)
    requires i < 5 && v < 256
    ensures var s := Xor(Xor(Shl(Low(before, 25), 5), v), FeedbackSum(top, i));
            var t := Xor(Xor(Shl(Low(before, 25), 5), v), FeedbackSum(top, i + 1));
            t < 0x4000_0000 && t == if Bit(top, i) then Xor(s, GENERATOR[i]) else s
  {
    Powers();
    var r, f := Xor(Shl(Low(before, 25), 5), v), FeedbackSum(top, i);
    ShlBound(Low(before, 25), 5, 25);
    XorBound(Shl(Low(before, 25), 5), v, 30);
    FeedbackBound(top, i + 1);
    XorBound(r, FeedbackSum(top, i + 1), 30);
    XorAssoc(r, f, GENERATOR[i]);
    XorZero(f);
  }

  // ----- linearity -----

  lemma {:induction false} FeedbackLinear(a: nat, b: nat, n: nat)
    requires n <= 5
    ensures FeedbackSum(Xor(a, b), n) == Xor(FeedbackSum(a, n), FeedbackSum(b, n))
  {
    hide Xor, Bit;
    XorZero(0);
    if n > 0 {
      FeedbackLinear(a, b, n - 1);
      BitOfXor(a, b, n - 1);
      var g := GENERATOR[n - 1];
      var x := if Bit(a, n - 1) then g else 0;
      var y := if Bit(b, n - 1) then g else 0;
      XorSelf(g, g);
      XorZero(g);
      XorSwap(FeedbackSum(a, n - 1), FeedbackSum(b, n - 1), x, y);
    }
  }

  lemma StepLinear(a: nat, b: nat, u: nat, v: nat)
    ensures Step(Xor(a, b), Xor(u, v)) == Xor(Step(a, u), Step(b, v))
  {
    XorLow(a, b, 25);
    var a', b' := Shl(Low(a, 25), 5), Shl(Low(b, 25), 5);
    XorShl(Low(a, 25), Low(b, 25), 5);
    XorShr(a, b, 25);
    var f, g := FeedbackSum(Shr(a, 25), 5), FeedbackSum(Shr(b, 25), 5);
    FeedbackLinear(Shr(a, 25), Shr(b, 25), 5);
    XorSwap(a', b', u, v);
    XorSwap(Xor(a', u), Xor(b', v), f, g);
  }

  /** Symbol by symbol difference of two equally long value strings. */
  function Difference(us: seq<nat>, vs: seq<nat>): (e: seq<nat>)
    requires |us| == |vs|
    ensures |e| == |us|
  {
    seq(|us|, i requires 0 <= i < |us| => Xor(us[i], vs[i]))
  }

  /** The code is linear: residues differ by the residue of the difference. */
  lemma {:induction false} FoldLinear(a: nat, b: nat, us: seq<nat>, vs: seq<nat>)
    requires |us| == |vs|
    ensures Fold(Xor(a, b), Difference(us, vs)) == Xor(Fold(a, us), Fold(b, vs))
    decreases |us|
  {
    if us != [] {
      StepLinear(a, b, us[0], vs[0]);
      FoldLinear(Step(a, us[0]), Step(b, vs[0]), us[1..], vs[1..]);
      assert Difference(us, vs)[1..] == Difference(us[1..], vs[1..]);
    }
  }

  // ----- no non-zero state is forgotten -----

  lemma FeedbackBit(top: nat, n: nat, j: nat)
    requires 0 < n <= 5
    ensures Bit(FeedbackSum(top, n), j) == (Bit(FeedbackSum(top, n - 1), j) != (Bit(top, n - 1) && Bit(GENERATOR[n - 1], j)))
  {
    BitOfXor(FeedbackSum(top, n - 1), if Bit(top, n - 1) then GENERATOR[n - 1] else 0, j);
    BitOfZero(j);
  }

  /** Bit j of a feedback word: the parity of the selected generator words' bits j. */
  predicate Parity(top: nat, n: nat, j: nat)
    requires n <= 5
  {
    n > 0 && Parity(top, n - 1, j) != (Bit(top, n - 1) && Bit(GENERATOR[n - 1], j))
  }

  lemma {:induction false} FeedbackParity(top: nat, n: nat, j: nat)
    requires n <= 5
    ensures Bit(FeedbackSum(top, n), j) == Parity(top, n, j)
  {
    if n == 0 {
      BitOfZero(j);
    } else {
      FeedbackBit(top, n, j);
      FeedbackParity(top, n - 1, j);
    }
  }

  lemma ParityOfFive(top: nat, j: nat)
    ensures Parity(top, 5, j) ==
            (((((Bit(top, 0) && Bit(0x3b6a57b2, j)) != (Bit(top, 1) && Bit(0x26508e6d, j)))
               != (Bit(top, 2) && Bit(0x1ea119fa, j))) != (Bit(top, 3) && Bit(0x3d4233dd, j)))
             != (Bit(top, 4) && Bit(0x2a1462b3, j)))
  {
    assert Parity(top, 1, j) == (Bit(top, 0) && Bit(0x3b6a57b2, j));
    assert Parity(top, 2, j) == ((Bit(top, 0) && Bit(0x3b6a57b2, j)) != (Bit(top, 1) && Bit(0x26508e6d, j)));
    assert Parity(top, 4, j) ==
           ((Parity(top, 2, j) != (Bit(top, 2) && Bit(0x1ea119fa, j))) != (Bit(top, 3) && Bit(0x3d4233dd, j)));
  }

  /** The low five bits of the generator words are linearly independent. */
  lemma FeedbackInjective(top: nat)
    requires forall j: nat | j < 5 :: !Bit(FeedbackSum(top, 5), j)
    ensures !Bit(top, 0) && !Bit(top, 1) && !Bit(top, 2) && !Bit(top, 3) && !Bit(top, 4)
  {
    GeneratorLowBits();
    forall j: nat | j < 5
      ensures !Parity(top, 5, j)
    {
      FeedbackParity(top, 5, j);
    }
    ParityOfFive(top, 0);
    ParityOfFive(top, 1);
    ParityOfFive(top, 2);
    ParityOfFive(top, 3);
    ParityOfFive(top, 4);
  }

  lemma GeneratorLowBits()
    ensures !Bit(0x3b6a57b2, 0) && Bit(0x3b6a57b2, 1) && !Bit(0x3b6a57b2, 2) && !Bit(0x3b6a57b2, 3) && Bit(0x3b6a57b2, 4)
    ensures Bit(0x26508e6d, 0) && !Bit(0x26508e6d, 1) && Bit(0x26508e6d, 2) && Bit(0x26508e6d, 3) && !Bit(0x26508e6d, 4)
    ensures !Bit(0x1ea119fa, 0) && Bit(0x1ea119fa, 1) && !Bit(0x1ea119fa, 2) && Bit(0x1ea119fa, 3) && Bit(0x1ea119fa, 4)
    ensures Bit(0x3d4233dd, 0) && !Bit(0x3d4233dd, 1) && Bit(0x3d4233dd, 2) && Bit(0x3d4233dd, 3) && Bit(0x3d4233dd, 4)
    ensures Bit(0x2a1462b3, 0) && Bit(0x2a1462b3, 1) && !Bit(0x2a1462b3, 2) && !Bit(0x2a1462b3, 3) && Bit(0x2a1462b3, 4)
  {
  }

  lemma StepKeepsNonZero(c: nat)
    requires c < 0x4000_0000 && Step(c, 0) == 0
    ensures c == 0
  {
    Powers();
    var s, top := Shl(Low(c, 25), 5), Shr(c, 25);
    XorZero(s);
    XorSelf(s, FeedbackSum(top, 5));
    forall j: nat | j < 5
      ensures !Bit(FeedbackSum(top, 5), j)
    {
      BitOfShl(Low(c, 25), 5, j);
    }
    FeedbackInjective(top);
    ShrBound(c, 25, 5);
    forall i: nat
      ensures Bit(top, i) == Bit(0, i)
    {
      BitOfZero(i);
      if i >= 5 {
        HighBitsZero(top, 5, i);
      }
    }
    SameBits(top, 0);
    FeedbackOfZero(5);
    ShlIsZero(Low(c, 25), 5);
    ShlIsZero(0, 25);
    ShlShrLow(c, 25);
  }

  lemma {:induction false} FeedbackOfZero(n: nat)
    requires n <= 5
    ensures FeedbackSum(0, n) == 0
  {
    if n > 0 {
      FeedbackOfZero(n - 1);
      BitOfZero(n - 1);
    }
  }

  lemma StepOfZero(v: nat)
    ensures Step(0, v) == v
  {
    ShlIsZero(0, 5);
    LowOfSmall(0, 25);
    ShrIsZero(0, 25);
    FeedbackOfZero(5);
    XorZero(v);
  }

  lemma {:induction false} FoldZeros(c: nat, n: nat)
    requires c < 0x4000_0000
    ensures Fold(c, Zeros(n)) == 0 <==> c == 0
    ensures Fold(c, Zeros(n)) < 0x4000_0000
    decreases n
  {
    if n > 0 {
      StepBound(c, 0);
      StepOfZero(0);
      if Step(c, 0) == 0 {
        StepKeepsNonZero(c);
      }
      FoldZeros(Step(c, 0), n - 1);
      assert Zeros(n)[1..] == Zeros(n - 1);
    }
  }

  lemma {:induction false} FoldBound(c: nat, vs: seq<nat>)
    requires c < 0x4000_0000 && forall i | 0 <= i < |vs| :: vs[i] < 256
    ensures Fold(c, vs) < 0x4000_0000
    decreases |vs|
  {
    if vs != [] {
      StepBound(c, vs[0]);
      FoldBound(Step(c, vs[0]), vs[1..]);
    }
  }

  // ----- six symbols fill the state exactly -----

  function Pack(vs: seq<nat>): nat {
    if vs == [] then 0 else 32 * Pack(vs[..|vs| - 1]) + vs[|vs| - 1]
  }

  lemma FiveShifts(y: nat)
    ensures Shl(y, 5) == 32 * y
  {
    hide Shl;
    ShlPlus2(y, 1);
    ShlPlus2(y, 3);
    OneShift(y);
  }

  lemma OneShift(y: nat)
    ensures Shl(y, 1) == 2 * y
  {
  }

  lemma StepSmall(c: nat, v: nat)
    requires c < 0x200_0000 && v < 32
    ensures Step(c, v) == 32 * c + v
  {
    hide Xor, Shl, Shr, Low, TwoTo, FeedbackSum;
    Powers();
    LowOfSmall(c, 25);
    ShrIsZero(c, 25);
    FeedbackOfZero(5);
    XorShifted(v, c, 5);
    XorZero(Xor(Shl(c, 5), v));
    FiveShifts(c);
  }

  lemma {:induction false} PackBound(vs: seq<nat>)
    requires |vs| <= 5 && AllBelow(vs, 32)
    ensures Pack(vs) < 0x200_0000
    ensures |vs| <= 4 ==> Pack(vs) < 0x10_0000
    ensures |vs| <= 3 ==> Pack(vs) < 0x8000
    ensures |vs| <= 2 ==> Pack(vs) < 0x400
    ensures |vs| <= 1 ==> Pack(vs) < 0x20
  {
    if vs != [] {
      PackBound(vs[..|vs| - 1]);
    }
  }

  lemma {:induction false} FoldPacks(vs: seq<nat>)
    requires |vs| <= 6 && AllBelow(vs, 32)
    ensures Fold(0, vs) == Pack(vs)
  {
    if vs != [] {
      var front, last := vs[..|vs| - 1], vs[|vs| - 1];
      FoldPacks(front);
      PackBound(front);
      PackStep(front, last);
      assert vs == front + [last];
    }
  }

  lemma PackStep(front: seq<nat>, last: nat)
    requires last < 32 && Fold(0, front) == Pack(front) < 0x200_0000
    ensures Fold(0, front + [last]) == Pack(front + [last])
  {
    FoldAppend(0, front, last);
    PackAppend(front, last);
    StepSmall(Pack(front), last);
  }

  lemma PackAppend(front: seq<nat>, last: nat)
    ensures Pack(front + [last]) == 32 * Pack(front) + last
  {
    assert (front + [last])[..|front|] == front;
  }

  lemma {:induction false} PackZero(vs: seq<nat>)
    ensures Pack(vs) == 0 <==> vs == Zeros(|vs|)
  {
    if vs != [] {
      PackZero(vs[..|vs| - 1]);
      assert vs == vs[..|vs| - 1] + [vs[|vs| - 1]];
    }
  }

  // ----- what the checksum guarantees -----

  lemma FoldSplit(chk: nat, vs: seq<nat>, k: nat)
    requires k <= |vs|
    ensures Fold(chk, vs) == Fold(Fold(chk, vs[..k]), vs[k..])
  {
    hide Fold, Step;
    FoldConcat(chk, vs[..k], vs[k..]);
    assert vs == vs[..k] + vs[k..];
  }

  lemma BurstThenZeros(burst: seq<nat>, m: nat)
    requires |burst| <= 6 && AllBelow(burst, 32) && burst != Zeros(|burst|)
    ensures Fold(Fold(0, burst), Zeros(m)) != 0
  {
    FoldPacks(burst);
    PackZero(burst);
    FoldBound(0, burst);
    FoldZeros(Fold(0, burst), m);
  }

  /** A difference that is non-zero, but only inside six consecutive positions, leaves a non-zero residue. */
  lemma BurstResidue(e: seq<nat>, start: nat, stop: nat)
    requires start <= stop <= |e| && stop - start <= 6
    requires AllBelow(e, 32) && e != Zeros(|e|)
    requires forall i | 0 <= i < |e| && !(start <= i < stop) :: e[i] == 0
    ensures Fold(0, e) != 0
  {
    hide Fold, Step;
    NonZeroBurst(e, start, stop);
    var burst := e[start..stop];
    FoldSplit(0, e, start);
    assert e[..start] == Zeros(start);
    FoldZeros(0, start);
    FoldSplit(0, e[start..], stop - start);
    assert e[start..][..stop - start] == burst;
    assert e[start..][stop - start..] == Zeros(|e| - stop);
    BurstThenZeros(burst, |e| - stop);
  }

  lemma NonZeroBurst(e: seq<nat>, start: nat, stop: nat)
    requires start <= stop <= |e| && e != Zeros(|e|)
    requires forall i | 0 <= i < |e| && !(start <= i < stop) :: e[i] == 0
    ensures e[start..stop] != Zeros(stop - start)
  {
    var k :| 0 <= k < |e| && e[k] != 0;
    assert e[start..stop][k - start] != 0;
  }

  lemma {:induction false} XorBelow32(x: nat, y: nat)
    requires x < 32 && y < 32
    ensures Xor(x, y) < 32
  {
    Powers();
    XorBound(x, y, 5);
  }

  /** Value strings that differ, but only inside six consecutive symbols, have different residues. */
  lemma BurstChangesResidue(chk: nat, us: seq<nat>, vs: seq<nat>, start: nat, stop: nat)
    requires |us| == |vs| && us != vs
    requires start <= stop <= |us| && stop - start <= 6
    requires forall i | 0 <= i < |us| && !(start <= i < stop) :: us[i] == vs[i]
    requires forall i | start <= i < stop :: us[i] < 32 && vs[i] < 32
    ensures Fold(chk, us) != Fold(chk, vs)
  {
    hide Fold, Step, Xor;
    var e := Difference(us, vs);
    forall i | 0 <= i < |e|
      ensures e[i] < 32 && (e[i] == 0 <==> us[i] == vs[i])
    {
      XorSelf(us[i], vs[i]);
      if us[i] != vs[i] {
        XorBelow32(us[i], vs[i]);
      }
    }
    var k :| 0 <= k < |us| && us[k] != vs[k];
    assert e[k] != Zeros(|e|)[k];
    BurstResidue(e, start, stop);
    XorSelf(chk, chk);
    FoldLinear(chk, chk, us, vs);
    XorSelf(Fold(chk, us), Fold(chk, vs));
  }

  // ----- creating a checksum -----

  /** Six symbols read off a 30-bit number, as the source computes them. */
  function ChecksumSymbols(p: nat): (vs: seq<nat>)
    ensures |vs| == 6
  {
    seq(6, i requires 0 <= i < 6 => And(Shr(p, 5 * (5 - i)), 31))
  }

  function LastSymbols(p: nat, k: nat): (vs: seq<nat>)
    ensures |vs| == k
  {
    if k == 0 then [] else LastSymbols(Shr(p, 5), k - 1) + [And(p, 31)]
  }

  lemma {:induction false} ShrAdd(x: nat, j: nat, k: nat)
    ensures Shr(Shr(x, j), k) == Shr(x, j + k)
  {
    if j > 0 {
      ShrAdd(x / 2, j - 1, k);
    }
  }

  lemma {:induction false} LastSymbolAt(p: nat, k: nat, i: nat)
    requires i < k
    ensures LastSymbols(p, k)[i] == And(Shr(p, 5 * (k - 1 - i)), 31)
  {
    if i < k - 1 {
      LastSymbolAt(Shr(p, 5), k - 1, i);
      ShrAdd(p, 5, 5 * (k - 2 - i));
    }
  }

  lemma SymbolSplit(x: nat)
    ensures And(x, 31) < 32 && x == 32 * Shr(x, 5) + And(x, 31)
  {
    hide Shr, Shl, And, Low, TwoTo;
    Powers();
    MaskIsLow(x, 5);
    ShlShrLow(x, 5);
    FiveShifts(Shr(x, 5));
  }

  lemma {:induction false} PackSymbols(p: nat, k: nat)
    requires Shr(p, 5 * k) == 0
    ensures Pack(LastSymbols(p, k)) == p && AllBelow(LastSymbols(p, k), 32)
  {
    hide Shr, And;
    SymbolSplit(p);
    if k > 0 {
      ShrAdd(p, 5, 5 * (k - 1));
      PackSymbols(Shr(p, 5), k - 1);
      PackAppend(LastSymbols(Shr(p, 5), k - 1), And(p, 31));
    } else {
      ShrNone(p);
    }
  }

  lemma ShrNone(p: nat)
    ensures Shr(p, 0) == p
  {
  }

  lemma ChecksumSymbolsPack(p: nat)
    requires p < 0x4000_0000
    ensures Pack(ChecksumSymbols(p)) == p && AllBelow(ChecksumSymbols(p), 32)
  {
    hide Pack, Shr, And, LastSymbols, TwoTo;
    Powers();
    ShrIsZero(p, 30);
    PackSymbols(p, 6);
    forall i | 0 <= i < 6
      ensures ChecksumSymbols(p)[i] == LastSymbols(p, 6)[i]
    {
      LastSymbolAt(p, 6, i);
    }
    assert ChecksumSymbols(p) == LastSymbols(p, 6);
  }

  /** The six symbols that bring any state to the residue `constant`. */
  function Checksum(chk: nat, constant: nat): (vs: seq<nat>)
    ensures |vs| == 6
  {
    ChecksumSymbols(Xor(Fold(chk, Zeros(6)), constant))
  }

  lemma ChecksumCloses(chk: nat, constant: nat)
    requires chk < 0x4000_0000 && constant < 0x4000_0000
    ensures AllBelow(Checksum(chk, constant), 32)
    ensures Fold(chk, Checksum(chk, constant)) == constant
  {
    hide Fold, Xor, ChecksumSymbols, Pack;
    Powers();
    var f := Fold(chk, Zeros(6));
    FoldZeros(chk, 6);
    XorBound(f, constant, 30);
    var p := Xor(f, constant);
    var vs := ChecksumSymbols(p);
    ChecksumSymbolsPack(p);
    FoldPacks(vs);
    FoldLinear(chk, 0, Zeros(6), vs);
    XorZero(chk);
    forall i | 0 <= i < 6
      ensures Difference(Zeros(6), vs)[i] == vs[i]
    {
      XorZero(vs[i]);
    }
    assert Difference(Zeros(6), vs) == vs;
    XorAssoc(f, f, constant);
    XorSelf(f, f);
    XorZero(constant);
  }

  /** No other six symbols do. */
  lemma ChecksumUnique(chk: nat, constant: nat, vs: seq<nat>)
    requires chk < 0x4000_0000 && constant < 0x4000_0000
    requires |vs| == 6 && AllBelow(vs, 32) && Fold(chk, vs) == constant
    ensures vs == Checksum(chk, constant)
  {
    hide Fold, Checksum;
    ChecksumCloses(chk, constant);
    if vs != Checksum(chk, constant) {
      BurstChangesResidue(chk, vs, Checksum(chk, constant), 0, 6);
    }
  }
}
