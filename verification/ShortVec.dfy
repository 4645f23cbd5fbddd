/** Solana's compact lengths: seven bits a byte, lowest first, high bit set on all but the last. */
module ShortVec {
  import opened Bytes
  import opened MachineBits

  datatype ShortVecError = EmptyData | Incomplete | Overflow

  /** The spelling of a length with as few groups as possible. */
  function Encoded(n: nat): (bs: Bytes)
    ensures bs != []
  {
    if n < 128 then [n] else [128 + n % 128] + Encoded(n / 128)
  }

  /** The number that seven-bit groups stand for, lowest group first. */
  function GroupSum(bs: Bytes): nat {
    if bs == [] then 0 else bs[0] % 128 + 128 * GroupSum(bs[1..])
  }

  /** How many bytes at the front have the high bit set. */
  function Continuations(bs: Bytes): (k: nat)
    ensures k <= |bs|
    ensures forall i | 0 <= i < k :: bs[i] >= 128
    ensures k < |bs| ==> bs[k] < 128
  {
    if bs == [] || bs[0] < 128 then 0 else 1 + Continuations(bs[1..])
  }

  /** What a length at the front of a string is, and how many bytes it takes: four at most. */
  function Decoded(data: Bytes): Result<(nat, nat), ShortVecError> {
    var k := Continuations(data);
    if data == [] then Err(EmptyData)
    else if k >= 4 then Err(Overflow)
    else if k == |data| then Err(Incomplete)
    else Ok((GroupSum(data[..k + 1]), k + 1))
  }

  // ----- the continuation bit -----

  lemma HighBit(b: byte)
    ensures And(b, 0x80) == 0 <==> b < 128
    ensures b < 128 ==> Or(b, 0x80) == 128 + b
  {
    hide And, Or, Shr, Shl, TwoTo, Bit;
    SevenBits(b);
    AndPower(b, 7);
    BitIsParity(b, 7);
    if b < 128 {
      OrShifted(b, 1, 7);
      Shl7(1, 0);
    }
  }

  // ----- the encoder and the decoder -----

  method EncodeShortLen(len: u64) returns (out: Bytes)
    ensures out == Encoded(len)
  {
    hide And, Or, Shr;
    var rem: nat := len;
    out := [];
    while true
      invariant out + Encoded(rem) == Encoded(len)
      decreases rem
    {
      ghost var done, before := out, rem;
      SevenBits(rem);
      var elem: byte := And(rem, 0x7f);
      rem := Shr(rem, 7);
      if rem != 0 {
        HighBit(elem);
        elem := Or(elem, 0x80);
      }
      out := out + [elem];
      if rem == 0 {
        assert Encoded(before) == [elem];
        break;
      }
      assert Encoded(before) == [elem] + Encoded(rem);
      assert out + Encoded(rem) == done + Encoded(before);
    }
  }

  method DecodeShortVec(data: Bytes) returns (r: Result<(u64, nat), ShortVecError>)
    ensures r == Decoded(data)
  {
    hide And, Or, Shl, GroupSum, Continuations;
    if data == [] {
      return Err(EmptyData);
    }
    var value: u64 := 0;
    var shift := 0;
    var i := 0;
    NoGroups();
    while true
      invariant i <= 3 && i <= |data| && shift == 7 * i
      invariant forall j | 0 <= j < i :: data[j] >= 128
      invariant value == GroupSum(data[..i])
      decreases 4 - i
    {
      if i >= |data| {
        assert Continuations(data) == i;
        return Err(Incomplete);
      }
      var b := data[i];
      AddGroup(data, i);
      value := Or(value, Shl(And(b, 0x7f), shift));
      HighBit(b);
      if And(b, 0x80) == 0 {
        assert Continuations(data) == i;
        return Ok((value, i + 1));
      }
      shift := shift + 7;
      i := i + 1;
      if shift > 21 {
        assert Continuations(data) >= 4;
        return Err(Overflow);
      }
    }
  }

  lemma NoGroups()
    ensures GroupSum([]) == 0
  {
  }

  /** One more group: the disjunction into the accumulator is an addition, far inside 64 bits. */
  lemma AddGroup(data: Bytes, i: nat)
    requires i < |data| && i <= 3
    ensures Or(GroupSum(data[..i]), Shl(And(data[i], 0x7f), 7 * i)) == GroupSum(data[..i + 1]) < 0x1000_0000
  {
    hide And, Or, Shl, GroupSum;
    SevenBits(data[i]);
    GroupSumBound(data[..i]);
    OrShifted(GroupSum(data[..i]), data[i] % 128, 7 * i);
    assert data[..i + 1] == data[..i] + [data[i]];
    GroupSumAppend(data[..i], data[i]);
    GroupSumBound(data[..i + 1]);
    TwoToMono(7 * (i + 1), 28);
    FourGroups();
  }

  lemma FourGroups()
    ensures TwoTo(28) == 0x1000_0000
  {
    TwoToPlus8(0);
    TwoToPlus8(8);
    TwoToPlus8(16);
    TwoTo7(21);
    TwoTo7(14);
    TwoTo7(7);
    TwoTo7(0);
  }

  lemma {:induction false} GroupSumBound(bs: Bytes)
    ensures GroupSum(bs) < TwoTo(7 * |bs|)
  {
    if bs != [] {
      GroupSumBound(bs[1..]);
      TwoTo7(7 * |bs[1..]|);
    }
  }

  lemma {:induction false} GroupSumAppend(bs: Bytes, b: byte)
    ensures GroupSum(bs + [b]) == GroupSum(bs) + Shl(b % 128, 7 * |bs|)
  {
    hide Shl;
    if bs == [] {
      assert bs + [b] == [b] && [b][1..] == [];
      Shl7(b % 128, 0);
    } else {
      assert (bs + [b])[1..] == bs[1..] + [b];
      GroupSumAppend(bs[1..], b);
      Shl7(b % 128, 7 * |bs[1..]|);
    }
  }

  // ----- laws -----

  /** A complete spelling: high bit on all bytes but the last. */
  predicate Groups(bs: Bytes) {
    bs != [] && Continuations(bs) == |bs| - 1
  }

  lemma {:induction false} EncodedShape(n: nat)
    ensures Groups(Encoded(n)) && GroupSum(Encoded(n)) == n
  {
    if n >= 128 {
      EncodedShape(n / 128);
      assert Encoded(n)[1..] == Encoded(n / 128);
    }
  }

  /** k groups are enough exactly for numbers below 2^(7k). */
  lemma {:induction false} EncodedLength(n: nat, k: nat)
    requires k > 0
    ensures |Encoded(n)| <= k <==> n < TwoTo(7 * k)
    decreases k
  {
    SevenBits(0);
    if n >= 128 && k > 1 {
      EncodedLength(n / 128, k - 1);
      TwoTo7(7 * (k - 1));
    } else {
      TwoToMono(7, 7 * k);
    }
  }

  lemma {:induction false} GroupsThenTail(bs: Bytes, tail: Bytes)
    requires Groups(bs)
    ensures Continuations(bs + tail) == |bs| - 1
  {
    if |bs| > 1 {
      assert (bs + tail)[1..] == bs[1..] + tail;
      GroupsThenTail(bs[1..], tail);
    }
  }

  /** A length is read back, with the exact number of its bytes, exactly when it is below 2^28. */
  lemma DecodeEncode(n: nat, tail: Bytes)
    ensures Decoded(Encoded(n) + tail)
         == if n < 0x1000_0000 then Ok((n, |Encoded(n)|)) else Err(Overflow)
    ensures n < 0x1000_0000 ==> 1 <= |Encoded(n)| <= 4
  {
    hide Encoded, GroupSum, Continuations;
    EncodedShape(n);
    GroupsThenTail(Encoded(n), tail);
    EncodedLength(n, 4);
    FourGroups();
    assert (Encoded(n) + tail)[..|Encoded(n)|] == Encoded(n);
  }

  /** What is accepted is below 2^28, does not depend on what follows, and is the shortest spelling of its
      number exactly when its last group is not a padding zero. */
  lemma Accepted(data: Bytes, n: nat, k: nat, tail: Bytes)
    requires Decoded(data) == Ok((n, k))
    ensures n < 0x1000_0000 && 1 <= k <= 4 && k <= |data|
    ensures Decoded(data[..k] + tail) == Ok((n, k))
    ensures data[..k] == Encoded(n) <==> k == 1 || data[k - 1] != 0
  {
    hide Encoded, GroupSum;
    var bs := data[..k];
    GroupsOfPrefix(data);
    GroupsThenTail(bs, tail);
    assert (bs + tail)[..k] == bs;
    GroupSumBound(bs);
    TwoToMono(7 * k, 28);
    FourGroups();
    CanonicalGroups(bs);
  }

  lemma {:induction false} GroupsOfPrefix(data: Bytes)
    requires Continuations(data) < |data|
    ensures Groups(data[..Continuations(data) + 1])
  {
    var k := Continuations(data);
    if k > 0 {
      GroupsOfPrefix(data[1..]);
      assert data[..k + 1][1..] == data[1..][..k];
    }
  }

  lemma {:induction false} CanonicalGroups(bs: Bytes)
    requires Groups(bs)
    ensures bs[|bs| - 1] != 0 ==> GroupSum(bs) > 0
    ensures Encoded(GroupSum(bs)) == bs <==> |bs| == 1 || bs[|bs| - 1] != 0
  {
    hide Encoded, GroupSum, Continuations;
    OneGroup(bs);
    if |bs| > 1 {
      var rest := bs[1..];
      CanonicalGroups(rest);
      OneGroup(rest);
      assert bs == [bs[0]] + rest;
      if Encoded(GroupSum(bs)) == bs {
        assert Encoded(GroupSum(bs))[1..] == rest;
      }
    }
  }

  /** Peeling the first group off a spelling and off its number. */
  lemma OneGroup(bs: Bytes)
    requires Groups(bs)
    ensures |bs| == 1 ==> GroupSum(bs) == bs[0] && Encoded(GroupSum(bs)) == bs
    ensures |bs| > 1 ==> Groups(bs[1..]) && (GroupSum(bs) > 0 <== GroupSum(bs[1..]) > 0)
    ensures |bs| > 1 && GroupSum(bs[1..]) > 0 ==> Encoded(GroupSum(bs)) == [bs[0]] + Encoded(GroupSum(bs[1..]))
    ensures |bs| > 1 && GroupSum(bs[1..]) == 0 ==> |Encoded(GroupSum(bs))| == 1
  {
    hide Encoded, GroupSum, Continuations, Groups;
    FirstGroup(bs);
    var r := if |bs| == 1 then bs[0] else bs[0] - 128;
    EncodedSplit(r, GroupSum(bs[1..]));
  }

  lemma FirstGroup(bs: Bytes)
    requires Groups(bs)
    ensures bs != []
    ensures |bs| == 1 ==> bs[0] < 128 && GroupSum(bs[1..]) == 0 && GroupSum(bs) == bs[0] && bs == [bs[0]]
    ensures |bs| > 1 ==> bs[0] >= 128 && Groups(bs[1..]) && GroupSum(bs) == bs[0] - 128 + 128 * GroupSum(bs[1..])
  {
    hide GroupSum, Continuations, Groups;
    FirstContinues(bs);
    FirstSum(bs);
    NoGroups();
    assert |bs| == 1 ==> bs[1..] == [];
  }

  lemma FirstContinues(bs: Bytes)
    requires Groups(bs)
    ensures bs != []
    ensures |bs| == 1 ==> bs[0] < 128
    ensures |bs| > 1 ==> bs[0] >= 128 && Groups(bs[1..])
  {
    hide GroupSum;
  }

  lemma FirstSum(bs: Bytes)
    requires bs != []
    ensures GroupSum(bs) == (if bs[0] < 128 then bs[0] else bs[0] - 128) + 128 * GroupSum(bs[1..])
  {
    var b := bs[0];
    assert b % 128 == if b < 128 then b else b - 128;
  }

  lemma EncodedSplit(r: nat, g: nat)
    requires r < 128
    ensures Encoded(r + 128 * g) == if g == 0 then [r] else [128 + r] + Encoded(g)
  {
    assert (r + 128 * g) / 128 == g && (r + 128 * g) % 128 == r;
  }

  /** The spelling of every length that can be read, by its base-128 digits. */
  lemma SpelledForms(a: nat, b: nat, c: nat, d: nat)
    requires a < 128 && b < 128 && c < 128 && d < 128
    ensures Encoded(a + 128 * (b + 128 * (c + 128 * d))) ==
            if d > 0 then [0x80 + a, 0x80 + b, 0x80 + c, d]
            else if c > 0 then [0x80 + a, 0x80 + b, c]
            else if b > 0 then [0x80 + a, b]
            else [a]
  {
    hide Encoded;
    var high := c + 128 * d;
    EncodedSplit(d, 0);
    EncodedSplit(c, d);
    EncodedSplit(b, high);
    EncodedSplit(a, b + 128 * high);
  }
}
