/** `convert_bits` of the Bitcoin signer: an accumulator of 32 bits against unbounded bit strings. */
module BitRegrouping {
  import opened Bytes
  import opened MachineBits
  import opened Positional

  datatype RegroupError = InvalidValue | InvalidPadding

  /** Every value as `width` bits, most significant first, in one unbounded string. */
  function BitString(data: seq<nat>, width: nat): (b: Bits) {
    if data == [] then [] else BitsOf(data[0], width) + BitString(data[1..], width)
  }

  /** The whole groups of `width` bits, read as numbers. */
  function Groups(bits: Bits, width: nat): (g: seq<nat>)
    requires width > 0
    ensures AllBelow(g, TwoTo(width))
    decreases |bits|
  {
    if |bits| < width then [] else
      NumBound(bits[..width]);
      [Num(bits[..width])] + Groups(bits[width..], width)
  }

  /** The bits left over after the last whole group. */
  function Tail(bits: Bits, width: nat): (t: Bits)
    requires width > 0
    ensures |t| < width
    decreases |bits|
  {
    if |bits| < width then bits else Tail(bits[width..], width)
  }

  function ZeroBits(n: nat): (z: Bits)
    ensures |z| == n && forall i | 0 <= i < n :: !z[i]
  {
    seq(n, _ => false)
  }

  /** Regrouping as BIP173 means it: cut the whole bit string into groups of `toBits`. */
  function Regroup(data: seq<nat>, fromBits: nat, toBits: nat, pad: bool): (r: Result<seq<nat>, RegroupError>)
    requires fromBits > 0 && toBits > 0
  {
    if !AllBelow(data, TwoTo(fromBits)) then Err(InvalidValue)
    else
      var bits := BitString(data, fromBits);
      var groups, tail := Groups(bits, toBits), Tail(bits, toBits);
      if pad then
        Ok(if tail == [] then groups else groups + [Num(tail + ZeroBits(toBits - |tail|))])
      else if |tail| >= fromBits || tail != ZeroBits(|tail|) then Err(InvalidPadding)
      else Ok(groups)
  }

  // ----- bit strings divide in one way -----

  lemma Reassociate(a: Bits, b: Bits, c: Bits)
    ensures a + (b + c) == (a + b) + c
  {
  }

  lemma {:induction false} BitStringConcat(a: seq<nat>, b: seq<nat>, width: nat)
    ensures BitString(a + b, width) == BitString(a, width) + BitString(b, width)
  {
    if a == [] {
      assert a + b == b;
    } else {
      assert (a + b)[1..] == a[1..] + b && (a + b)[0] == a[0];
      BitStringConcat(a[1..], b, width);
      Reassociate(BitsOf(a[0], width), BitString(a[1..], width), BitString(b, width));
    }
  }

  lemma BitStringAppend(a: seq<nat>, v: nat, width: nat)
    ensures BitString(a + [v], width) == BitString(a, width) + BitsOf(v, width)
  {
    BitStringConcat(a, [v], width);
    assert BitString([v], width) == BitsOf(v, width) + BitString([v][1..], width);
  }

  lemma {:induction false} GroupsUnique(bits: Bits, width: nat, g: seq<nat>, t: Bits)
    requires width > 0 && AllBelow(g, TwoTo(width)) && |t| < width
    requires bits == BitString(g, width) + t
    ensures Groups(bits, width) == g && Tail(bits, width) == t
    decreases |g|
  {
    hide BitsOf, Num, TwoTo;
    if g == [] {
      assert bits == t;
    } else {
      var first, rest := BitsOf(g[0], width), BitString(g[1..], width) + t;
      NumOfBits(g[0], width);
      Reassociate(first, BitString(g[1..], width), t);
      assert bits[..width] == first && bits[width..] == rest;
      GroupsUnique(rest, width, g[1..], t);
      assert g == [g[0]] + g[1..];
    }
  }

  lemma {:induction false} GroupsCover(bits: Bits, width: nat)
    requires width > 0
    ensures bits == BitString(Groups(bits, width), width) + Tail(bits, width)
    decreases |bits|
  {
    if |bits| >= width {
      var first, rest := bits[..width], bits[width..];
      GroupsCover(rest, width);
      BitsOfNum(first);
      assert bits == first + rest;
      Reassociate(first, BitString(Groups(rest, width), width), Tail(rest, width));
    }
  }

  // ----- the accumulator -----

  /** The accumulator's low bits are the ones not yet emitted; anything above them is garbage. */
  lemma AbsorbBits(acc: u32, value: nat, pending: Bits, width: nat)
    requires BitsOf(acc, |pending|) == pending
    requires value < TwoTo(width) && |pending| + width <= 32
    ensures BitsOf(Or(Shl32(acc, width), value), |pending| + width) == pending + BitsOf(value, width)
  {
    var n := |pending| + width;
    var acc' := Or(Shl32(acc, width), value);
    forall j | 0 <= j < n
      ensures BitsOf(acc', n)[j] == (pending + BitsOf(value, width))[j]
    {
      var i := n - 1 - j;
      BitsOfAt(acc', n, j);
      BitOfOr(Shl32(acc, width), value, i);
      BitOfShl32(acc, width, i);
      if j < |pending| {
        BitsOfAt(acc, |pending|, j);
        HighBitsZero(value, width, i);
      } else {
        BitsOfAt(value, width, j - |pending|);
      }
    }
  }

  lemma {:induction false} OrBound(x: nat, y: nat, k: nat)
    requires x < TwoTo(k) && y < TwoTo(k)
    ensures Or(x, y) < TwoTo(k)
  {
    if k > 0 {
      OrBound(x / 2, y / 2, k - 1);
    }
  }

  lemma OrFits(x: u32, value: nat)
    requires value < 0x1_0000_0000
    ensures Or(x, value) < 0x1_0000_0000
  {
    TwoTo32();
    OrBound(x, value, 32);
  }

  /** Masking reads a number off the low bits. */
  lemma MaskReads(x: nat, b: Bits)
    requires BitsOf(x, |b|) == b
    ensures And(x, TwoTo(|b|) - 1) == Num(b)
  {
    var masked := And(x, TwoTo(|b|) - 1);
    forall j | 0 <= j < |b|
      ensures BitsOf(masked, |b|)[j] == b[j]
    {
      BitsOfAt(masked, |b|, j);
      BitsOfAt(x, |b|, j);
      BitOfAnd(x, TwoTo(|b|) - 1, |b| - 1 - j);
      BitOfMask(|b|, |b| - 1 - j);
    }
    assert BitsOf(masked, |b|) == b;
    AndMaskBound(x, |b|);
    NumOfBits(masked, |b|);
  }

  lemma ShiftedBits(acc: u32, pending: Bits, width: nat)
    requires BitsOf(acc, |pending|) == pending && width <= |pending|
    ensures BitsOf(Shr(acc, |pending| - width), width) == pending[..width]
  {
    var rest := |pending| - width;
    forall j | 0 <= j < width
      ensures BitsOf(Shr(acc, rest), width)[j] == pending[j]
    {
      BitsOfAt(Shr(acc, rest), width, j);
      BitOfShr(acc, rest, width - 1 - j);
      BitsOfAt(acc, |pending|, j);
    }
  }

  lemma {:induction false} LowerBits(acc: nat, n: nat, m: nat)
    requires m <= n
    ensures BitsOf(acc, m) == BitsOf(acc, n)[n - m..]
    decreases m
  {
    if m > 0 {
      LowerBits(acc / 2, n - 1, m - 1);
    }
  }

  lemma EmitBits(acc: u32, pending: Bits, width: nat)
    requires BitsOf(acc, |pending|) == pending && width <= |pending|
    ensures And(Shr(acc, |pending| - width), TwoTo(width) - 1) == Num(pending[..width])
    ensures BitsOf(acc, |pending| - width) == pending[width..]
  {
    ShiftedBits(acc, pending, width);
    MaskReads(Shr(acc, |pending| - width), pending[..width]);
    LowerBits(acc, |pending|, |pending| - width);
  }

  lemma {:induction false} BitsOfZero(z: nat)
    ensures BitsOf(0, z) == ZeroBits(z)
  {
    if z > 0 {
      BitsOfZero(z - 1);
    }
  }

  lemma PadBits(acc: u32, pending: Bits, width: nat, z: nat)
    requires BitsOf(acc, |pending|) == pending && |pending| + z == width <= 32
    ensures And(Shl32(acc, z), TwoTo(width) - 1) == Num(pending + ZeroBits(z))
  {
    AbsorbBits(acc, 0, pending, z);
    BitsOfZero(z);
    OrZero(Shl32(acc, z));
    MaskReads(Shl32(acc, z), pending + ZeroBits(z));
  }

  lemma {:induction false} NumIsZero(b: Bits)
    ensures Num(b) == 0 <==> b == ZeroBits(|b|)
  {
    if b != [] {
      NumIsZero(b[..|b| - 1]);
      assert b == b[..|b| - 1] + [b[|b| - 1]];
    }
  }

  /** After consuming some input, what is emitted and what is pending spell the same bit string. */
  ghost predicate Spells(consumed: seq<nat>, fromBits: nat, ret: seq<nat>, toBits: nat, acc: u32, pending: Bits) {
    && BitsOf(acc, |pending|) == pending
    && AllBelow(consumed, TwoTo(fromBits))
    && AllBelow(ret, TwoTo(toBits))
    && BitString(consumed, fromBits) == BitString(ret, toBits) + pending
  }

  lemma Absorb(consumed: seq<nat>, fromBits: nat, ret: seq<nat>, toBits: nat, acc: u32, pending: Bits, value: byte)
    requires Spells(consumed, fromBits, ret, toBits, acc, pending)
    requires value < TwoTo(fromBits) && |pending| + fromBits <= 32
    ensures Or(Shl32(acc, fromBits), value) < 0x1_0000_0000
    ensures Spells(consumed + [value], fromBits, ret, toBits,
                   Or(Shl32(acc, fromBits), value), pending + BitsOf(value, fromBits))
  {
    hide BitString, BitsOf, And, Shr, Or, Shl32;
    OrFits(Shl32(acc, fromBits), value);
    AbsorbBits(acc, value, pending, fromBits);
    BitStringAppend(consumed, value, fromBits);
    Reassociate(BitString(ret, toBits), pending, BitsOf(value, fromBits));
  }

  lemma MoveAcross(a: Bits, p: Bits, k: nat)
    requires k <= |p|
    ensures a + p == (a + p[..k]) + p[k..]
  {
  }

  lemma Emit(consumed: seq<nat>, fromBits: nat, ret: seq<nat>, toBits: nat, acc: u32, pending: Bits)
    requires Spells(consumed, fromBits, ret, toBits, acc, pending) && toBits <= |pending|
    ensures Spells(consumed, fromBits, ret + [And(Shr(acc, |pending| - toBits), TwoTo(toBits) - 1)], toBits,
                   acc, pending[toBits..])
  {
    hide BitString, BitsOf, And, Shr, Or, Shl32;
    var head := pending[..toBits];
    EmitBits(acc, pending, toBits);
    NumBound(head);
    BitsOfNum(head);
    BitStringAppend(ret, Num(head), toBits);
    MoveAcross(BitString(ret, toBits), pending, toBits);
  }

  lemma Finish(data: seq<nat>, fromBits: nat, ret: seq<nat>, toBits: nat, acc: u32, pending: Bits)
    requires Spells(data, fromBits, ret, toBits, acc, pending)
    requires fromBits > 0 && |pending| < toBits <= 32
    ensures var last := And(Shl32(acc, toBits - |pending|), TwoTo(toBits) - 1);
            && Regroup(data, fromBits, toBits, true) == Ok(if |pending| == 0 then ret else ret + [last])
            && Regroup(data, fromBits, toBits, false) ==
               if |pending| >= fromBits || last != 0 then Err(InvalidPadding) else Ok(ret)
  {
    hide Shl32, And, TwoTo, Groups, Tail, BitString, BitsOf;
    var padded := pending + ZeroBits(toBits - |pending|);
    GroupsUnique(BitString(data, fromBits), toBits, ret, pending);
    PadBits(acc, pending, toBits, toBits - |pending|);
    NumIsZero(padded);
    if padded == ZeroBits(toBits) {
      assert pending == padded[..|pending|];
    }
  }

  lemma Start(fromBits: nat, toBits: nat)
    ensures Spells([], fromBits, [], toBits, 0, [])
  {
  }

  lemma TooLarge(data: Bytes, i: nat, fromBits: nat, toBits: nat, pad: bool)
    requires i < |data| && data[i] >= TwoTo(fromBits) && fromBits > 0 && toBits > 0
    ensures Regroup(data, fromBits, toBits, pad) == Err(InvalidValue)
  {
  }

  /** The loop of the source, with its accumulator that silently drops high bits. */
  method ConvertBits(data: Bytes, fromBits: nat, toBits: nat, pad: bool) returns (r: Result<seq<nat>, RegroupError>)
    requires 1 <= fromBits <= 8 && 1 <= toBits <= 8
    ensures r == Regroup(data, fromBits, toBits, pad)
  {
    hide BitString, BitsOf, Groups, Tail, Num, And, Shr, Or, Shl32, Regroup, Spells;
    var acc: u32 := 0;
    var bits: nat := 0;
    var ret: seq<nat> := [];
    var maxv := TwoTo(toBits) - 1;
    ghost var pending: Bits := [];
    Start(fromBits, toBits);
    for i := 0 to |data|
      invariant bits == |pending| < toBits
      invariant Spells(data[..i], fromBits, ret, toBits, acc, pending)
    {
      var value := data[i];
      ShrIsZero(value, fromBits);
      if Shr(value, fromBits) != 0 {
        TooLarge(data, i, fromBits, toBits, pad);
        return Err(InvalidValue);
      }
      Absorb(data[..i], fromBits, ret, toBits, acc, pending, value);
      ghost var consumed := data[..i] + [value];
      assert data[..i + 1] == consumed;
      acc := Or(Shl32(acc, fromBits), value);
      bits := bits + fromBits;
      pending := pending + BitsOf(value, fromBits);
      while bits >= toBits
        invariant bits == |pending|
        invariant Spells(consumed, fromBits, ret, toBits, acc, pending)
      {
        Emit(consumed, fromBits, ret, toBits, acc, pending);
        bits := bits - toBits;
        ret := ret + [And(Shr(acc, bits), maxv)];
        pending := pending[toBits..];
      }
    }
    assert data[..|data|] == data;
    Finish(data, fromBits, ret, toBits, acc, pending);
    if pad {
      if bits > 0 {
        ret := ret + [And(Shl32(acc, toBits - bits), maxv)];
      }
    } else if bits >= fromBits || And(Shl32(acc, toBits - bits), maxv) != 0 {
      return Err(InvalidPadding);
    }
    return Ok(ret);
  }

  // ----- the two directions of an address are inverse bijections -----

  /** A padded regrouping spells the input followed by z zeros, fewer than one group holds. */
  lemma PaddedSpelling(d: seq<nat>, wide: nat, narrow: nat) returns (z: nat)
    requires 0 < narrow <= wide && AllBelow(d, TwoTo(wide))
    ensures var s := Regroup(d, wide, narrow, true);
            && s.Ok? && AllBelow(s.value, TwoTo(narrow))
            && z < narrow && BitString(s.value, narrow) == BitString(d, wide) + ZeroBits(z)
  {
    hide BitString, BitsOf, Groups, Tail, Num;
    var bits := BitString(d, wide);
    var t := Tail(bits, narrow);
    GroupsCover(bits, narrow);
    if t == [] {
      z := 0;
      assert bits + ZeroBits(0) == bits == BitString(Groups(bits, narrow), narrow);
    } else {
      z := narrow - |t|;
      PadGroup(Groups(bits, narrow), t, z, narrow);
    }
  }

  lemma PadGroup(g: seq<nat>, t: Bits, z: nat, width: nat)
    requires AllBelow(g, TwoTo(width)) && |t| + z == width
    ensures AllBelow(g + [Num(t + ZeroBits(z))], TwoTo(width))
    ensures BitString(g + [Num(t + ZeroBits(z))], width) == (BitString(g, width) + t) + ZeroBits(z)
  {
    NumBound(t + ZeroBits(z));
    BitsOfNum(t + ZeroBits(z));
    BitStringAppend(g, Num(t + ZeroBits(z)), width);
    Reassociate(BitString(g, width), t, ZeroBits(z));
  }

  /** Unpadded regrouping undoes padded regrouping, for every input. */
  lemma UnpadAfterPad(d: seq<nat>, wide: nat, narrow: nat)
    requires 0 < narrow <= wide && AllBelow(d, TwoTo(wide))
    ensures var s := Regroup(d, wide, narrow, true);
            s.Ok? && Regroup(s.value, narrow, wide, false) == Ok(d)
  {
    var z := PaddedSpelling(d, wide, narrow);
    var s := Regroup(d, wide, narrow, true).value;
    GroupsUnique(BitString(s, narrow), wide, d, ZeroBits(z));
  }

  /** The unpadded direction accepts only what the padded direction produces. */
  lemma PadAfterUnpad(s: seq<nat>, d: seq<nat>, wide: nat, narrow: nat)
    requires 0 < narrow <= wide
    requires Regroup(s, narrow, wide, false) == Ok(d)
    ensures AllBelow(d, TwoTo(wide)) && Regroup(d, wide, narrow, true) == Ok(s)
  {
    hide BitString, BitsOf, Groups, Tail, Num;
    var bits := BitString(s, narrow);
    var z := |Tail(bits, wide)|;
    GroupsCover(bits, wide);
    if z == 0 {
      assert BitString(d, wide) == BitString(s, narrow) + [];
      GroupsUnique(BitString(d, wide), narrow, s, []);
    } else {
      if s == [] {
        assert false by { EmptyTail(narrow, wide); }
      }
      assert s == s[..|s| - 1] + [s[|s| - 1]];
      RepadLast(BitString(d, wide), s[..|s| - 1], s[|s| - 1], z, narrow);
    }
  }

  lemma EmptyTail(width: nat, wide: nat)
    requires wide > 0
    ensures Tail(BitString([], width), wide) == []
  {
  }

  /** Cutting z zeros off the last group and padding again restores it. */
  lemma RepadLast(bits: Bits, init: seq<nat>, last: nat, z: nat, width: nat)
    requires 0 < z < width && AllBelow(init, TwoTo(width)) && last < TwoTo(width)
    requires BitString(init + [last], width) == bits + ZeroBits(z)
    ensures Groups(bits, width) == init && Tail(bits, width) != []
    ensures Num(Tail(bits, width) + ZeroBits(width - |Tail(bits, width)|)) == last
  {
    BitStringAppend(init, last, width);
    DropZeros(bits, BitString(init, width), BitsOf(last, width), z);
    GroupsUnique(bits, width, init, BitsOf(last, width)[..width - z]);
    NumOfBits(last, width);
  }

  lemma DropZeros(d: Bits, a: Bits, b: Bits, z: nat)
    requires d + ZeroBits(z) == a + b && z <= |b|
    ensures d == a + b[..|b| - z] && b == b[..|b| - z] + ZeroBits(z)
  {
    assert d == (a + b)[..|a| + |b| - z];
    assert ZeroBits(z) == (a + b)[|a| + |b| - z..];
  }

  /** Accepted five-bit strings are exactly the images of byte strings. */
  lemma UnpadAcceptsExactlyImages(s: seq<nat>, wide: nat, narrow: nat)
    requires 0 < narrow <= wide
    ensures Regroup(s, narrow, wide, false).Ok? <==>
            exists d: seq<nat> :: AllBelow(d, TwoTo(wide)) && Regroup(d, wide, narrow, true) == Ok(s)
  {
    if Regroup(s, narrow, wide, false).Ok? {
      PadAfterUnpad(s, Regroup(s, narrow, wide, false).value, wide, narrow);
    }
    if d: seq<nat> :| AllBelow(d, TwoTo(wide)) && Regroup(d, wide, narrow, true) == Ok(s) {
      UnpadAfterPad(d, wide, narrow);
    }
  }

  // ----- regrouping is a change of base -----

  lemma {:induction false} NumConcat(a: Bits, b: Bits)
    ensures Num(a + b) == Num(a) * TwoTo(|b|) + Num(b)
  {
    if b == [] {
      assert a + b == a;
    } else {
      var n := |b| - 1;
      NumConcat(a, b[..n]);
      assert (a + b)[..|a + b| - 1] == a + b[..n];
      Distribute(Num(a), TwoTo(n), Num(b[..n]), 2);
    }
  }

  lemma {:induction false} NumOfBitString(data: seq<nat>, width: nat)
    requires AllBelow(data, TwoTo(width))
    ensures Num(BitString(data, width)) == Value(TwoTo(width), data)
  {
    hide BitString, TwoTo, Num;
    if data == [] {
      NoBits(width);
    } else {
      var front, last := data[..|data| - 1], data[|data| - 1];
      assert data == front + [last];
      NumOfBitString(front, width);
      BitStringAppend(front, last, width);
      NumConcat(BitString(front, width), BitsOf(last, width));
      NumOfBits(last, width);
    }
  }

  lemma NoBits(width: nat)
    ensures Num(BitString([], width)) == 0
  {
  }

  lemma NumOfZeroBits(z: nat)
    ensures Num(ZeroBits(z)) == 0
  {
    NumIsZero(ZeroBits(z));
  }

  /** The padded groups are the big-endian digits, in the narrow base, of the big-endian number that the values are in
      the wide base, shifted left by z zero bits: the fewest that fill the last group. */
  lemma PaddedIsChangeOfBase(d: seq<nat>, wide: nat, narrow: nat)
    requires 0 < narrow <= wide && AllBelow(d, TwoTo(wide))
    ensures var r := Regroup(d, wide, narrow, true);
            && r.Ok? && AllBelow(r.value, TwoTo(narrow))
            && var z := narrow * |r.value| - wide * |d|;
               0 <= z < narrow && Value(TwoTo(narrow), r.value) == Value(TwoTo(wide), d) * TwoTo(z)
  {
    hide Regroup, BitString, TwoTo, Num;
    var z := PaddedSpelling(d, wide, narrow);
    var s := Regroup(d, wide, narrow, true).value;
    NumConcat(BitString(d, wide), ZeroBits(z));
    NumOfZeroBits(z);
    NumOfBitString(d, wide);
    NumOfBitString(s, narrow);
    BitStringLength(d, wide);
    BitStringLength(s, narrow);
  }

  lemma {:induction false} BitStringLength(data: seq<nat>, width: nat)
    ensures |BitString(data, width)| == width * |data|
  {
    if data != [] {
      BitStringLength(data[1..], width);
    }
  }
}
