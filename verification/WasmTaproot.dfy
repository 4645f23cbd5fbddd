/** The WebAssembly build's own Taproot address assembly, against the signer's encoder. */
module WasmTaproot {
  import opened Bytes
  import opened MachineBits
  import opened BitRegrouping
  import opened Bech32Checksum
  import Bech32

  /** `convert_bits_internal`: no range check and no padding error. Its one caller regroups bytes. */
  method ConvertBitsInternal(data: Bytes, fromBits: nat, toBits: nat, pad: bool) returns (ret: seq<nat>)
    requires fromBits == 8 && 1 <= toBits <= 8
    ensures pad ==> Regroup(data, fromBits, toBits, true) == Ok(ret)
    ensures !pad ==> ret == Groups(BitString(data, fromBits), toBits)
  {
    hide BitString, BitsOf, Groups, Tail, Num, And, Shr, Or, Shl32, Regroup, Spells;
    var acc: u32 := 0;
    var bits: nat := 0;
    ret := [];
    var maxv := TwoTo(toBits) - 1;
    ghost var pending: Bits := [];
    Start(fromBits, toBits);
    for i := 0 to |data|
      invariant bits == |pending| < toBits
      invariant Spells(data[..i], fromBits, ret, toBits, acc, pending)
    {
      var value := data[i];
      Powers();
      Absorb(data[..i], fromBits, ret, toBits, acc, pending, value);
      ghost var consumed := data[..i] + [value];
      assert data[..i + 1] == consumed;
      acc := Or(Shl32(acc, fromBits), value);
      bits := bits + fromBits;
      pending := pending + BitsOf(value, fromBits);
      while bits >= toBits
        invariant bits == |pending|
        invariant Spells(consumed, fromBits, ret, toBits, acc, pending)
      {
        Emit(consumed, fromBits, ret, toBits, acc, pending);
        bits := bits - toBits;
        ret := ret + [And(Shr(acc, bits), maxv)];
        pending := pending[toBits..];
      }
    }
    assert data[..|data|] == data;
    Finish(data, fromBits, ret, toBits, acc, pending);
    Whole(data, fromBits, ret, toBits, acc, pending);
    if pad && bits > 0 {
      ret := ret + [And(Shl32(acc, toBits - bits), maxv)];
    }
  }

  lemma Whole(data: seq<nat>, fromBits: nat, ret: seq<nat>, toBits: nat, acc: u32, pending: Bits)
    requires Spells(data, fromBits, ret, toBits, acc, pending) && |pending| < toBits
    ensures Groups(BitString(data, fromBits), toBits) == ret
  {
    GroupsUnique(BitString(data, fromBits), toBits, ret, pending);
  }

  /** `bech32_polymod_internal`. */
  method PolymodInternal(values: Bytes) returns (chk: u32)
    ensures chk == Fold(1, values)
  {
    hide Fold, Step, Xor, Shr, Bit, And;
    chk := 1;
    FoldNone();
    for k := 0 to |values|
      invariant chk == Fold(1, values[..k]) && chk < 0x4000_0000
    {
      FoldAppend(1, values[..k], values[k]);
      assert values[..k + 1] == values[..k] + [values[k]];
      var top := Shr(chk, 25);
      ghost var before := chk;
      chk := ShiftIn(chk, values[k]);
      for i := 0 to 5
        invariant chk < 0x4000_0000
        invariant chk == Xor(Xor(Shl(Low(before, 25), 5), values[k]), FeedbackSum(top, i))
      {
        BitIsMasked(top, i);
        FeedbackRound(before, values[k], top, i);
        if And(Shr(top, i), 1) == 1 {
          chk := Xor(chk, GENERATOR[i]);
        }
      }
      StepIs(before, values[k], top);
      StepBound(before, values[k]);
    }
    assert values[..|values|] == values;
  }

  lemma FoldNone()
    ensures Fold(1, []) == 1
  {
  }

  lemma StepIs(before: nat, v: nat, top: nat)
    requires top == Shr(before, 25)
    ensures Step(before, v) == Xor(Xor(Shl(Low(before, 25), 5), v), FeedbackSum(top, 5))
  {
  }

  /** `bech32m_create_checksum`: the constant is always that of BIP350. */
  method Bech32mCreateChecksum(hrp: string, data: Bytes) returns (r: seq<nat>)
    ensures r == Checksum(Fold(1, Bech32.HrpExpand(hrp) + data), BECH32M_CONST)
  {
    hide Fold, Xor;
    var values: Bytes := Bech32.HrpExpand(hrp) + data;
    FoldConcat(1, values, Zeros(6));
    var residue := PolymodInternal(values + Zeros(6));
    r := ChecksumSymbols(Xor(residue, 0x2bc830a3));
  }

  /** The address text of a 32-byte output key: witness version 1. */
  method TaprootAddress(testnet: bool, xOnly: Bytes) returns (r: string)
    requires |xOnly| == 32
    ensures r == Bech32.Encoded(if testnet then "tb" else "bc", 1, xOnly)
  {
    hide Fold, Regroup, Checksum;
    var hrp := if testnet then "tb" else "bc";
    var symbols := ConvertBitsInternal(xOnly, 8, 5, true);
    var data5 := [1] + symbols;
    assert data5 == Bech32.Payload(1, xOnly);
    var checksum := Bech32mCreateChecksum(hrp, data5);
    Bech32.ChecksumInRange(hrp, data5, 1);
    data5 := data5 + checksum;
    r := hrp + "1";
    for i := 0 to |data5|
      invariant r == hrp + "1" + Bech32.TextOf(data5)[..i]
    {
      r := r + [Bech32.CHARSET[data5[i]]];
    }
    assert Bech32.TextOf(data5)[..|data5|] == Bech32.TextOf(data5);
  }
}
