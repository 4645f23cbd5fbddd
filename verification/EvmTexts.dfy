/** From the texts a caller gives to the bytes that are hashed and broadcast, field by field. */
module EvmTexts {
  import opened Bytes
  import opened Positional
  import opened Rlp
  import opened EvmHex
  import opened EvmTx
  import opened EvmTxLaws

  /** A text that writes hexadecimal digits, with or without prefix. */
  predicate Writes(text: string, digits: string) {
    IsHex(digits) && (text == digits || text == "0x" + digits)
  }

  lemma DigitTable(n: nat)
    requires n < 16
    ensures HexDigit("0123456789abcdef"[n]) == HexDigit("0123456789ABCDEF"[n]) == Some(n)
  {
  }

  lemma OnlyDigits(c: char)
    ensures HexDigit(c).Some? <==> '0' <= c <= '9' || 'a' <= c <= 'f' || 'A' <= c <= 'F'
  {
  }

  // ----- one text -----

  lemma WritesU64(text: HexText, digits: string)
    requires Writes(text, digits)
    ensures var n := HexNumber(digits);
            HexToU64(text) == if n < 0x1_0000_0000_0000_0000 then Ok(n) else Err(InvalidNumber)
  {
    hide IsHex, HexNumber, HexToU64;
    var prefix := if text == digits then "" else "0x";
    assert text == prefix + digits;
    ParsedU64(prefix, digits);
  }

  lemma WritesU256(text: HexText, digits: string)
    requires Writes(text, digits)
    ensures var r := HexToU256(text);
            && (r.Ok? <==> |digits| <= 64)
            && (r.Ok? ==> Value(256, r.value) == HexNumber(digits))
            && (r.Err? ==> r == Err(TooLarge))
  {
    hide IsHex, HexNumber, HexToBytes, EncodeU256, Decode, BigEndian, Value;
    var prefix := if text == digits then "" else "0x";
    assert text == prefix + digits;
    HexToBytesValue(prefix, digits);
    U256Fidelity(prefix, digits);
  }

  lemma WritesBytes(text: HexText, digits: string)
    requires Writes(text, digits)
    ensures var r := HexToBytes(text);
            r.Ok? && r.value == Fixed(256, HexNumber(digits), (|digits| + 1) / 2)
  {
    hide IsHex, HexNumber, HexToBytes, Value, Fixed;
    var prefix := if text == digits then "" else "0x";
    assert text == prefix + digits;
    HexToBytesValue(prefix, digits);
    FixedOfValue(256, HexToBytes(text).value);
  }

  lemma WritesAddress(text: HexText, digits: string)
    requires Writes(text, digits)
    ensures var r := AddressToBytes(text);
            && (r.Ok? <==> |digits| == 39 || |digits| == 40)
            && (r.Ok? ==> r.value == Fixed(256, HexNumber(digits), 20))
            && (r.Err? ==> r == Err(BadAddressLength))
  {
    hide IsHex, HexNumber, HexToBytes, Fixed;
    WritesBytes(text, digits);
  }

  // ----- all the texts of a Type-2 transaction -----

  datatype Texts2 = Texts2(nonce: HexText, maxPriorityFee: HexText, maxFee: HexText, gasLimit: HexText,
                           to: HexText, value: HexText, data: HexText)

  datatype Digits2 = Digits2(nonce: string, maxPriorityFee: string, maxFee: string, gasLimit: string,
                             to: string, value: string, data: string) {
    predicate WrittenBy(t: Texts2) {
      && Writes(t.nonce, nonce) && Writes(t.maxPriorityFee, maxPriorityFee) && Writes(t.maxFee, maxFee)
      && Writes(t.gasLimit, gasLimit) && Writes(t.to, to) && Writes(t.value, value) && Writes(t.data, data)
    }

    predicate InRange()
      requires IsHex(nonce) && IsHex(gasLimit)
    {
      && HexNumber(nonce) < 0x1_0000_0000_0000_0000 && HexNumber(gasLimit) < 0x1_0000_0000_0000_0000
      && |maxPriorityFee| <= 64 && |maxFee| <= 64 && |value| <= 64 && (|to| == 39 || |to| == 40)
    }
  }

  /** The nine fields that are signed, each from its own text. */
  function Items2(chainId: u64, d: Digits2): (items: seq<Tree>)
    requires IsHex(d.nonce) && IsHex(d.maxPriorityFee) && IsHex(d.maxFee) && IsHex(d.gasLimit)
    requires IsHex(d.to) && IsHex(d.value) && IsHex(d.data)
    ensures |items| == 9
  {
    [Str(BigEndian(chainId)),
     Str(BigEndian(HexNumber(d.nonce))),
     Str(BigEndian(HexNumber(d.maxPriorityFee))),
     Str(BigEndian(HexNumber(d.maxFee))),
     Str(BigEndian(HexNumber(d.gasLimit))),
     Str(Fixed(256, HexNumber(d.to), 20)),
     Str(BigEndian(HexNumber(d.value))),
     Str(Fixed(256, HexNumber(d.data), (|d.data| + 1) / 2)),
     Lst([])]
  }

  lemma Parsed2(t: Texts2, d: Digits2, chainId: u64)
    requires d.WrittenBy(t)
    ensures var r := ParseType2(t.nonce, t.maxPriorityFee, t.maxFee, t.gasLimit, t.to, t.value, t.data);
            && (r.Ok? <==> d.InRange())
            && (r.Ok? ==> Type2Fields(r.value, chainId) == Items2(chainId, d))
  {
    hide IsHex, HexNumber, HexToU64, HexToU256, HexToBytes, AddressToBytes, BigEndian, Fixed, Value, Writes;
    assert IsHex(d.nonce) && IsHex(d.maxPriorityFee) && IsHex(d.maxFee) && IsHex(d.gasLimit)
        && IsHex(d.to) && IsHex(d.value) && IsHex(d.data) by {
      AllHex2(t, d);
    }
    WritesU64(t.nonce, d.nonce);
    WritesU256(t.maxPriorityFee, d.maxPriorityFee);
    WritesU256(t.maxFee, d.maxFee);
    WritesU64(t.gasLimit, d.gasLimit);
    WritesAddress(t.to, d.to);
    WritesU256(t.value, d.value);
    WritesBytes(t.data, d.data);
  }

  lemma AllHex2(t: Texts2, d: Digits2)
    requires d.WrittenBy(t)
    ensures IsHex(d.nonce) && IsHex(d.maxPriorityFee) && IsHex(d.maxFee) && IsHex(d.gasLimit)
            && IsHex(d.to) && IsHex(d.value) && IsHex(d.data)
  {
    hide IsHex;
  }

  /** What the Type-2 builder hashes and broadcasts, from its texts: the hash is that of 0x02 and the nine fields, and
      behind 0x02 the broadcast bytes decode to the nine fields, the recovery id, r and s, with nothing left over. */
  lemma TextsToType2(keccak: Bytes -> Bytes, sign: Signer, chainId: u64, t: Texts2, d: Digits2)
    requires d.WrittenBy(t)
    ensures var parsed := ParseType2(t.nonce, t.maxPriorityFee, t.maxFee, t.gasLimit, t.to, t.value, t.data);
            && (parsed.Ok? <==> d.InRange())
            && (parsed.Ok? ==>
                  var r := SignedOf(keccak, sign, DynamicFee(parsed.value, chainId));
                  match sign(keccak([0x02] + Encode(Lst(Items2(chainId, d)))))
                  case None => r == Err(SigningFailed)
                  case Some(sig) =>
                    && r.Ok? && r.value != [] && r.value[0] == 0x02
                    && Decode(r.value[1..]) ==
                       Some((Lst(Items2(chainId, d) + [Str(BigEndian(sig.recoveryId)), Str(BigEndian(Value(256, sig.r))),
                                                       Str(BigEndian(Value(256, sig.s)))]), [])))
  {
    hide IsHex, HexNumber, BigEndian, Fixed, Value, Encode, Decode, Fits, ParseType2, Items2, Type2Fields, Digits2.InRange, Digits2.WrittenBy;
    Parsed2(t, d, chainId);
    var parsed := ParseType2(t.nonce, t.maxPriorityFee, t.maxFee, t.gasLimit, t.to, t.value, t.data);
    if parsed.Ok? {
      var p := DynamicFee(parsed.value, chainId);
      var signed := sign(keccak(SigningBytes(p)));
      if signed.Some? {
        PayloadsFit(p, signed.value);
        var tree := Signed2(parsed.value, chainId, signed.value);
        DecodesToItself(tree);
        assert ([0x02] + Encode(tree))[1..] == Encode(tree);
      }
    }
  }

  // ----- all the texts of a Type-0 transaction -----

  datatype Texts0 = Texts0(nonce: HexText, gasPrice: HexText, gasLimit: HexText, to: HexText, value: HexText, data: HexText)

  datatype Digits0 = Digits0(nonce: string, gasPrice: string, gasLimit: string, to: string, value: string, data: string) {
    predicate WrittenBy(t: Texts0) {
      && Writes(t.nonce, nonce) && Writes(t.gasPrice, gasPrice) && Writes(t.gasLimit, gasLimit)
      && Writes(t.to, to) && Writes(t.value, value) && Writes(t.data, data)
    }

    predicate InRange()
      requires IsHex(nonce) && IsHex(gasLimit)
    {
      && HexNumber(nonce) < 0x1_0000_0000_0000_0000 && HexNumber(gasLimit) < 0x1_0000_0000_0000_0000
      && |gasPrice| <= 64 && |value| <= 64 && (|to| == 39 || |to| == 40)
    }
  }

  function Items0(d: Digits0): (items: seq<Tree>)
    requires IsHex(d.nonce) && IsHex(d.gasPrice) && IsHex(d.gasLimit) && IsHex(d.to) && IsHex(d.value) && IsHex(d.data)
    ensures |items| == 6
  {
    [Str(BigEndian(HexNumber(d.nonce))),
     Str(BigEndian(HexNumber(d.gasPrice))),
     Str(BigEndian(HexNumber(d.gasLimit))),
     Str(Fixed(256, HexNumber(d.to), 20)),
     Str(BigEndian(HexNumber(d.value))),
     Str(Fixed(256, HexNumber(d.data), (|d.data| + 1) / 2))]
  }

  lemma AllHex0(t: Texts0, d: Digits0)
    requires d.WrittenBy(t)
    ensures IsHex(d.nonce) && IsHex(d.gasPrice) && IsHex(d.gasLimit) && IsHex(d.to) && IsHex(d.value) && IsHex(d.data)
  {
    hide IsHex;
  }

  lemma Parsed0(t: Texts0, d: Digits0)
    requires d.WrittenBy(t)
    ensures var r := ParseType0(t.nonce, t.gasPrice, t.gasLimit, t.to, t.value, t.data);
            && (r.Ok? <==> d.InRange())
            && (r.Ok? ==> Type0Fields(r.value) == Items0(d))
  {
    hide IsHex, HexNumber, HexToU64, HexToU256, HexToBytes, AddressToBytes, BigEndian, Fixed, Value, Writes;
    assert IsHex(d.nonce) && IsHex(d.gasPrice) && IsHex(d.gasLimit) && IsHex(d.to) && IsHex(d.value) && IsHex(d.data) by {
      AllHex0(t, d);
    }
    WritesU64(t.nonce, d.nonce);
    WritesU256(t.gasPrice, d.gasPrice);
    WritesU64(t.gasLimit, d.gasLimit);
    WritesAddress(t.to, d.to);
    WritesU256(t.value, d.value);
    WritesBytes(t.data, d.data);
  }

  /** The same for the Type-0 builder: hashed with the chain id and two empty strings, broadcast with v, r and s. */
  lemma TextsToType0(keccak: Bytes -> Bytes, sign: Signer, chainId: u64, t: Texts0, d: Digits0)
    requires d.WrittenBy(t)
    ensures var parsed := ParseType0(t.nonce, t.gasPrice, t.gasLimit, t.to, t.value, t.data);
            && (parsed.Ok? <==> d.InRange())
            && (parsed.Ok? ==>
                  var r := SignedOf(keccak, sign, Legacy(parsed.value, chainId));
                  match sign(keccak(Encode(Lst(Items0(d) + [Str(BigEndian(chainId)), Str([]), Str([])]))))
                  case None => r == Err(SigningFailed)
                  case Some(sig) =>
                    var v := (chainId * 2 + 35 + sig.recoveryId) % 0x1_0000_0000_0000_0000;
                    && r.Ok?
                    && Decode(r.value) == Some((Lst(Items0(d) + [Str(BigEndian(v)), Str(BigEndian(Value(256, sig.r))),
                                                                 Str(BigEndian(Value(256, sig.s)))]), [])))
  {
    hide IsHex, HexNumber, BigEndian, Fixed, Value, Encode, Decode, Fits, ParseType0, Items0, Type0Fields, Digits0.InRange, Digits0.WrittenBy;
    Parsed0(t, d);
    var parsed := ParseType0(t.nonce, t.gasPrice, t.gasLimit, t.to, t.value, t.data);
    if parsed.Ok? {
      var p := Legacy(parsed.value, chainId);
      var signed := sign(keccak(SigningBytes(p)));
      if signed.Some? {
        var sig := signed.value;
        PayloadsFit(p, sig);
        DecodesToItself(Signed0(parsed.value, VOf(chainId, sig.recoveryId), sig.r, sig.s));
      }
    }
  }
}
