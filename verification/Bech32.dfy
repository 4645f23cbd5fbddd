/** Segwit addresses: `encode_bech32`, `decode_bech32` and `decode_bech32_address`. */
module Bech32 {
  import opened Bytes
  import opened Text
  import opened MachineBits
  import opened BitRegrouping
  import opened Bech32Checksum

  const CHARSET: string := "qpzry9x8gf2tvdw0s3jn54khce6mua7l"

  datatype Variant = Bech32 | Bech32m

  datatype AddressError =
    | NoSeparator
    | InvalidCharacter
    | TooShort
    | BadChecksum
    | EmptyData
    | BadVersion
    | WrongVariant
    | BadRegrouping(why: RegroupError)
    | BadProgramLength

  // ----- symbols and their characters -----

  function TextOf(data: seq<nat>): (t: string)
    requires AllBelow(data, 32)
    ensures |t| == |data| && forall i | 0 <= i < |data| :: t[i] == CHARSET[data[i]]
  {
    seq(|data|, i requires 0 <= i < |data| => CHARSET[data[i]])
  }

  /** The symbols a text stands for, unless a character is foreign to the alphabet. */
  function SymbolsOf(t: string): (r: Option<Bytes>)
    ensures r.Some? <==> forall i | 0 <= i < |t| :: t[i] in CHARSET
    ensures r.Some? ==> |r.value| == |t| && AllBelow(r.value, 32)
    ensures r.Some? ==> forall i | 0 <= i < |t| :: t[i] == CHARSET[r.value[i]]
  {
    if t == [] then Some([])
    else
      match (Find(CHARSET, t[0]), SymbolsOf(t[1..]))
      case (Some(d), Some(rest)) => Some([d] + rest)
      case (_, _) => assert t == [t[0]] + t[1..]; None
  }

  lemma CharsetDistinct(i: nat, j: nat)
    requires i < j < 32
    ensures CHARSET[i] != CHARSET[j]
  {
  }

  lemma CharsetHasNoSeparator(i: nat)
    requires i < 32
    ensures CHARSET[i] != '1' && LowerChar(CHARSET[i]) == CHARSET[i] && CHARSET[i] < 128 as char
  {
  }

  lemma SameSymbol(i: nat, j: nat)
    requires i < 32 && j < 32 && CHARSET[i] == CHARSET[j]
    ensures i == j
  {
    if i < j {
      CharsetDistinct(i, j);
    } else if j < i {
      CharsetDistinct(j, i);
    }
  }

  lemma SymbolsOfText(data: seq<nat>)
    requires AllBelow(data, 32)
    ensures SymbolsOf(TextOf(data)) == Some(data)
  {
    hide SymbolsOf;
    var t := TextOf(data);
    assert forall i | 0 <= i < |t| :: t[i] in CHARSET;
    var r := SymbolsOf(t).value;
    forall i | 0 <= i < |data|
      ensures r[i] == data[i]
    {
      SameSymbol(r[i], data[i]);
    }
    assert r == data;
  }

  // ----- the specification -----

  function HrpExpand(hrp: string): (vs: Bytes) {
    seq(|hrp|, i requires 0 <= i < |hrp| => CharByte(hrp[i]) / 32)
    + [0]
    + seq(|hrp|, i requires 0 <= i < |hrp| => CharByte(hrp[i]) % 32)
  }

  function ConstantFor(witnessVersion: nat): nat {
    if witnessVersion == 0 then 1 else BECH32M_CONST
  }

  function Encoded(hrp: string, witnessVersion: nat, program: Bytes): (t: string)
    requires witnessVersion < 32
  {
    var data := Payload(witnessVersion, program);
    var checksum := Checksum(Fold(1, HrpExpand(hrp) + data), ConstantFor(witnessVersion));
    ChecksumInRange(hrp, data, witnessVersion);
    hrp + "1" + TextOf(data + checksum)
  }

  /** The witness version followed by the program in five-bit symbols. */
  function Payload(witnessVersion: nat, program: Bytes): (data: seq<nat>)
    requires witnessVersion < 32
    ensures AllBelow(data, 32)
  {
    Powers();
    PaddedProgram(program);
    [witnessVersion] + Regroup(program, 8, 5, true).value
  }

  lemma PaddedProgram(program: Bytes)
    ensures AllBelow(program, TwoTo(8))
    ensures var r := Regroup(program, 8, 5, true); r.Ok? && AllBelow(r.value, 32)
  {
    Powers();
    var z := PaddedSpelling(program, 8, 5);
  }

  lemma ChecksumInRange(hrp: string, data: seq<nat>, witnessVersion: nat)
    requires AllBelow(data, 32)
    ensures Fold(1, HrpExpand(hrp) + data) < 0x4000_0000
    ensures AllBelow(Checksum(Fold(1, HrpExpand(hrp) + data), ConstantFor(witnessVersion)), 32)
  {
    hide Fold, Checksum;
    FoldBound(1, HrpExpand(hrp) + data);
    ChecksumCloses(Fold(1, HrpExpand(hrp) + data), ConstantFor(witnessVersion));
  }

  function Decoded(address: AsciiString): Result<(string, Bytes, Variant), AddressError> {
    var lower := ToLower(address);
    match FindLast(lower, '1')
    case None => Err(NoSeparator)
    case Some(pos) =>
      match SymbolsOf(lower[pos + 1..])
      case None => Err(InvalidCharacter)
      case Some(data) =>
        if |data| < 6 then Err(TooShort)
        else
          var residue := Fold(1, HrpExpand(lower[..pos]) + data);
          if residue == 1 then Ok((lower[..pos], data[..|data| - 6], Bech32))
          else if residue == BECH32M_CONST then Ok((lower[..pos], data[..|data| - 6], Bech32m))
          else Err(BadChecksum)
  }

  predicate LegalLength(witnessVersion: nat, n: nat) {
    if witnessVersion == 0 then n == 20 || n == 32
    else if witnessVersion == 1 then n == 32
    else 2 <= n <= 40
  }

  function DecodedAddress(address: AsciiString): Result<(nat, seq<nat>), AddressError> {
    match Decoded(address)
    case Err(e) => Err(e)
    case Ok((_, data, variant)) =>
      if data == [] then Err(EmptyData)
      else if data[0] > 16 then Err(BadVersion)
      else if variant != (if data[0] == 0 then Bech32 else Bech32m) then Err(WrongVariant)
      else
        match Regroup(data[1..], 5, 8, false)
        case Err(e) => Err(BadRegrouping(e))
        case Ok(program) =>
          if LegalLength(data[0], |program|) then Ok((data[0], program)) else Err(BadProgramLength)
  }

  // ----- the encoder and the decoder of the source -----

  method CreateChecksum(hrp: string, data: Bytes, witnessVersion: nat) returns (r: seq<nat>)
    ensures r == Checksum(Fold(1, HrpExpand(hrp) + data), ConstantFor(witnessVersion))
  {
    hide Fold, Xor;
    var values: Bytes := HrpExpand(hrp) + data;
    FoldConcat(1, values, Zeros(6));
    var constant := if witnessVersion == 0 then 1 else BECH32M_CONST;
    var residue := Polymod(values + Zeros(6));
    r := ChecksumSymbols(Xor(residue, constant));
  }

  method EncodeBech32(hrp: string, witnessVersion: nat, program: Bytes) returns (r: string)
    requires witnessVersion < 32
    ensures r == Encoded(hrp, witnessVersion, program)
  {
    hide Fold, Regroup, Checksum;
    PaddedProgram(program);
    var data5 := [witnessVersion];
    var symbols := ConvertBits(program, 8, 5, true);
    data5 := data5 + symbols.value;
    assert data5 == Payload(witnessVersion, program);
    var checksum := CreateChecksum(hrp, data5, witnessVersion);
    ChecksumInRange(hrp, data5, witnessVersion);
    data5 := data5 + checksum;
    r := hrp + "1";
    for i := 0 to |data5|
      invariant r == hrp + "1" + TextOf(data5)[..i]
    {
      r := r + [CHARSET[data5[i]]];
    }
    assert TextOf(data5)[..|data5|] == TextOf(data5);
  }

  /** `decode_bech32`, with its own copies of the expansion and of the polymod loop. */
  method DecodeBech32(address: AsciiString) returns (r: Result<(string, Bytes, Variant), AddressError>)
    ensures r == Decoded(address)
  {
    hide Fold, SymbolsOf, HrpExpand;
    var lower := ToLower(address);
    var separator := FindLast(lower, '1');
    if separator.None? {
      return Err(NoSeparator);
    }
    var hrp, dataPart := lower[..separator.value], lower[separator.value + 1..];
    var symbols := ReadSymbols(dataPart);
    if symbols.None? {
      return Err(InvalidCharacter);
    }
    var data := symbols.value;
    if |data| < 6 {
      return Err(TooShort);
    }
    var chk := InlineResidue(hrp, data);
    var variant;
    if chk == 1 {
      variant := Bech32;
    } else if chk == BECH32M_CONST {
      variant := Bech32m;
    } else {
      return Err(BadChecksum);
    }
    return Ok((hrp, data[..|data| - 6], variant));
  }

  method ReadSymbols(dataPart: string) returns (r: Option<Bytes>)
    ensures r == SymbolsOf(dataPart)
  {
    hide SymbolsOf;
    var data: Bytes := [];
    NoSymbols();
    for i := 0 to |dataPart|
      invariant SymbolsOf(dataPart[..i]) == Some(data)
    {
      var idx := Find(CHARSET, dataPart[i]);
      if idx.None? {
        return None;
      }
      SymbolsAppend(dataPart, i, data, idx.value);
      data := data + [idx.value];
    }
    assert dataPart[..|dataPart|] == dataPart;
    return Some(data);
  }

  lemma NoSymbols()
    ensures SymbolsOf([]) == Some([])
  {
  }

  lemma SymbolsAppend(t: string, i: nat, data: Bytes, d: nat)
    requires i < |t| && SymbolsOf(t[..i]) == Some(data) && Find(CHARSET, t[i]) == Some(d)
    ensures SymbolsOf(t[..i + 1]) == Some(data + [d])
  {
    hide SymbolsOf, Find;
    assert TextOf(data + [d]) == t[..i + 1];
    SymbolsOfText(data + [d]);
  }

  /** The decoder's own copy of the human-readable part's expansion and of the polymod loop. */
  method InlineResidue(hrp: string, data: Bytes) returns (chk: u32)
    ensures chk == Fold(1, HrpExpand(hrp) + data)
  {
    hide Fold, Step;
    var values: Bytes := [];
    for i := 0 to |hrp|
      invariant values == HrpExpand(hrp)[..i]
    {
      values := values + [CharByte(hrp[i]) / 32];
    }
    values := values + [0];
    for i := 0 to |hrp|
      invariant values == HrpExpand(hrp)[..|hrp| + 1 + i]
    {
      values := values + [CharByte(hrp[i]) % 32];
    }
    assert values == HrpExpand(hrp);
    values := values + data;
    chk := InlinePolymod(values);
  }

  method InlinePolymod(values: Bytes) returns (chk: u32)
    ensures chk == Fold(1, values) && chk < 0x4000_0000
  {
    hide Step;
    chk := 1;
    for k := 0 to |values|
      invariant chk == Fold(1, values[..k]) && chk < 0x4000_0000
    {
      FoldAppend(1, values[..k], values[k]);
      assert values[..k + 1] == values[..k] + [values[k]];
      chk := InlineRound(chk, values[k]);
    }
    assert values[..|values|] == values;
  }

  /** The decoder's own copy of one polymod round, which tests for a non-zero bit. */
  method InlineRound(before: u32, v: byte) returns (chk: u32)
    requires before < 0x4000_0000
    ensures chk == Step(before, v) && chk < 0x4000_0000
  {
    hide Xor, Shr, And, Low, Shl, Bit;
    var top := Shr(before, 25);
    chk := ShiftIn(before, v);
    for i := 0 to 5
      invariant chk < 0x4000_0000
      invariant chk == Xor(Xor(Shl(Low(before, 25), 5), v), FeedbackSum(top, i))
    {
      BitIsMasked(top, i);
      FeedbackRound(before, v, top, i);
      if And(Shr(top, i), 1) != 0 {
        chk := Xor(chk, GENERATOR[i]);
      }
    }
  }

  method DecodeBech32Address(address: AsciiString) returns (r: Result<(nat, seq<nat>), AddressError>)
    ensures r == DecodedAddress(address)
  {
    hide Decoded, Regroup;
    var decoded := DecodeBech32(address);
    if decoded.Err? {
      return Err(decoded.error);
    }
    var (_, data, variant) := decoded.value;
    if data == [] {
      return Err(EmptyData);
    }
    var witnessVersion := data[0];
    if witnessVersion > 16 {
      return Err(BadVersion);
    }
    if witnessVersion == 0 {
      if variant != Bech32 {
        return Err(WrongVariant);
      }
    } else if variant != Bech32m {
      return Err(WrongVariant);
    }
    var program := ConvertBits(data[1..], 5, 8, false);
    if program.Err? {
      return Err(BadRegrouping(program.error));
    }
    var n := |program.value|;
    if witnessVersion == 0 {
      if n != 20 && n != 32 {
        return Err(BadProgramLength);
      }
    } else if witnessVersion == 1 {
      if n != 32 {
        return Err(BadProgramLength);
      }
    } else if n < 2 || n > 40 {
      return Err(BadProgramLength);
    }
    return Ok((witnessVersion, program.value));
  }
}
