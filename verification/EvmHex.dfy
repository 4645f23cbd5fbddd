/** Hexadecimal text to bytes and numbers, as the EVM signer reads its parameters. */
module EvmHex {
  import opened Bytes
  import opened Positional
  import opened Rlp
  import opened Text

  /** Strings are at most 2^63 - 1 bytes long. */
  type HexText = s: string | |s| < 0x8000_0000_0000_0000 witness ""
  type DataBytes = b: Bytes | |b| <= 0x4000_0000_0000_0000 witness []
  type Address = b: Bytes | |b| == 20 witness Zeros(20)

  datatype EvmError = InvalidHex | TooLarge | InvalidNumber | BadAddressLength | SigningFailed

  function HexDigit(c: char): (r: Option<nat>)
    ensures r.Some? ==> r.value < 16
  {
    if '0' <= c <= '9' then Some(c as int - '0' as int)
    else if 'a' <= c <= 'f' then Some(c as int - 'a' as int + 10)
    else if 'A' <= c <= 'F' then Some(c as int - 'A' as int + 10)
    else None
  }

  predicate IsHex(s: string) {
    forall i | 0 <= i < |s| :: HexDigit(s[i]).Some?
  }

  function Digits(s: string): (ds: seq<nat>)
    requires IsHex(s)
    ensures |ds| == |s| && AllBelow(ds, 16)
  {
    seq(|s|, i requires 0 <= i < |s| => HexDigit(s[i]).value)
  }

  /** The number a hex string denotes. */
  function HexNumber(s: string): nat
    requires IsHex(s)
  {
    Value(16, Digits(s))
  }

  function StripPrefix(s: string): (t: string)
    ensures |t| <= |s|
  {
    if "0x" <= s then s[2..] else s
  }

  /** Two digits a byte. */
  function Pairs(ds: seq<nat>): (bs: Bytes)
    requires AllBelow(ds, 16) && |ds| % 2 == 0
    ensures |bs| == |ds| / 2
  {
    if ds == [] then []
    else Pairs(ds[..|ds| - 2]) + [16 * ds[|ds| - 2] + ds[|ds| - 1]]
  }

  function HexToBytes(hex: HexText): (r: Result<DataBytes, EvmError>) {
    var t := TrimEnd(TrimStart(StripPrefix(hex)));
    if t == "" then Ok([])
    else
      var even := if |t| % 2 != 0 then "0" + t else t;
      if IsHex(even) then Ok(Pairs(Digits(even))) else Err(InvalidHex)
  }

  function HexToU256(hex: HexText): Result<Word256, EvmError> {
    match HexToBytes(hex)
    case Err(e) => Err(e)
    case Ok(bytes) =>
      if |bytes| > 32 then Err(TooLarge) else Ok(Zeros(32 - |bytes|) + bytes)
  }

  /** The standard library's parser, which allows one leading plus sign. */
  function HexToU64(hex: HexText): Result<u64, EvmError> {
    var t := StripPrefix(hex);
    if t == "" then Ok(0)
    else
      var digits := if t[0] == '+' then t[1..] else t;
      if digits == "" || !IsHex(digits) then Err(InvalidNumber)
      else if HexNumber(digits) < 0x1_0000_0000_0000_0000 then Ok(HexNumber(digits))
      else Err(InvalidNumber)
  }

  function AddressToBytes(address: HexText): Result<Address, EvmError> {
    match HexToBytes(address)
    case Err(e) => Err(e)
    case Ok(bytes) => if |bytes| == 20 then Ok(bytes) else Err(BadAddressLength)
  }

  // ----- what the parsers mean -----

  lemma {:induction false} PairsValue(ds: seq<nat>)
    requires AllBelow(ds, 16) && |ds| % 2 == 0
    ensures Value(256, Pairs(ds)) == Value(16, ds)
  {
    if ds != [] {
      var front := ds[..|ds| - 2];
      PairsValue(front);
      var mid := ds[..|ds| - 1];
      assert mid[..|mid| - 1] == front;
      assert Value(16, ds) == (Value(16, front) * 16 + ds[|ds| - 2]) * 16 + ds[|ds| - 1];
      assert Pairs(ds)[..|Pairs(ds)| - 1] == Pairs(front);
    }
  }

  lemma HexHasNoBlanks(s: string)
    requires IsHex(s)
    ensures TrimStart(s) == s && TrimEnd(s) == s && !("0x" <= s)
    ensures s != "" ==> s[0] != '+'
  {
    if |s| >= 2 {
      assert HexDigit(s[1]).Some?;
    }
    if s != [] {
      assert HexDigit(s[0]).Some? && HexDigit(s[|s| - 1]).Some?;
    }
  }

  lemma Stripped(prefix: string, digits: string)
    requires (prefix == "" || prefix == "0x") && IsHex(digits)
    ensures StripPrefix(prefix + digits) == digits
  {
    HexHasNoBlanks(digits);
    if prefix == "" {
      assert prefix + digits == digits;
    } else {
      assert (prefix + digits)[..2] == prefix && (prefix + digits)[2..] == digits;
    }
  }

  lemma HexToBytesValue(prefix: string, digits: string)
    requires (prefix == "" || prefix == "0x") && IsHex(digits) && |prefix + digits| < 0x8000_0000_0000_0000
    ensures var r := HexToBytes(prefix + digits);
            && r.Ok? && |r.value| == (|digits| + 1) / 2 && Value(256, r.value) == HexNumber(digits)
  {
    hide Value, Pairs, HexDigit, IsHex, Digits, TrimStart, TrimEnd, StripPrefix, HexNumber;
    Stripped(prefix, digits);
    HexHasNoBlanks(digits);
    EvenDigits(digits);
    if digits == "" {
      NoDigits();
    }
  }

  /** An odd string is completed by a leading zero, which changes no value. */
  lemma EvenDigits(digits: string)
    requires IsHex(digits)
    ensures digits == "" ==> HexNumber(digits) == 0
    ensures var even := if |digits| % 2 != 0 then "0" + digits else digits;
            && IsHex(even) && |Pairs(Digits(even))| == (|digits| + 1) / 2
            && Value(256, Pairs(Digits(even))) == HexNumber(digits)
  {
    hide Value, Pairs, HexDigit;
    NoDigits();
    if |digits| % 2 == 0 {
      PairsValue(Digits(digits));
    } else {
      ZeroDigit();
      var even := "0" + digits;
      assert Digits(even) == [0] + Digits(digits);
      PairsValue(Digits(even));
      ValueAfterZeros(16, [0], Digits(digits));
    }
  }

  lemma NoDigits()
    ensures Value(256, []) == 0 && Value(16, []) == 0
  {
  }

  lemma ZeroDigit()
    ensures HexDigit('0') == Some(0)
  {
  }

  /** A hex string of any parity, with or without prefix, fits a U256 exactly when it has at most 64
      digits, and then the emitted item decodes to the minimal form of the number it denotes. */
  lemma U256Fidelity(prefix: string, digits: string)
    requires (prefix == "" || prefix == "0x") && IsHex(digits) && |prefix + digits| < 0x8000_0000_0000_0000
    ensures var r := HexToU256(prefix + digits);
            && (r.Ok? <==> |digits| <= 64)
            && (r.Ok? ==> Value(256, r.value) == HexNumber(digits)
                          && Decode(EncodeU256(r.value)) == Some((Str(BigEndian(HexNumber(digits))), [])))
  {
    hide Value, HexToBytes, EncodeU256, BigEndian, Decode, HexNumber, Encode;
    HexToBytesValue(prefix, digits);
    var bytes := HexToBytes(prefix + digits).value;
    if |digits| <= 64 {
      var w: Word256 := Zeros(32 - |bytes|) + bytes;
      ValueAfterZeros(256, Zeros(32 - |bytes|), bytes);
      IntegersAreMinimal(0, w);
      DecodesAlone(BigEndian(Value(256, w)));
    }
  }

  lemma ParsedU64(prefix: string, digits: string)
    requires (prefix == "" || prefix == "0x") && IsHex(digits) && |prefix + digits| < 0x8000_0000_0000_0000
    ensures var n := HexNumber(digits);
            HexToU64(prefix + digits) == if n < 0x1_0000_0000_0000_0000 then Ok(n) else Err(InvalidNumber)
  {
    hide IsHex, HexNumber, StripPrefix;
    Stripped(prefix, digits);
    HexHasNoBlanks(digits);
    EvenDigits(digits);
  }

  /** A hex string is accepted as a u64 exactly when its number is one. */
  lemma U64Fidelity(prefix: string, digits: string)
    requires (prefix == "" || prefix == "0x") && IsHex(digits) && |prefix + digits| < 0x8000_0000_0000_0000
    ensures var r := HexToU64(prefix + digits);
            && (r.Ok? <==> HexNumber(digits) < 0x1_0000_0000_0000_0000)
            && (r.Ok? ==> r.value == HexNumber(digits)
                          && Decode(EncodeU64(r.value)) == Some((Str(BigEndian(HexNumber(digits))), [])))
  {
    hide HexToU64, Value, EncodeU64, BigEndian, Decode, Encode, IsHex, HexNumber;
    ParsedU64(prefix, digits);
    var n := HexNumber(digits);
    if n < 0x1_0000_0000_0000_0000 {
      IntegersAreMinimal(n, Zeros(32));
      DecodesAlone(BigEndian(n));
    }
  }

  lemma DecodesAlone(b: Blob)
    ensures Decode(EncodeItem(b)) == Some((Str(b), []))
  {
    hide EncodeItem, Encode, Decode;
    ItemIsString(b);
    DecodeEncode(Str(b), []);
    assert Encode(Str(b)) + [] == Encode(Str(b));
  }
}
