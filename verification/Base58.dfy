/** Legacy addresses: `encode_base58`, `encode_base58check` and `decode_base58check_address`. */
module Base58 {
  import opened Bytes
  import opened Positional
  import opened Text
  import opened Crypto

  const ALPHABET: string := "123456789ABCDEFGHJKLMN" + "PQRSTUVWXYZabcdefg" + "hijkmnopqrstuvwxyz"

  datatype Base58Error = InvalidCharacter | InvalidLength | BadChecksum | UnknownVersion

  // ----- the specification -----

  function DigitText(ds: seq<nat>): (t: string)
    requires AllBelow(ds, 58)
    ensures |t| == |ds| && forall i | 0 <= i < |ds| :: t[i] == ALPHABET[ds[i]]
  {
    seq(|ds|, i requires 0 <= i < |ds| => ALPHABET[ds[i]])
  }

  /** One '1' for each leading zero byte, then the digits of the number. */
  function Encoded(data: Bytes): string {
    DigitText(Zeros(LeadingZeros(data))) + DigitText(Minimal(58, Value(256, data)))
  }

  function Payload(h: Hashes, version: byte, data: Bytes): (p: Bytes)
    requires |DoubleSha256(h, [version] + data)| == 32
  {
    [version] + data + DoubleSha256(h, [version] + data)[..4]
  }

  function DigitOf(c: char): (r: Option<nat>)
    ensures r.Some? ==> r.value < 58 && c == ALPHABET[r.value]
    ensures r.None? ==> c !in ALPHABET
  {
    Find(ALPHABET, c)
  }

  /** The digits of a text, unless it holds a foreign character. */
  function DigitsOf(t: string): (r: Option<seq<nat>>)
    ensures r.Some? ==> |r.value| == |t| && AllBelow(r.value, 58)
    ensures r.Some? ==> forall i | 0 <= i < |t| :: t[i] == ALPHABET[r.value[i]]
  {
    if t == [] then Some([])
    else
      match (DigitsOf(t[..|t| - 1]), DigitOf(t[|t| - 1]))
      case (Some(front), Some(d)) => Some(front + [d])
      case (_, _) => None
  }

  function LeadingOnes(t: string): (n: nat)
    ensures n <= |t|
  {
    if t == [] || t[0] != '1' then 0 else 1 + LeadingOnes(t[1..])
  }

  /** `to_bytes_be` of a big integer: zero takes one byte. */
  function ToBytesBe(n: nat): (bs: Bytes) {
    if n == 0 then [0] else Minimal(256, n)
  }

  /** What the decoder makes of a number and of the '1's in front of it. */
  function Padded(ones: nat, bytes: Bytes): Bytes {
    Zeros(ones) + if |bytes| + ones < 25 then Zeros(25 - |bytes| - ones) + bytes else bytes
  }

  function Checked(h: Hashes, full: Bytes): (r: Result<(byte, Bytes), Base58Error>)
    requires h.Sized()
  {
    if |full| != 25 then Err(InvalidLength)
    else if DoubleSha256(h, full[..21])[..4] != full[21..] then Err(BadChecksum)
    else if full[0] in {0x00, 0x05, 0x6f, 0xc4} then Ok((full[0], full[1..21]))
    else Err(UnknownVersion)
  }

  function Decoded(h: Hashes, address: string): Result<(byte, Bytes), Base58Error>
    requires h.Sized()
  {
    match DigitsOf(address)
    case None => Err(InvalidCharacter)
    case Some(ds) => Checked(h, Padded(LeadingOnes(address), ToBytesBe(Value(58, ds))))
  }

  // ----- the code -----

  function Reversed<T>(s: seq<T>): (r: seq<T>)
    ensures |r| == |s| && forall i | 0 <= i < |s| :: r[i] == s[|s| - 1 - i]
  {
    seq(|s|, i requires 0 <= i < |s| => s[|s| - 1 - i])
  }

  method EncodeBase58(data: Bytes) returns (r: string)
    ensures r == Encoded(data)
  {
    hide Value, Minimal, Quo, Rem;
    var leadingZeros := LeadingZeros(data);
    var num: nat := 0;
    NoDigits();
    for i := 0 to |data|
      invariant num == Value(256, data[..i])
    {
      ValueAppend(256, data[..i], data[i]);
      assert data[..i + 1] == data[..i] + [data[i]];
      num := num * 256 + data[i];
    }
    assert data[..|data|] == data;
    ghost var low := Minimal(58, num);
    var result := PushDigits(num);
    for i := 0 to leadingZeros
      invariant Reversed(result) == DigitText(Zeros(i)) + DigitText(low)
    {
      OneMore(result, i, low);
      result := result + ['1'];
    }
    r := Reversed(result);
  }

  /** The division loop: digits come out low end first. */
  method PushDigits(total: nat) returns (result: string)
    ensures Reversed(result) == DigitText(Minimal(58, total))
  {
    hide Minimal, Quo, Rem;
    NoDigits();
    var num := total;
    result := "";
    ghost var low: seq<nat> := [];
    while num > 0
      invariant Minimal(58, total) == Minimal(58, num) + low && AllBelow(low, 58)
      invariant Reversed(result) == DigitText(low)
      decreases num
    {
      MinimalStep(58, num);
      QuoRemAreDivMod(num, 58);
      QuoDecreases(num, 58);
      var q, r := num / 58, num % 58;
      OneDigit(result, r, low);
      result := result + [ALPHABET[r]];
      low := [r] + low;
      num := q;
    }
  }

  lemma OneDigit(result: string, r: nat, low: seq<nat>)
    requires AllBelow(low, 58) && r < 58 && Reversed(result) == DigitText(low)
    ensures Reversed(result + [ALPHABET[r]]) == DigitText([r] + low)
  {
    assert Reversed(result + [ALPHABET[r]]) == [ALPHABET[r]] + Reversed(result);
    assert DigitText([r] + low) == [ALPHABET[r]] + DigitText(low);
  }

  lemma OneMore(result: string, i: nat, low: seq<nat>)
    requires AllBelow(low, 58) && Reversed(result) == DigitText(Zeros(i)) + DigitText(low)
    ensures Reversed(result + ['1']) == DigitText(Zeros(i + 1)) + DigitText(low)
  {
    FirstDigit();
    assert Reversed(result + ['1']) == ['1'] + Reversed(result);
    assert DigitText(Zeros(i + 1)) == ['1'] + DigitText(Zeros(i));
  }

  lemma FirstDigit()
    ensures ALPHABET[0] == '1'
  {
  }

  lemma NoDigits()
    ensures Value(256, []) == 0 && Minimal(58, 0) == [] && Value(58, []) == 0
  {
  }

  lemma ValueAppend(base: nat, ds: seq<nat>, d: nat)
    ensures Value(base, ds + [d]) == Value(base, ds) * base + d
  {
    assert (ds + [d])[..|ds|] == ds;
  }

  lemma MinimalStep(base: nat, n: nat)
    requires base >= 2 && n > 0
    ensures Minimal(base, n) == Minimal(base, Quo(n, base)) + [Rem(n, base)]
  {
  }

  method EncodeBase58Check(h: Hashes, version: byte, data: Bytes) returns (r: string)
    requires h.Sized()
    ensures r == Encoded([version] + data + h.sha256(h.sha256([version] + data))[..4])
  {
    var payload := [version];
    payload := payload + data;
    var checksum := DoubleSha256(h, payload);
    payload := payload + checksum[..4];
    r := EncodeBase58(payload);
  }

  method DecodeBase58CheckAddress(h: Hashes, address: string) returns (r: Result<(byte, Bytes), Base58Error>)
    requires h.Sized()
    ensures r == Decoded(h, address)
  {
    hide Value, Minimal, Quo, Rem, LeadingOnes, DigitsOf, DigitOf, Checked;
    var num: nat := 0;
    ghost var ds: seq<nat> := [];
    NoDigits();
    NoText();
    for i := 0 to |address|
      invariant DigitsOf(address[..i]) == Some(ds) && num == Value(58, ds)
    {
      var idx := DigitOf(address[i]);
      DigitsAppend(address, i);
      if idx.None? {
        return Err(InvalidCharacter);
      }
      ValueAppend(58, ds, idx.value);
      num := num * 58 + idx.value;
      ds := ds + [idx.value];
    }
    assert address[..|address|] == address;
    var bytes := ToBytesBe(num);
    var leadingZeros := LeadingOnes(address);
    if |bytes| + leadingZeros < 25 {
      var padded := Zeros(25 - |bytes| - leadingZeros);
      padded := padded + bytes;
      bytes := padded;
    }
    var fullBytes := Zeros(leadingZeros);
    fullBytes := fullBytes + bytes;
    r := CheckBytes(h, fullBytes);
  }

  /** The length, checksum and version tests at the end of the decoder. */
  method CheckBytes(h: Hashes, fullBytes: Bytes) returns (r: Result<(byte, Bytes), Base58Error>)
    requires h.Sized()
    ensures r == Checked(h, fullBytes)
  {
    if |fullBytes| != 25 {
      return Err(InvalidLength);
    }
    var payload, checksum := fullBytes[..21], fullBytes[21..25];
    var computed := DoubleSha256(h, payload);
    if computed[..4] != checksum {
      return Err(BadChecksum);
    }
    var version := payload[0];
    var hash := payload[1..21];
    assert hash == fullBytes[1..21];
    if version == 0x00 || version == 0x05 || version == 0x6f || version == 0xc4 {
      return Ok((version, hash));
    }
    return Err(UnknownVersion);
  }

  lemma NoText()
    ensures DigitsOf([]) == Some([])
  {
  }

  lemma DigitsAppend(t: string, i: nat)
    requires i < |t|
    ensures DigitOf(t[i]).None? ==> DigitsOf(t).None?
    ensures DigitOf(t[i]).Some? && DigitsOf(t[..i]).Some? ==>
              DigitsOf(t[..i + 1]) == Some(DigitsOf(t[..i]).value + [DigitOf(t[i]).value])
  {
    hide DigitOf, DigitsOf;
    assert t[..i + 1] == t[..i] + [t[i]];
    DigitsSnoc(t[..i], t[i]);
    if DigitOf(t[i]).None? {
      Foreign(t, i);
    }
  }

  lemma DigitsSnoc(t: string, c: char)
    ensures DigitOf(c).Some? && DigitsOf(t).Some? ==>
              DigitsOf(t + [c]) == Some(DigitsOf(t).value + [DigitOf(c).value])
  {
    hide DigitOf;
    assert (t + [c])[..|t|] == t;
  }

  lemma Foreign(t: string, i: nat)
    requires i < |t| && DigitOf(t[i]).None?
    ensures DigitsOf(t).None?
  {
    hide DigitOf, DigitsOf;
  }

  lemma {:induction false} SomeForeign(t: string) returns (i: nat)
    requires DigitsOf(t).None?
    ensures i < |t| && t[i] !in ALPHABET
  {
    hide DigitOf;
    if DigitsOf(t[..|t| - 1]).None? {
      i := SomeForeign(t[..|t| - 1]);
    } else {
      i := |t| - 1;
    }
  }

  /** A foreign character is reported before anything else, and nothing else is reported so. */
  lemma ForeignRefused(h: Hashes, t: string)
    requires h.Sized()
    ensures Decoded(h, t) == Err(InvalidCharacter) <==> exists i :: 0 <= i < |t| && t[i] !in ALPHABET
  {
    hide ALPHABET, DigitsOf, Value, DoubleSha256;
    if DigitsOf(t).None? {
      var i := SomeForeign(t);
    } else {
      forall i | 0 <= i < |t|
        ensures t[i] in ALPHABET
      {
        KnownCharacter(t, i);
      }
    }
  }

  lemma KnownCharacter(t: string, i: nat)
    requires i < |t| && DigitsOf(t).Some?
    ensures t[i] in ALPHABET
  {
    hide DigitsOf;
    assert t[i] == ALPHABET[DigitsOf(t).value[i]];
  }

  // ----- the round trip -----

  /** The alphabet ascends, so its characters differ. */
  lemma AlphabetStep(i: nat)
    requires i < 57
    ensures ALPHABET[i] < ALPHABET[i + 1]
  {
  }

  lemma {:induction false} AlphabetDistinct(i: nat, j: nat)
    requires i < j < 58
    ensures ALPHABET[i] < ALPHABET[j]
  {
    AlphabetStep(j - 1);
    if i < j - 1 {
      AlphabetDistinct(i, j - 1);
    }
  }

  lemma FindDigit(d: nat)
    requires d < 58
    ensures DigitOf(ALPHABET[d]) == Some(d)
  {
    forall j | 0 <= j < d
      ensures ALPHABET[j] != ALPHABET[d]
    {
      AlphabetDistinct(j, d);
    }
    FindDistinct(ALPHABET, d);
  }

  lemma {:induction false} DigitsOfText(ds: seq<nat>)
    requires AllBelow(ds, 58)
    ensures DigitsOf(DigitText(ds)) == Some(ds)
  {
    hide DigitOf;
    if ds != [] {
      var front, last := ds[..|ds| - 1], ds[|ds| - 1];
      DigitsOfText(front);
      FindDigit(last);
      assert DigitText(ds)[..|ds| - 1] == DigitText(front);
      assert ds == front + [last];
    }
  }

  lemma {:induction false} LeadingOnesOf(n: nat, ds: seq<nat>)
    requires AllBelow(ds, 58) && (ds != [] ==> ds[0] != 0)
    ensures LeadingOnes(DigitText(Zeros(n)) + DigitText(ds)) == n
  {
    hide DigitOf;
    var t := DigitText(Zeros(n)) + DigitText(ds);
    FirstDigit();
    if n > 0 {
      LeadingOnesOf(n - 1, ds);
      assert t[0] == '1' && t[1..] == DigitText(Zeros(n - 1)) + DigitText(ds);
    } else if ds != [] {
      NotAOne(ds[0]);
      assert t[0] == ALPHABET[ds[0]];
    } else {
      assert t == [];
    }
  }

  lemma NotAOne(d: nat)
    requires 0 < d < 58
    ensures ALPHABET[d] != '1'
  {
    FirstDigit();
    AlphabetDistinct(0, d);
  }

  /** An encoding shows the leading zeros as '1's and the rest as one number. */
  lemma EncodingReads(data: Bytes)
    ensures LeadingOnes(Encoded(data)) == LeadingZeros(data)
    ensures DigitsOf(Encoded(data)).Some? && Value(58, DigitsOf(Encoded(data)).value) == Value(256, data)
  {
    hide Value, Minimal, DigitsOf;
    var zeros, ds := Zeros(LeadingZeros(data)), Minimal(58, Value(256, data));
    LeadingOnesOf(|zeros|, ds);
    assert Encoded(data) == DigitText(zeros + ds);
    DigitsOfText(zeros + ds);
    ValueAfterZeros(58, zeros, ds);
    ValueOfMinimal(58, Value(256, data));
  }

  /** The bytes behind the leading zeros are the minimal form of the number. */
  lemma BytesAfterZeros(data: Bytes)
    requires LeadingZeros(data) < |data|
    ensures Value(256, data) > 0 && ToBytesBe(Value(256, data)) == data[LeadingZeros(data)..]
  {
    hide Value, Minimal, LeadingZeros;
    var z := LeadingZeros(data);
    var rest := data[z..];
    SplitZeros(data);
    ValueAfterZeros(256, Zeros(z), rest);
    MinimalOfValue(256, rest);
    NoBytes();
  }

  lemma NoBytes()
    ensures Minimal(256, 0) == []
  {
  }

  lemma LeadingZerosAll(data: Bytes)
    ensures LeadingZeros(data) == |data| <==> data == Zeros(|data|)
  {
  }

  /** Twenty-five bytes survive encoding and decoding, unless every one of them is zero. */
  lemma DecodedBytes(h: Hashes, data: Bytes)
    requires h.Sized() && |data| == 25
    ensures Decoded(h, Encoded(data)) == if data == Zeros(25) then Err(InvalidLength) else Checked(h, data)
  {
    hide Value, Minimal, DigitsOf, LeadingOnes, Encoded, Checked;
    EncodingReads(data);
    LeadingZerosAll(data);
    if data == Zeros(25) {
      ValueOfZeros(256, data);
      LengthWrong(h, Padded(25, [0]));
    } else {
      BytesAfterZeros(data);
      SplitZeros(data);
    }
  }

  lemma LengthWrong(h: Hashes, full: Bytes)
    requires h.Sized() && |full| == 26
    ensures Checked(h, full) == Err(InvalidLength)
  {
  }

  /** Base58Check gives back version and hash exactly when the checksummed payload is not all zeros. */
  lemma CheckRoundTrip(h: Hashes, version: byte, hash: Bytes)
    requires h.Sized() && |hash| == 20
    requires version == 0x00 || version == 0x05 || version == 0x6f || version == 0xc4
    ensures var p := [version] + hash + h.sha256(h.sha256([version] + hash))[..4];
            Decoded(h, Encoded(p)) == Ok((version, hash)) <==> p != Zeros(25)
  {
    hide Decoded, Encoded;
    var p := Payload(h, version, hash);
    DecodedBytes(h, p);
    assert p[..21] == [version] + hash;
    assert p[21..] == DoubleSha256(h, p[..21])[..4];
    assert p[1..21] == hash;
  }

  /** What fails for the all-zero payload: its twenty-five '1's decode to twenty-six bytes. */
  lemma AllZeroPayload(h: Hashes)
    requires h.Sized() && DoubleSha256(h, Zeros(21))[..4] == Zeros(4)
    ensures Payload(h, 0, Zeros(20)) == Zeros(25)
    ensures Decoded(h, Encoded(Payload(h, 0, Zeros(20)))) == Err(InvalidLength)
  {
    hide Decoded, Encoded;
    assert [0] + Zeros(20) == Zeros(21);
    DecodedBytes(h, Payload(h, 0, Zeros(20)));
  }

  // ----- which texts are accepted -----

  predicate IsVersion(version: byte) {
    version == 0x00 || version == 0x05 || version == 0x6f || version == 0xc4
  }

  /** k '1's in front of the digits of a number. */
  function Spelled(k: nat, n: nat): string {
    DigitText(Zeros(k)) + DigitText(Minimal(58, n))
  }

  lemma TailDigits(t: string)
    requires t != [] && DigitsOf(t).Some?
    ensures DigitsOf(t[1..]) == Some(DigitsOf(t).value[1..])
    ensures t[0] == '1' <==> DigitsOf(t).value[0] == 0
  {
    hide DigitsOf;
    var ds := DigitsOf(t).value;
    DigitsOfText(ds[1..]);
    assert t[1..] == DigitText(ds[1..]);
    FirstDigit();
    if ds[0] != 0 {
      AlphabetDistinct(0, ds[0]);
    }
  }

  /** The '1's in front of a text are the zeros in front of its digits. */
  lemma {:induction false} OnesInFront(t: string)
    requires DigitsOf(t).Some?
    ensures var ds, k := DigitsOf(t).value, LeadingOnes(t);
            ds[..k] == Zeros(k) && (k < |t| ==> ds[k] != 0)
  {
    hide DigitsOf;
    var ds := DigitsOf(t).value;
    if t != [] {
      TailDigits(t);
      if ds[0] == 0 {
        OnesInFront(t[1..]);
        OneMoreZero(ds, LeadingOnes(t[1..]));
      }
    }
  }

  lemma OneMoreZero(ds: seq<nat>, k: nat)
    requires k < |ds| && ds[0] == 0 && ds[1..][..k] == Zeros(k)
    ensures ds[..k + 1] == Zeros(k + 1)
    ensures k + 1 < |ds| ==> ds[1..][k] == ds[k + 1]
  {
    forall i | 0 < i <= k
      ensures ds[i] == 0
    {
      assert ds[i] == ds[1..][..k][i - 1];
    }
  }

  lemma TextIsSpelled(t: string)
    requires DigitsOf(t).Some?
    ensures t == Spelled(LeadingOnes(t), Value(58, DigitsOf(t).value))
  {
    hide DigitsOf, Value, Minimal, LeadingOnes;
    var ds, k := DigitsOf(t).value, LeadingOnes(t);
    OnesInFront(t);
    assert ds == Zeros(k) + ds[k..];
    ValueAfterZeros(58, Zeros(k), ds[k..]);
    MinimalOfValue(58, ds[k..]);
  }

  lemma SpelledReads(k: nat, n: nat)
    ensures LeadingOnes(Spelled(k, n)) == k
    ensures DigitsOf(Spelled(k, n)).Some? && Value(58, DigitsOf(Spelled(k, n)).value) == n
  {
    hide Value, Minimal, DigitsOf, LeadingOnes;
    var ds := Minimal(58, n);
    LeadingOnesOf(k, ds);
    assert Spelled(k, n) == DigitText(Zeros(k) + ds);
    DigitsOfText(Zeros(k) + ds);
    ValueAfterZeros(58, Zeros(k), ds);
    ValueOfMinimal(58, n);
  }

  lemma ValueOfBytesBe(n: nat)
    ensures Value(256, ToBytesBe(n)) == n && ToBytesBe(n) != [] && (n > 0 ==> ToBytesBe(n)[0] != 0)
  {
    ValueOfMinimal(256, n);
    ValueOfZeros(256, [0]);
  }

  lemma ZerosInFront(p: Bytes, k: nat)
    requires k <= |p| && p[..k] == Zeros(k)
    ensures k <= LeadingZeros(p)
  {
    hide LeadingZeros;
    assert forall i | 0 <= i < k :: p[i] == p[..k][i];
  }

  /** Every count of '1's up to the payload's zero bytes decodes to the payload; for the all-zero one, up to 24. */
  lemma PaddedIs(k: nat, n: nat, p: Bytes)
    requires |p| == 25
    ensures Padded(k, ToBytesBe(n)) == p <==> n == Value(256, p) && k <= LeadingZeros(p) && k < 25
  {
    hide Value, LeadingZeros, ToBytesBe;
    ValueOfBytesBe(n);
    if Padded(k, ToBytesBe(n)) == p {
      var b := ToBytesBe(n);
      assert p == Zeros(25 - |b|) + b;
      ValueAfterZeros(256, Zeros(25 - |b|), b);
      ZerosInFront(p, k);
    }
    if n == Value(256, p) && k <= LeadingZeros(p) && k < 25 {
      PaddedSuffices(k, p);
    }
  }

  lemma PaddedSuffices(k: nat, p: Bytes)
    requires |p| == 25 && k <= LeadingZeros(p) && k < 25
    ensures Padded(k, ToBytesBe(Value(256, p))) == p
  {
    hide Value, Minimal, LeadingZeros;
    LeadingZerosAll(p);
    SplitZeros(p);
    if LeadingZeros(p) == 25 {
      ValueOfZeros(256, p);
    } else {
      BytesAfterZeros(p);
    }
  }

  lemma CheckedIs(h: Hashes, full: Bytes, version: byte, hash: Bytes)
    requires h.Sized()
    ensures Checked(h, full) == Ok((version, hash))
            <==> IsVersion(version) && |hash| == 20 && full == Payload(h, version, hash)
  {
    if |full| == 25 {
      assert full == [full[0]] + full[1..21] + full[21..];
      assert full[..21] == [full[0]] + full[1..21];
    }
    var p := Payload(h, version, hash);
    if |hash| == 20 {
      assert p[..21] == [version] + hash && p[21..] == DoubleSha256(h, p[..21])[..4] && p[1..21] == hash;
    }
  }

  /** The texts that decode to a version and a hash are exactly those that spell the number of their payload behind at
      most as many '1's as it has zero bytes; with fewer, the decoder pads. */
  lemma AcceptedTexts(h: Hashes, text: string, version: byte, hash: Bytes)
    requires h.Sized()
    ensures var p := [version] + hash + h.sha256(h.sha256([version] + hash))[..4];
            var k := LeadingOnes(text);
            Decoded(h, text) == Ok((version, hash))
            <==> (version == 0x00 || version == 0x05 || version == 0x6f || version == 0xc4) && |hash| == 20
                 && k <= LeadingZeros(p) && k < 25 && text == Spelled(k, Value(256, p))
  {
    hide Value, Minimal, DigitsOf, LeadingOnes, LeadingZeros, Spelled, Checked, Padded, Payload, ToBytesBe;
    var p, k := Payload(h, version, hash), LeadingOnes(text);
    PayloadIs(h, version, hash);
    if DigitsOf(text).Some? {
      var n := Value(58, DigitsOf(text).value);
      TextIsSpelled(text);
      SpelledReads(k, Value(256, p));
      CheckedIs(h, Padded(k, ToBytesBe(n)), version, hash);
      if |hash| == 20 {
        PayloadLength(h, version, hash);
        PaddedIs(k, n, p);
      }
    } else {
      SpelledReads(k, Value(256, p));
    }
  }

  /** The checksum is the first four bytes of the hash of the hash. */
  lemma PayloadIs(h: Hashes, version: byte, hash: Bytes)
    requires h.Sized()
    ensures Payload(h, version, hash) == [version] + hash + h.sha256(h.sha256([version] + hash))[..4]
  {
  }

  lemma PayloadLength(h: Hashes, version: byte, hash: Bytes)
    requires h.Sized() && |hash| == 20
    ensures |Payload(h, version, hash)| == 25
  {
  }

  /** An accepted text is its own re-encoding exactly when its '1's are as many as the payload's zero bytes. */
  lemma AcceptedIsEncoding(h: Hashes, text: string, version: byte, hash: Bytes)
    requires h.Sized() && Decoded(h, text) == Ok((version, hash))
    ensures var p := [version] + hash + h.sha256(h.sha256([version] + hash))[..4];
            Encoded(p) == text <==> LeadingOnes(text) == LeadingZeros(p)
  {
    hide Decoded, Value, Minimal, LeadingOnes, LeadingZeros, DigitsOf, Payload;
    var p := Payload(h, version, hash);
    PayloadIs(h, version, hash);
    AcceptedTexts(h, text, version, hash);
    assert Encoded(p) == Spelled(LeadingZeros(p), Value(256, p));
    EncodingReads(p);
  }

  /** The alphabet: the letters and digits but for 0, O, I and l. `AlphabetDistinct` has them in ascending order. */
  lemma AlphabetIs(c: char)
    ensures c in ALPHABET <==> ('0' <= c <= '9' || 'A' <= c <= 'Z' || 'a' <= c <= 'z') && c !in "0OIl"
  {
    hide ALPHABET;
    AlphabetRuns();
    if '1' <= c <= '9' {
      assert ALPHABET[c as int - '1' as int] == c;
    } else if 'A' <= c <= 'H' {
      assert ALPHABET[9 + (c as int - 'A' as int)] == c;
    } else if 'J' <= c <= 'N' {
      assert ALPHABET[17 + (c as int - 'J' as int)] == c;
    } else if 'P' <= c <= 'Z' {
      assert ALPHABET[22 + (c as int - 'P' as int)] == c;
    } else if 'a' <= c <= 'k' {
      assert ALPHABET[33 + (c as int - 'a' as int)] == c;
    } else if 'm' <= c <= 'z' {
      assert ALPHABET[44 + (c as int - 'm' as int)] == c;
    }
  }

  /** Six runs of consecutive characters. */
  lemma AlphabetRuns()
    ensures |ALPHABET| == 58
    ensures forall i | 0 <= i < 9 :: ALPHABET[i] as int == '1' as int + i
    ensures forall i | 9 <= i < 17 :: ALPHABET[i] as int == 'A' as int + i - 9
    ensures forall i | 17 <= i < 22 :: ALPHABET[i] as int == 'J' as int + i - 17
    ensures forall i | 22 <= i < 33 :: ALPHABET[i] as int == 'P' as int + i - 22
    ensures forall i | 33 <= i < 44 :: ALPHABET[i] as int == 'a' as int + i - 33
    ensures forall i | 44 <= i < 58 :: ALPHABET[i] as int == 'm' as int + i - 44
  {
  }
}
