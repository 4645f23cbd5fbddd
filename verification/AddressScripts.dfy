/** `address_to_script_pubkey`: from any supported address to its output script. */
module AddressScripts {
  import opened Bytes
  import opened Text
  import opened Positional
  import opened Crypto
  import BitRegrouping
  import Bech32Checksum
  import Bech32
  import Bech32Laws
  import Base58
  import BitcoinTx

  datatype ScriptError = Segwit(why: Bech32.AddressError) | Legacy(cause: Base58.Base58Error)

  function P2shScript(hash: Bytes): Bytes {
    [0xa9, 0x14] + hash + [0x87]
  }

  function WitnessScript(witnessVersion: nat, program: seq<nat>): (s: seq<nat>) {
    [if witnessVersion == 0 then 0x00 else 0x50 + witnessVersion] + [|program|] + program
  }

  predicate LooksSegwit(address: AsciiString) {
    "bc1" <= ToLower(address) || "tb1" <= ToLower(address)
  }

  function AddressToScriptPubkey(h: Hashes, address: AsciiString): (r: Result<seq<nat>, ScriptError>)
    requires h.Sized()
  {
    var addr := TrimEnd(TrimStart(address));
    if LooksSegwit(addr) then
      match Bech32.DecodedAddress(addr)
      case Err(e) => Err(Segwit(e))
      case Ok((witnessVersion, program)) => Ok(WitnessScript(witnessVersion, program))
    else
      match Base58.Decoded(h, addr)
      case Err(e) => Err(Legacy(e))
      case Ok((version, hash)) =>
        if version == 0x00 || version == 0x6f then Ok(BitcoinTx.P2pkhScript(hash)) else Ok(P2shScript(hash))
  }

  method AddressToScript(h: Hashes, address: AsciiString) returns (r: Result<seq<nat>, ScriptError>)
    requires h.Sized()
    ensures r == AddressToScriptPubkey(h, address)
  {
    hide Bech32.DecodedAddress, Base58.Decoded, TrimStart, TrimEnd;
    var addr := TrimEnd(TrimStart(address));
    var lower := ToLower(addr);
    if "bc1" <= lower || "tb1" <= lower {
      var decoded := Bech32.DecodeBech32Address(addr);
      if decoded.Err? {
        return Err(Segwit(decoded.error));
      }
      var (witnessVersion, program) := decoded.value;
      var script: seq<nat> := [];
      if witnessVersion == 0 {
        script := script + [0x00];
      } else {
        script := script + [0x50 + witnessVersion];
      }
      script := script + [|program|];
      script := script + program;
      assert script == WitnessScript(witnessVersion, program);
      return Ok(script);
    }
    var legacy := Base58.DecodeBase58CheckAddress(h, addr);
    if legacy.Err? {
      return Err(Legacy(legacy.error));
    }
    var (version, hash) := legacy.value;
    var script: seq<nat> := [];
    if version == 0x00 || version == 0x6f {
      script := script + [0x76, 0xa9, 0x14];
      script := script + hash;
      script := script + [0x88, 0xac];
      assert script == BitcoinTx.P2pkhScript(hash);
    } else {
      script := script + [0xa9, 0x14];
      script := script + hash;
      script := script + [0x87];
      assert script == P2shScript(hash);
    }
    return Ok(script);
  }

  // ----- whitespace -----

  predicate AllWhitespace(s: string) {
    IsAscii(s) && Blank(s)
  }

  lemma Trimmed(w1: string, s: AsciiString, w2: string)
    requires AllWhitespace(w1) && AllWhitespace(w2)
    requires s != [] && !IsWhitespace(s[0]) && !IsWhitespace(s[|s| - 1])
    ensures IsAscii(w1 + s + w2) && TrimEnd(TrimStart(w1 + s + w2)) == s
  {
    hide TrimStart, TrimEnd, IsWhitespace;
    TrimDrops(w1, s, w2);
  }

  // ----- segwit addresses -----

  lemma SymbolsAreNotSpace(data: seq<nat>, i: nat)
    requires AllBelow(data, 32) && i < |data|
    ensures !IsWhitespace(Bech32.TextOf(data)[i])
  {
    CharIsNotSpace(data[i]);
  }

  lemma CharIsNotSpace(d: nat)
    requires d < 32
    ensures !IsWhitespace(Bech32.CHARSET[d])
  {
  }

  lemma EncodedShape(hrp: string, witnessVersion: nat, program: Bytes)
    requires witnessVersion < 32 && hrp != [] && !IsWhitespace(hrp[0])
    ensures var t := Bech32.Encoded(hrp, witnessVersion, program);
            && hrp + "1" <= t
            && !IsWhitespace(t[0]) && !IsWhitespace(t[|t| - 1])
  {
    hide Bech32Checksum.Fold, Bech32Checksum.Checksum, Bech32.Payload, Bech32.TextOf, IsWhitespace;
    var data := Bech32.Payload(witnessVersion, program);
    Bech32.ChecksumInRange(hrp, data, witnessVersion);
    var all := data + Bech32Checksum.Checksum(Bech32Checksum.Fold(1, Bech32.HrpExpand(hrp) + data), Bech32.ConstantFor(witnessVersion));
    SymbolsAreNotSpace(all, |all| - 1);
  }

  /** The human-readable parts that send an address to the segwit decoder: the two networks', and by the test on three
      characters also any that goes on after a separator of its own. */
  predicate PassesPrefix(hrp: string) {
    hrp == "bc" || hrp == "tb" || "bc1" <= hrp || "tb1" <= hrp
  }

  lemma PrefixRoutes(hrp: string, witnessVersion: nat, program: Bytes)
    requires IsAscii(hrp) && ToLower(hrp) == hrp
    requires witnessVersion <= 16 && Bech32.LegalLength(witnessVersion, |program|)
    ensures IsAscii(Bech32.Encoded(hrp, witnessVersion, program))
    ensures ToLower(Bech32.Encoded(hrp, witnessVersion, program)) == Bech32.Encoded(hrp, witnessVersion, program)
    ensures LooksSegwit(Bech32.Encoded(hrp, witnessVersion, program)) <==> PassesPrefix(hrp)
  {
    hide Bech32Checksum.Fold, Bech32Checksum.Checksum, Bech32.Payload, Bech32.TextOf, ToLower;
    var data := Bech32.Payload(witnessVersion, program);
    Bech32.ChecksumInRange(hrp, data, witnessVersion);
    var all := data + Bech32Checksum.Checksum(Bech32Checksum.Fold(1, Bech32.HrpExpand(hrp) + data), Bech32.ConstantFor(witnessVersion));
    Bech32Laws.EncodingSplits(hrp, all);
    FirstThree(hrp, Bech32.TextOf(all));
  }

  lemma FirstThree(hrp: string, text: string)
    requires |text| >= 2
    ensures var t := hrp + "1" + text;
            "bc1" <= t || "tb1" <= t <==> PassesPrefix(hrp)
  {
    var t := hrp + "1" + text;
    if |hrp| >= 3 {
      assert t[..3] == hrp[..3];
    } else if |hrp| == 2 {
      assert t[0] == hrp[0] && t[1] == hrp[1] && t[2] == '1';
      assert hrp == [t[0], t[1]];
    } else {
      assert t[|hrp|] == '1';
    }
  }

  /** Every legal segwit output, under every human-readable part that passes and with any surrounding blanks, becomes
      its own script. */
  lemma SegwitScript(h: Hashes, hrp: string, witnessVersion: nat, program: Bytes, w1: string, w2: string)
    requires h.Sized() && IsAscii(hrp) && ToLower(hrp) == hrp && PassesPrefix(hrp)
    requires AllWhitespace(w1) && AllWhitespace(w2)
    requires witnessVersion <= 16 && Bech32.LegalLength(witnessVersion, |program|)
    ensures var address := w1 + Bech32.Encoded(hrp, witnessVersion, program) + w2;
            && IsAscii(address)
            && AddressToScriptPubkey(h, address) ==
               Ok([if witnessVersion == 0 then 0x00 else 0x50 + witnessVersion, |program|] + program)
  {
    hide Bech32.Encoded, Bech32.DecodedAddress, TrimStart, TrimEnd, Base58.Decoded, LooksSegwit, ToLower;
    Bech32Laws.DecodeEncode(hrp, witnessVersion, program);
    PrefixRoutes(hrp, witnessVersion, program);
    EncodedShape(hrp, witnessVersion, program);
    Trimmed(w1, Bech32.Encoded(hrp, witnessVersion, program), w2);
    assert WitnessScript(witnessVersion, program)
        == [if witnessVersion == 0 then 0x00 else 0x50 + witnessVersion, |program|] + program;
  }

  /** Up to case, the one address of a program under a human-readable part. */
  predicate Spells(address: AsciiString, hrp: string, witnessVersion: nat, program: seq<nat>) {
    && IsAscii(hrp) && ToLower(hrp) == hrp && PassesPrefix(hrp)
    && witnessVersion <= 16 && Bech32.LegalLength(witnessVersion, |program|) && AllBelow(program, 256)
    && Bech32.Encoded(hrp, witnessVersion, program) == ToLower(address)
  }

  lemma CaseDoesNotMatter(address: AsciiString)
    ensures ToLower(ToLower(address)) == ToLower(address)
    ensures Bech32.DecodedAddress(ToLower(address)) == Bech32.DecodedAddress(address)
  {
    hide Bech32.SymbolsOf, FindLast, Bech32Checksum.Fold, Bech32.HrpExpand, BitRegrouping.Regroup;
    LowerTwice(address);
  }

  lemma LowerTwice(address: AsciiString)
    ensures ToLower(ToLower(address)) == ToLower(address)
  {
  }

  /** What an accepted address on the segwit path is and what it determines: it spells, up to case and blanks, the
      program of its script under a part that passes, and everything that does so is accepted. */
  lemma SegwitAccepted(h: Hashes, address: AsciiString, script: seq<nat>)
    requires h.Sized() && LooksSegwit(TrimEnd(TrimStart(address)))
    ensures AddressToScriptPubkey(h, address) == Ok(script)
            <==> exists hrp: string, v: nat, program: seq<nat> ::
                   Spells(TrimEnd(TrimStart(address)), hrp, v, program) && script == WitnessScript(v, program)
  {
    hide Bech32.Encoded, Bech32.DecodedAddress, Bech32.Decoded, TrimStart, TrimEnd, Base58.Decoded, LooksSegwit, ToLower, PassesPrefix;
    var addr: AsciiString := TrimEnd(TrimStart(address));
    if Bech32.DecodedAddress(addr).Ok? {
      var (v, program) := Bech32.DecodedAddress(addr).value;
      AcceptedSpells(addr);
      assert Spells(addr, Bech32.Decoded(addr).value.0, v, program);
    }
    forall hrp: string, v: nat, program: seq<nat> | Spells(addr, hrp, v, program)
      ensures Bech32.DecodedAddress(addr) == Ok((v, program))
    {
      Bech32Laws.DecodeEncode(hrp, v, program);
      CaseDoesNotMatter(addr);
    }
  }

  lemma AcceptedSpells(addr: AsciiString)
    requires LooksSegwit(addr) && Bech32.DecodedAddress(addr).Ok?
    ensures Bech32.Decoded(addr).Ok?
    ensures var (v, program) := Bech32.DecodedAddress(addr).value;
            Spells(addr, Bech32.Decoded(addr).value.0, v, program)
  {
    hide Bech32.Encoded, Bech32.DecodedAddress, Bech32.Decoded, PassesPrefix;
    var (v, program) := Bech32.DecodedAddress(addr).value;
    Bech32Laws.EncodeDecode(addr, v, program);
    PartIsLower(addr);
    CaseDoesNotMatter(addr);
    PrefixRoutes(Bech32.Decoded(addr).value.0, v, program);
  }

  lemma PartIsLower(addr: AsciiString)
    requires Bech32.Decoded(addr).Ok?
    ensures var hrp := Bech32.Decoded(addr).value.0;
            IsAscii(hrp) && ToLower(hrp) == hrp
  {
    hide Bech32.SymbolsOf, FindLast, Bech32Checksum.Fold, Bech32.HrpExpand;
    LowerTwice(addr);
    var lower := ToLower(addr);
    var pos := FindLast(lower, '1').value;
    assert forall i | 0 <= i < pos :: lower[..pos][i] == lower[i] && ToLower(lower)[i] == LowerChar(lower[i]);
  }

  /** A witness script determines the version and the program, so no other segwit address has it. */
  lemma ScriptNamesProgram(v: nat, program: seq<nat>, v': nat, program': seq<nat>)
    requires v <= 16 && v' <= 16 && WitnessScript(v, program) == WitnessScript(v', program')
    ensures v == v' && program == program'
  {
    var s, s' := WitnessScript(v, program), WitnessScript(v', program');
    assert s[0] == s'[0];
    assert program == s[2..] && program' == s'[2..];
  }

  // ----- legacy addresses -----

  /** The leading digit of a number that lies between multiples of a power. */
  lemma {:induction false} TopDigit(base: nat, n: nat, k: nat, low: nat, high: nat)
    requires base >= 2 && 0 < low <= high < base
    requires low * Pow(base, k) <= n < (high + 1) * Pow(base, k)
    ensures n > 0 && low <= Minimal(base, n)[0] <= high
    decreases k
  {
    hide Quo, Rem;
    PowPositive(base, k);
    MulMono(1, low, Pow(base, k));
    QuoDecreases(n, base);
    if k == 0 {
      SmallMinimal(base, n);
    } else {
      QuoBetween(base, n, Pow(base, k - 1), low, high);
      TopDigit(base, Quo(n, base), k - 1, low, high);
    }
  }

  lemma SmallMinimal(base: nat, n: nat)
    requires base >= 2 && 0 < n < base
    ensures Minimal(base, n) == [n]
  {
  }

  lemma QuoBetween(base: nat, n: nat, p: nat, low: nat, high: nat)
    requires base > 0 && low * (p * base) <= n < (high + 1) * (p * base)
    ensures low * p <= Quo(n, base) < (high + 1) * p
  {
    var q := Quo(n, base);
    MulAssoc(low, p, base);
    MulAssoc(high + 1, p, base);
    if q < low * p {
      MulMono(q + 1, low * p, base);
    }
    if q >= (high + 1) * p {
      MulMono((high + 1) * p, q, base);
    }
  }

  lemma Powers58()
    ensures Pow(58, 33) == 15599970876632771988160814054146447252125923204784443097088
    ensures Pow(58, 34) == 58 * Pow(58, 33)
    ensures Pow(256, 24) == 6277101735386680763835789423207666416102355444464034512896
  {
    assert Pow(58, 2) == 3364;
    PowAdd(58, 2, 2);
    PowAdd(58, 4, 4);
    PowAdd(58, 8, 8);
    PowAdd(58, 16, 16);
    PowAdd(58, 32, 1);
    assert Pow(256, 3) == 0x100_0000;
    PowAdd(256, 3, 3);
    PowAdd(256, 6, 6);
    PowAdd(256, 12, 12);
  }

  lemma PayloadValue(version: byte, rest: Bytes)
    requires |rest| == 24
    ensures version * Pow(256, 24) <= Value(256, [version] + rest) < (version + 1) * Pow(256, 24)
  {
    ValueConcat(256, [version], rest);
    ValueBound(256, rest);
    Base58.NoDigits();
    Base58.ValueAppend(256, [], version);
    assert [] + [version as nat] == [version];
  }

  /** No legacy address of the four versions is mistaken for a segwit one, or trimmed. */
  lemma LegacyFirstCharacter(version: byte, rest: Bytes)
    requires |rest| == 24
    requires version == 0x00 || version == 0x05 || version == 0x6f || version == 0xc4
    ensures var t := Base58.Encoded([version] + rest);
            t != [] && (t[0] == '1' || t[0] == '2' || t[0] == '3' || t[0] == 'm' || t[0] == 'n')
  {
    hide Value, Minimal, Pow;
    var data := [version] + rest;
    var n := Value(256, data);
    if version == 0 {
      Base58.FirstDigit();
    } else {
      PayloadValue(version, rest);
      Powers58();
      if version == 0x05 {
        TopDigit(58, n, 33, 2, 2);
      } else if version == 0x6f {
        TopDigit(58, n, 33, 44, 45);
      } else {
        TopDigit(58, n, 34, 1, 1);
      }
      DigitNames();
    }
  }

  lemma DigitNames()
    ensures Base58.ALPHABET[1] == '2' && Base58.ALPHABET[2] == '3'
    ensures Base58.ALPHABET[44] == 'm' && Base58.ALPHABET[45] == 'n'
  {
  }

  lemma AlphabetIsPlain(d: nat)
    requires d < 58
    ensures Base58.ALPHABET[d] < 128 as char && !IsWhitespace(Base58.ALPHABET[d])
  {
    if d > 0 {
      Base58.AlphabetDistinct(0, d);
    }
    if d < 57 {
      Base58.AlphabetDistinct(d, 57);
    }
    AlphabetEnds();
  }

  lemma AlphabetEnds()
    ensures Base58.ALPHABET[0] == '1' && Base58.ALPHABET[57] == 'z'
  {
  }

  lemma LegacyText(data: Bytes)
    ensures IsAscii(Base58.Encoded(data))
    ensures forall i | 0 <= i < |Base58.Encoded(data)| :: !IsWhitespace(Base58.Encoded(data)[i])
  {
    hide Value, Minimal, LeadingZeros, IsWhitespace;
    var ds := Zeros(LeadingZeros(data)) + Minimal(58, Value(256, data));
    assert Base58.Encoded(data) == Base58.DigitText(ds);
    forall i | 0 <= i < |ds|
      ensures Base58.ALPHABET[ds[i]] < 128 as char && !IsWhitespace(Base58.ALPHABET[ds[i]])
    {
      AlphabetIsPlain(ds[i]);
    }
  }

  /** Every legacy address, with any surrounding blanks, becomes the script of its version and hash. */
  lemma LegacyScript(h: Hashes, version: byte, hash: Bytes, w1: string, w2: string)
    requires h.Sized() && |hash| == 20 && AllWhitespace(w1) && AllWhitespace(w2)
    requires version == 0x00 || version == 0x05 || version == 0x6f || version == 0xc4
    requires Base58.Payload(h, version, hash) != Zeros(25)
    ensures var address := w1 + Base58.Encoded(Base58.Payload(h, version, hash)) + w2;
            && IsAscii(address)
            && AddressToScriptPubkey(h, address) ==
               Ok(if version == 0x00 || version == 0x6f
                  then [0x76, 0xa9, 0x14] + hash + [0x88, 0xac]
                  else [0xa9, 0x14] + hash + [0x87])
  {
    hide Base58.Encoded, Base58.Decoded, TrimStart, TrimEnd, IsWhitespace;
    var p := Base58.Payload(h, version, hash);
    var t := Base58.Encoded(p);
    assert p == [version] + p[1..];
    LegacyFirstCharacter(version, p[1..]);
    LegacyText(p);
    Trimmed(w1, t, w2);
    Base58.CheckRoundTrip(h, version, hash);
    assert ToLower(t)[0] == LowerChar(t[0]);
  }
}
