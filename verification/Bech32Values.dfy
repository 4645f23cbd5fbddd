/** The bech32 codec symbol by symbol, without the functions that build its value string. */
module Bech32Values {
  import opened Bytes
  import opened Text
  import opened MachineBits
  import opened BitRegrouping
  import opened Bech32Checksum
  import opened Bech32
  import opened Bech32Laws

  /** The values that BIP173 checks: the high bits of the human-readable part, a zero, its low bits, the symbols. */
  predicate CheckedValues(vs: seq<nat>, hrp: string, symbols: seq<nat>) {
    var n := |hrp|;
    && |vs| == 2 * n + 1 + |symbols|
    && (forall i | 0 <= i < n :: vs[i] == hrp[i] as int % 256 / 32)
    && vs[n] == 0
    && (forall i | 0 <= i < n :: vs[n + 1 + i] == hrp[i] as int % 256 % 32)
    && (forall i | 0 <= i < |symbols| :: vs[2 * n + 1 + i] == symbols[i])
  }

  lemma ExpansionIs(vs: seq<nat>, hrp: string, symbols: seq<nat>)
    requires CheckedValues(vs, hrp, symbols)
    ensures vs == HrpExpand(hrp) + symbols
  {
    var e := HrpExpand(hrp);
    assert |e| == 2 * |hrp| + 1;
    forall i | 0 <= i < |vs|
      ensures vs[i] == (e + symbols)[i]
    {
      if i < |hrp| {
        assert e[i] == CharByte(hrp[i]) / 32;
      } else if |hrp| < i < |e| {
        assert vs[|hrp| + 1 + (i - |hrp| - 1)] == hrp[i - |hrp| - 1] as int % 256 % 32;
        assert e[i] == CharByte(hrp[i - |hrp| - 1]) % 32;
      } else if i >= |e| {
        assert vs[2 * |hrp| + 1 + (i - |e|)] == symbols[i - |e|];
      }
    }
  }

  /** What the decoder makes of a text with a separator and no foreign character, by the residue of its values. */
  lemma DecodedByResidue(address: AsciiString, pos: nat, symbols: seq<nat>, vs: seq<nat>)
    requires FindLast(ToLower(address), '1') == Some(pos) && AllBelow(symbols, 32)
    requires ToLower(address)[pos + 1..] == TextOf(symbols)
    requires CheckedValues(vs, ToLower(address)[..pos], symbols)
    ensures var hrp := ToLower(address)[..pos];
            Decoded(address) ==
            if |symbols| < 6 then Err(TooShort)
            else if Fold(1, vs) == 1 then Ok((hrp, symbols[..|symbols| - 6], Variant.Bech32))
            else if Fold(1, vs) == 0x2bc830a3 then Ok((hrp, symbols[..|symbols| - 6], Bech32m))
            else Err(BadChecksum)
  {
    hide Fold, HrpExpand, SymbolsOf, FindLast, ToLower, CheckedValues;
    SymbolsOfText(symbols);
    ExpansionIs(vs, ToLower(address)[..pos], symbols);
  }

  /** Texts that split into no symbols. */
  lemma NotBech32(address: AsciiString)
    ensures Decoded(address) == Err(NoSeparator) <==> '1' !in ToLower(address)
    ensures Decoded(address) == Err(InvalidCharacter)
            <==> exists pos, i :: FindLast(ToLower(address), '1') == Some(pos) && pos < i < |address|
                                  && ToLower(address)[i] !in CHARSET
  {
    hide Fold, HrpExpand, FindLast, ToLower, SymbolsOf;
    var lower := ToLower(address);
    if FindLast(lower, '1').Some? {
      NoSymbols(lower, FindLast(lower, '1').value);
    }
  }

  lemma NoSymbols(lower: string, pos: nat)
    requires pos < |lower|
    ensures SymbolsOf(lower[pos + 1..]).None? <==> exists i :: pos < i < |lower| && lower[i] !in CHARSET
  {
    hide SymbolsOf, CHARSET;
    var t := lower[pos + 1..];
    if k :| 0 <= k < |t| && t[k] !in CHARSET {
      assert lower[pos + 1 + k] !in CHARSET;
    } else {
      forall i | pos < i < |lower|
        ensures lower[i] in CHARSET
      {
        assert t[i - pos - 1] == lower[i];
      }
    }
  }

  /** A correct checksum of the kind that belongs to other versions is refused as such, and a version above 16, or none,
      before that. */
  lemma ForeignVariant(address: AsciiString, pos: nat, symbols: seq<nat>, vs: seq<nat>)
    requires FindLast(ToLower(address), '1') == Some(pos) && AllBelow(symbols, 32)
    requires ToLower(address)[pos + 1..] == TextOf(symbols)
    requires CheckedValues(vs, ToLower(address)[..pos], symbols)
    requires |symbols| >= 6 && (Fold(1, vs) == 1 || Fold(1, vs) == 0x2bc830a3)
    ensures |symbols| == 6 <==> DecodedAddress(address) == Err(EmptyData)
    ensures |symbols| > 6 && symbols[0] > 16 <==> DecodedAddress(address) == Err(BadVersion)
    ensures |symbols| > 6 && symbols[0] <= 16 && Fold(1, vs) != (if symbols[0] == 0 then 1 else 0x2bc830a3)
            <==> DecodedAddress(address) == Err(WrongVariant)
  {
    hide Fold, HrpExpand, SymbolsOf, FindLast, ToLower, CheckedValues, Decoded, Regroup;
    DecodedByResidue(address, pos, symbols, vs);
  }

  /** The residue of an encoding is 1 for version 0 and the BIP350 constant for the others. */
  lemma EncodedResidue(hrp: string, witnessVersion: nat, program: Bytes, symbols: seq<nat>, vs: seq<nat>)
    requires witnessVersion < 32 && AllBelow(symbols, 32)
    requires Encoded(hrp, witnessVersion, program) == hrp + "1" + TextOf(symbols)
    requires CheckedValues(vs, hrp, symbols)
    ensures Fold(1, vs) == if witnessVersion == 0 then 1 else 0x2bc830a3
    ensures |symbols| >= 7 && symbols[0] == witnessVersion
    ensures Regroup(program, 8, 5, true) == Ok(symbols[1..|symbols| - 6])
  {
    hide Fold, HrpExpand, Checksum, CheckedValues, Regroup;
    var data := Payload(witnessVersion, program);
    var all := data + Checksum(Fold(1, HrpExpand(hrp) + data), ConstantFor(witnessVersion));
    PaddedProgram(program);
    ResidueOfEncoding(hrp, data, witnessVersion);
    TextIsSymbols(hrp, symbols, all);
    ExpansionIs(vs, hrp, symbols);
    assert symbols[1..|symbols| - 6] == data[1..];
  }

  lemma TextIsSymbols(hrp: string, a: seq<nat>, b: seq<nat>)
    requires AllBelow(a, 32) && AllBelow(b, 32) && hrp + "1" + TextOf(a) == hrp + "1" + TextOf(b)
    ensures a == b
  {
    SplitAt(hrp + "1", TextOf(a), hrp + "1", TextOf(b));
    assert |a| == |TextOf(a)| == |b|;
    forall i | 0 <= i < |a|
      ensures a[i] == b[i]
    {
      assert TextOf(a)[i] == TextOf(b)[i];
      SameSymbol(a[i], b[i]);
    }
  }

  /** The table of BIP173, eight characters a row. */
  lemma CharacterTable(row: nat, column: nat)
    requires row < 4 && column < 8
    ensures CHARSET[8 * row + column] == ["qpzry9x8", "gf2tvdw0", "s3jn54kh", "ce6mua7l"][row][column]
  {
  }

  /** Which encodings decode: by version and program length, as BIP141 and this wallet allow them. */
  lemma EncodingsThatDecode(hrp: string, witnessVersion: nat, program: Bytes)
    requires IsAscii(hrp) && ToLower(hrp) == hrp && witnessVersion < 32
    ensures IsAscii(Encoded(hrp, witnessVersion, program))
    ensures var n := |program|;
            DecodedAddress(Encoded(hrp, witnessVersion, program)) ==
            if witnessVersion > 16 then Err(BadVersion)
            else if (witnessVersion == 0 && n != 20 && n != 32) || (witnessVersion == 1 && n != 32)
                    || (witnessVersion >= 2 && !(2 <= n <= 40)) then Err(BadProgramLength)
            else Ok((witnessVersion, program))
  {
    hide Fold, Checksum, HrpExpand, Regroup, Decoded;
    DecodedText(hrp, Payload(witnessVersion, program), witnessVersion);
    PaddedProgram(program);
    Powers();
    UnpadAfterPad(program, 8, 5);
    assert Payload(witnessVersion, program)[1..] == Regroup(program, 8, 5, true).value;
  }
}
