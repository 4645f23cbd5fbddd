/** What segwit addresses promise: round trips in both directions, and detection of bursts of errors. */
module Bech32Laws {
  import opened Bytes
  import opened Text
  import opened BitRegrouping
  import opened Bech32Checksum
  import opened Bech32

  // ----- decoding what was encoded -----

  /** An encoding reads back as its human-readable part, its separator and its symbols. */
  lemma EncodingSplits(hrp: string, symbols: seq<nat>)
    requires IsAscii(hrp) && ToLower(hrp) == hrp && AllBelow(symbols, 32)
    ensures var t := hrp + "1" + TextOf(symbols);
            && IsAscii(t) && ToLower(t) == t
            && FindLast(t, '1') == Some(|hrp|) && t[..|hrp|] == hrp
            && SymbolsOf(t[|hrp| + 1..]) == Some(symbols)
  {
    hide SymbolsOf, FindLast, LowerChar;
    var t := hrp + "1" + TextOf(symbols);
    PlainText(symbols);
    LowerParts(hrp, TextOf(symbols));
    assert t[|hrp| + 1..] == TextOf(symbols);
    FindLastIs(t, '1', |hrp|);
    SymbolsOfText(symbols);
  }

  lemma PlainText(symbols: seq<nat>)
    requires AllBelow(symbols, 32)
    ensures IsAscii(TextOf(symbols)) && ToLower(TextOf(symbols)) == TextOf(symbols)
    ensures '1' !in TextOf(symbols)
  {
    hide LowerChar;
    forall i | 0 <= i < |symbols|
      ensures var c := TextOf(symbols)[i]; c < 128 as char && LowerChar(c) == c && c != '1'
    {
      CharsetHasNoSeparator(symbols[i]);
    }
  }

  lemma LowerParts(hrp: string, text: string)
    requires IsAscii(hrp) && ToLower(hrp) == hrp && IsAscii(text) && ToLower(text) == text
    ensures IsAscii(hrp + "1" + text) && ToLower(hrp + "1" + text) == hrp + "1" + text
  {
    hide LowerChar;
    var t := hrp + "1" + text;
    forall i | 0 <= i < |t|
      ensures t[i] < 128 as char && LowerChar(t[i]) == t[i]
    {
      if i < |hrp| {
        assert ToLower(hrp)[i] == LowerChar(hrp[i]);
      } else if i > |hrp| {
        assert ToLower(text)[i - |hrp| - 1] == LowerChar(text[i - |hrp| - 1]);
      } else {
        LowerSeparator();
      }
    }
  }

  lemma LowerSeparator()
    ensures LowerChar('1') == '1'
  {
  }

  /** Closing checksum symbols bring the residue to the constant. */
  lemma ResidueOfEncoding(hrp: string, data: seq<nat>, witnessVersion: nat)
    requires AllBelow(data, 32)
    ensures var all := data + Checksum(Fold(1, HrpExpand(hrp) + data), ConstantFor(witnessVersion));
            AllBelow(all, 32) && Fold(1, HrpExpand(hrp) + all) == ConstantFor(witnessVersion)
  {
    hide Fold, Checksum, HrpExpand;
    ChecksumInRange(hrp, data, witnessVersion);
    var start := Fold(1, HrpExpand(hrp) + data);
    var checksum := Checksum(start, ConstantFor(witnessVersion));
    ChecksumCloses(start, ConstantFor(witnessVersion));
    FoldConcat(1, HrpExpand(hrp) + data, checksum);
    assert HrpExpand(hrp) + (data + checksum) == (HrpExpand(hrp) + data) + checksum;
  }

  lemma DecodedText(hrp: string, data: seq<nat>, witnessVersion: nat)
    requires IsAscii(hrp) && ToLower(hrp) == hrp && AllBelow(data, 32)
    ensures var checksum := Checksum(Fold(1, HrpExpand(hrp) + data), ConstantFor(witnessVersion));
            && AllBelow(data + checksum, 32)
            && var t := hrp + "1" + TextOf(data + checksum);
               IsAscii(t) && Decoded(t) == Ok((hrp, data, if witnessVersion == 0 then Bech32 else Bech32m))
  {
    hide Fold, Checksum, HrpExpand, SymbolsOf, FindLast, ToLower;
    var checksum := Checksum(Fold(1, HrpExpand(hrp) + data), ConstantFor(witnessVersion));
    ResidueOfEncoding(hrp, data, witnessVersion);
    EncodingSplits(hrp, data + checksum);
    assert (data + checksum)[..|data + checksum| - 6] == data;
  }

  lemma DecodeEncode(hrp: string, witnessVersion: nat, program: Bytes)
    requires IsAscii(hrp) && ToLower(hrp) == hrp
    requires witnessVersion <= 16 && LegalLength(witnessVersion, |program|)
    ensures IsAscii(Encoded(hrp, witnessVersion, program))
    ensures DecodedAddress(Encoded(hrp, witnessVersion, program)) == Ok((witnessVersion, program))
  {
    hide Fold, Checksum, HrpExpand, Regroup, Decoded;
    DecodedText(hrp, Payload(witnessVersion, program), witnessVersion);
    PaddedProgram(program);
    Powers();
    UnpadAfterPad(program, 8, 5);
    assert Payload(witnessVersion, program)[1..] == Regroup(program, 8, 5, true).value;
  }

  // ----- encoding what was decoded -----

  /** The symbols of an accepted address, checksum included. */
  function SymbolsIn(address: AsciiString): (all: Bytes)
    requires Decoded(address).Ok?
    ensures |all| >= 6 && AllBelow(all, 32)
  {
    var lower := ToLower(address);
    SymbolsOf(lower[FindLast(lower, '1').value + 1..]).value
  }

  /** The symbols before the checksum are the version and the padded program. */
  lemma AcceptedPayload(address: AsciiString, witnessVersion: nat, program: seq<nat>)
    requires DecodedAddress(address) == Ok((witnessVersion, program))
    ensures witnessVersion <= 16 && LegalLength(witnessVersion, |program|) && AllBelow(program, 256)
    ensures Decoded(address).Ok? && Decoded(address).value.1 == Payload(witnessVersion, program)
    ensures Decoded(address).value.2 == if witnessVersion == 0 then Bech32 else Bech32m
  {
    hide Decoded, Regroup;
    var data := Decoded(address).value.1;
    Powers();
    PadAfterUnpad(data[1..], program, 8, 5);
    assert data == [witnessVersion] + data[1..];
  }

  lemma DecodedResidue(address: AsciiString)
    requires Decoded(address).Ok?
    ensures var (hrp, data, variant), all := Decoded(address).value, SymbolsIn(address);
            && data == all[..|all| - 6]
            && Fold(1, HrpExpand(hrp) + all) == if variant == Bech32 then 1 else BECH32M_CONST
  {
    hide Fold, HrpExpand, SymbolsOf, FindLast, ToLower;
  }

  /** The last six symbols are the checksum of the others. */
  lemma AcceptedChecksum(address: AsciiString, witnessVersion: nat)
    requires Decoded(address).Ok?
    requires Decoded(address).value.2 == if witnessVersion == 0 then Bech32 else Bech32m
    ensures var (hrp, data, _) := Decoded(address).value;
            SymbolsIn(address) == data + Checksum(Fold(1, HrpExpand(hrp) + data), ConstantFor(witnessVersion))
  {
    hide Decoded, SymbolsIn, Fold, Checksum, HrpExpand;
    var (hrp, data, variant) := Decoded(address).value;
    DecodedResidue(address);
    ChecksumIsLast(hrp, SymbolsIn(address), witnessVersion);
  }

  lemma ChecksumIsLast(hrp: string, all: Bytes, witnessVersion: nat)
    requires |all| >= 6 && AllBelow(all, 32) && Fold(1, HrpExpand(hrp) + all) == ConstantFor(witnessVersion)
    ensures var data := all[..|all| - 6];
            all == data + Checksum(Fold(1, HrpExpand(hrp) + data), ConstantFor(witnessVersion))
  {
    hide Fold, Checksum, HrpExpand;
    var data, checksum := all[..|all| - 6], all[|all| - 6..];
    assert all == data + checksum;
    ChecksumInRange(hrp, data, witnessVersion);
    Associate(HrpExpand(hrp), data, checksum);
    FoldConcat(1, HrpExpand(hrp) + data, checksum);
    ChecksumUnique(Fold(1, HrpExpand(hrp) + data), ConstantFor(witnessVersion), checksum);
  }

  /** The text is its human-readable part, the separator and its symbols. */
  lemma AcceptedText(address: AsciiString)
    requires Decoded(address).Ok?
    ensures ToLower(address) == Decoded(address).value.0 + "1" + TextOf(SymbolsIn(address))
  {
    hide Fold, HrpExpand, SymbolsOf, FindLast, ToLower;
    var lower := ToLower(address);
    var pos := FindLast(lower, '1').value;
    assert lower == lower[..pos] + "1" + lower[pos + 1..];
    assert TextOf(SymbolsIn(address)) == lower[pos + 1..];
  }

  /** Every accepted address is, up to case, the one encoding of what it says. */
  lemma EncodeDecode(address: AsciiString, witnessVersion: nat, program: seq<nat>)
    requires DecodedAddress(address) == Ok((witnessVersion, program))
    ensures Decoded(address).Ok? && AllBelow(program, 256)
    ensures witnessVersion <= 16 && LegalLength(witnessVersion, |program|)
    ensures Encoded(Decoded(address).value.0, witnessVersion, program) == ToLower(address)
  {
    hide Decoded, DecodedAddress, Fold, Checksum, HrpExpand, SymbolsIn, ToLower, Payload;
    AcceptedPayload(address, witnessVersion, program);
    AcceptedChecksum(address, witnessVersion);
    AcceptedText(address);
  }

  /** One payload under one human-readable part has one address, up to case. */
  lemma AddressUnique(a: AsciiString, b: AsciiString)
    requires DecodedAddress(a).Ok? && DecodedAddress(a) == DecodedAddress(b)
    requires Decoded(a).Ok? && Decoded(b).Ok? && Decoded(a).value.0 == Decoded(b).value.0
    ensures ToLower(a) == ToLower(b)
  {
    hide DecodedAddress, Decoded, Encoded;
    var (v, p) := DecodedAddress(a).value;
    EncodeDecode(a, v, p);
    EncodeDecode(b, v, p);
  }

  // ----- bursts of substitutions -----

  /** The residue is the one that the version's zero or non-zero class prescribes. */
  predicate ResidueMatches(hrp: string, dataPart: string) {
    match SymbolsOf(dataPart)
    case None => false
    case Some(all) =>
      |all| > 6 && Fold(1, HrpExpand(hrp) + all) == if all[0] == 0 then 1 else BECH32M_CONST
  }

  lemma AcceptedResidue(address: AsciiString)
    requires DecodedAddress(address).Ok?
    ensures var lower := ToLower(address);
            match FindLast(lower, '1')
            case None => false
            case Some(pos) => ResidueMatches(lower[..pos], lower[pos + 1..])
  {
    hide Fold, HrpExpand, SymbolsOf, FindLast, Regroup;
  }

  /** Substitutions confined to six consecutive symbols of an accepted address are rejected. */
  lemma BurstRejected(a: AsciiString, b: AsciiString, start: nat, stop: nat)
    requires DecodedAddress(a).Ok?
    requires ToLower(a) != ToLower(b)
    // Only characters after the separator change, in a window of six, and none becomes a separator.
    requires FindLast(ToLower(a), '1').value < start <= stop <= |a| == |b| && stop - start <= 6
    requires forall i | 0 <= i < |a| && !(start <= i < stop) :: ToLower(a)[i] == ToLower(b)[i]
    requires '1' !in ToLower(b)[start..stop]
    // The symbol of the witness version stays zero or stays non-zero.
    requires var v := FindLast(ToLower(a), '1').value + 1;
             v < |a| ==> (ToLower(a)[v] == CHARSET[0] <==> ToLower(b)[v] == CHARSET[0])
    ensures DecodedAddress(b).Err?
  {
    hide *;
    if DecodedAddress(b).Ok? {
      AcceptedResidue(a);
      AcceptedResidue(b);
      var pos := FindLast(ToLower(a), '1').value;
      SeparatorStays(ToLower(a), ToLower(b), pos, start, stop);
      BurstInTexts(ToLower(a), ToLower(b), pos, start, stop);
    }
  }

  /** The symbol of the witness version is the zero symbol. */
  predicate ZeroClass(address: AsciiString) {
    var lower := ToLower(address);
    match FindLast(lower, '1')
    case None => false
    case Some(pos) => pos + 1 < |lower| && lower[pos + 1] == CHARSET[0]
  }

  /** b is a with changes only in a window of its symbols, and no new separator. */
  predicate ChangedWithin(a: AsciiString, b: AsciiString, start: nat, stop: nat) {
    var la, lb := ToLower(a), ToLower(b);
    && |la| == |lb| && start <= stop <= |la|
    && FindLast(la, '1').Some? && FindLast(la, '1').value < start
    && '1' !in lb[start..stop]
    && forall i | 0 <= i < |la| && !(start <= i < stop) :: la[i] == lb[i]
  }

  lemma ChangedOnce(a: AsciiString, b: AsciiString, start: nat, stop: nat)
    requires ChangedWithin(a, b, start, stop)
    ensures FindLast(ToLower(b), '1') == FindLast(ToLower(a), '1')
  {
    hide FindLast, ToLower;
    SeparatorStays(ToLower(a), ToLower(b), FindLast(ToLower(a), '1').value, start, stop);
  }

  /** Of all the changes of one address within a window of six symbols, at most one is accepted for each class of
      the version symbol; so a burst that changes the class goes unnoticed for one text at most. */
  lemma OneTextPerClass(a: AsciiString, b: AsciiString, c: AsciiString, start: nat, stop: nat)
    requires stop - start <= 6 && ChangedWithin(a, b, start, stop) && ChangedWithin(a, c, start, stop)
    requires DecodedAddress(b).Ok? && DecodedAddress(c).Ok? && ZeroClass(b) == ZeroClass(c)
    ensures ToLower(b) == ToLower(c)
  {
    hide FindLast, ToLower, DecodedAddress, CHARSET;
    ChangedOnce(a, b, start, stop);
    ChangedOnce(a, c, start, stop);
    if ToLower(b) != ToLower(c) {
      BurstRejected(b, c, start, stop);
    }
  }

  lemma BurstInTexts(la: string, lb: string, pos: nat, start: nat, stop: nat)
    requires pos < start <= stop <= |la| == |lb| && stop - start <= 6 && la != lb
    requires forall i | 0 <= i < |la| && !(start <= i < stop) :: la[i] == lb[i]
    requires pos + 1 < |la| ==> (la[pos + 1] == CHARSET[0] <==> lb[pos + 1] == CHARSET[0])
    ensures !ResidueMatches(la[..pos], la[pos + 1..]) || !ResidueMatches(lb[..pos], lb[pos + 1..])
  {
    hide Fold, HrpExpand, SymbolsOf;
    if SymbolsOf(la[pos + 1..]).Some? && SymbolsOf(lb[pos + 1..]).Some? && pos + 1 < |la| {
      var x, y := SymbolsOf(la[pos + 1..]).value, SymbolsOf(lb[pos + 1..]).value;
      assert la[..pos + 1] == lb[..pos + 1];
      SymbolsFollowText(la, lb, pos, x, y);
      SameSymbolClass(x[0]);
      SameSymbolClass(y[0]);
      assert la[..pos] == lb[..pos];
      BurstInSymbols(la[..pos], x, y, start - pos - 1, stop - pos - 1);
    }
  }

  lemma BurstInSymbols(hrp: string, x: Bytes, y: Bytes, start: nat, stop: nat)
    requires |x| == |y| && x != y && AllBelow(x, 32) && AllBelow(y, 32)
    requires start <= stop <= |x| && stop - start <= 6
    requires forall i | 0 <= i < |x| && !(start <= i < stop) :: x[i] == y[i]
    ensures Fold(1, HrpExpand(hrp) + x) != Fold(1, HrpExpand(hrp) + y)
  {
    hide Fold, HrpExpand;
    FoldConcat(1, HrpExpand(hrp), x);
    FoldConcat(1, HrpExpand(hrp), y);
    BurstChangesResidue(Fold(1, HrpExpand(hrp)), x, y, start, stop);
  }

  lemma SeparatorStays(la: string, lb: string, pos: nat, start: nat, stop: nat)
    requires |la| == |lb| && pos < start <= stop <= |la|
    requires FindLast(la, '1') == Some(pos)
    requires forall i | 0 <= i < |la| && !(start <= i < stop) :: la[i] == lb[i]
    requires '1' !in lb[start..stop]
    ensures FindLast(lb, '1') == Some(pos)
  {
    hide FindLast;
    forall i | pos < i < |lb|
      ensures lb[i] != '1'
    {
      if start <= i < stop {
        assert lb[i] == lb[start..stop][i - start];
      } else {
        assert la[i] == la[pos + 1..][i - pos - 1];
      }
    }
    FindLastIs(lb, '1', pos);
  }

  lemma SymbolsFollowText(la: string, lb: string, pos: nat, x: Bytes, y: Bytes)
    requires pos < |la| == |lb| && la[..pos + 1] == lb[..pos + 1] && la != lb
    requires SymbolsOf(la[pos + 1..]) == Some(x) && SymbolsOf(lb[pos + 1..]) == Some(y)
    ensures |x| == |y| == |la| - pos - 1 && x != y
    ensures forall i | 0 <= i < |x| :: x[i] == y[i] <==> la[pos + 1 + i] == lb[pos + 1 + i]
  {
    hide SymbolsOf, TextOf;
    forall i | 0 <= i < |x|
      ensures x[i] == y[i] <==> la[pos + 1 + i] == lb[pos + 1 + i]
    {
      SymbolAt(la, pos, x, i);
      SymbolAt(lb, pos, y, i);
      if CHARSET[x[i]] == CHARSET[y[i]] {
        SameSymbol(x[i], y[i]);
      }
    }
    TextRecovers(la, pos, x);
    TextRecovers(lb, pos, y);
  }

  lemma SymbolAt(l: string, pos: nat, x: Bytes, i: nat)
    requires pos < |l| && SymbolsOf(l[pos + 1..]) == Some(x) && i < |x|
    ensures |x| == |l| - pos - 1 && x[i] < 32 && l[pos + 1 + i] == CHARSET[x[i]]
  {
    hide SymbolsOf;
    assert l[pos + 1..][i] == l[pos + 1 + i];
  }

  lemma TextRecovers(l: string, pos: nat, x: Bytes)
    requires pos < |l| && SymbolsOf(l[pos + 1..]) == Some(x)
    ensures l == l[..pos + 1] + TextOf(x)
  {
    hide SymbolsOf;
    assert TextOf(x) == l[pos + 1..];
  }

  lemma SameSymbolClass(d: nat)
    requires d < 32
    ensures d == 0 <==> CHARSET[d] == CHARSET[0]
  {
    if CHARSET[d] == CHARSET[0] {
      SameSymbol(d, 0);
    }
  }
}
