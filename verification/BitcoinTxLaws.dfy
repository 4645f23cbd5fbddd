/** What a signed transaction tells its reader, and what a signing message commits to. */
module BitcoinTxLaws {
  import opened Bytes
  import opened Crypto
  import opened LittleEndian
  import opened Records
  import opened BitcoinTx

  // ----- a reader for the serialization of BIP144 -----

  datatype ReadInput = ReadInput(txid: Bytes, vout: nat, scriptSig: Bytes, sequence: nat)
  datatype ReadOutput = ReadOutput(value: nat, script: Bytes)
  datatype ReadTx = ReadTx(version: nat, inputs: seq<ReadInput>, outputs: seq<ReadOutput>, witnesses: seq<seq<Bytes>>, locktime: nat)

  function TakeNumber(s: Bytes, width: nat): Option<(nat, Bytes)> {
    match Take(s, width)
    case None => None
    case Some((field, rest)) => Some((Unle(field), rest))
  }

  function TakeCompactSize(s: Bytes): Option<(nat, Bytes)> {
    if s == [] then None
    else if s[0] < 0xfd then Some((s[0], s[1..]))
    else TakeNumber(s[1..], if s[0] == 0xfd then 2 else if s[0] == 0xfe then 4 else 8)
  }

  function TakeSized(s: Bytes): Option<(Bytes, Bytes)> {
    match TakeCompactSize(s)
    case None => None
    case Some((n, rest)) => Take(rest, n)
  }

  function TakeInput(s: Bytes): Option<(ReadInput, Bytes)> {
    match Take(s, 32)
    case None => None
    case Some((txid, s1)) =>
      match TakeNumber(s1, 4)
      case None => None
      case Some((vout, s2)) =>
        match TakeSized(s2)
        case None => None
        case Some((scriptSig, s3)) =>
          match TakeNumber(s3, 4)
          case None => None
          case Some((sequence, s4)) => Some((ReadInput(txid, vout, scriptSig, sequence), s4))
  }

  function TakeOutput(s: Bytes): Option<(ReadOutput, Bytes)> {
    match TakeNumber(s, 8)
    case None => None
    case Some((value, s1)) =>
      match TakeSized(s1)
      case None => None
      case Some((script, s2)) => Some((ReadOutput(value, script), s2))
  }

  function TakeStack(s: Bytes): Option<(seq<Bytes>, Bytes)> {
    match TakeCompactSize(s)
    case None => None
    case Some((n, rest)) => ReadMany(TakeSized, n, rest)
  }

  function TakeList<T>(read: Reader<T>, s: Bytes): Option<(seq<T>, Bytes)> {
    match TakeCompactSize(s)
    case None => None
    case Some((n, rest)) => ReadMany(read, n, rest)
  }

  /** One witness stack for each input, then the locktime, then nothing. */
  function TakeRest(version: nat, inputs: seq<ReadInput>, outputs: seq<ReadOutput>, s: Bytes): Option<ReadTx> {
    match ReadMany(TakeStack, |inputs|, s)
    case None => None
    case Some((witnesses, s1)) =>
      match TakeNumber(s1, 4)
      case None => None
      case Some((locktime, s2)) =>
        if s2 == [] then Some(ReadTx(version, inputs, outputs, witnesses, locktime)) else None
  }

  function ReadTransaction(s: Bytes): Option<ReadTx> {
    match TakeNumber(s, 4)
    case None => None
    case Some((version, s1)) =>
      if !([0x00, 0x01] <= s1) then None
      else
        match TakeList(TakeInput, s1[2..])
        case None => None
        case Some((inputs, s2)) =>
          match TakeList(TakeOutput, s2)
          case None => None
          case Some((outputs, s3)) => TakeRest(version, inputs, outputs, s3)
  }

  // ----- each reader inverts its writer -----

  lemma NumberInverts(n: nat, width: nat, rest: Bytes)
    requires (width == 4 && n < 0x1_0000_0000) || (width == 8 && n < 0x1_0000_0000_0000_0000) || (width == 2 && n < 0x1_0000)
    ensures TakeNumber(Le(n, width) + rest, width) == Some((n, rest))
  {
    hide Le, Unle;
    UnleLe(n, width);
    TakeConcat(Le(n, width), rest);
  }

  lemma CompactSizeInverts(n: u64, rest: Bytes)
    ensures TakeCompactSize(CompactSize(n) + rest) == Some((n, rest))
  {
    hide Le, TakeNumber;
    var s := CompactSize(n) + rest;
    if n < 0xfd {
      assert s[1..] == rest;
    } else {
      var width := if n <= 0xffff then 2 else if n <= 0xffff_ffff then 4 else 8;
      assert s[1..] == Le(n, width) + rest;
      NumberInverts(n, width, rest);
    }
  }

  lemma SizedInverts(b: Blob, rest: Bytes)
    ensures TakeSized(Sized(b) + rest) == Some((b, rest))
  {
    hide CompactSize, TakeCompactSize;
    Associate(CompactSize(|b|), b, rest);
    CompactSizeInverts(|b|, b + rest);
    TakeConcat(b, rest);
  }

  function ViewInput(input: TxInput): ReadInput {
    ReadInput(input.txid, input.vout, [], input.sequence)
  }

  function ViewOutput(output: TxOutput): ReadOutput {
    ReadOutput(output.value, output.scriptPubkey)
  }

  function ViewSegwit(stack: SegwitStack): seq<Bytes> {
    [stack.signature, stack.pubkey]
  }

  function ViewTaproot(signature: Schnorr): seq<Bytes> {
    [signature]
  }

  lemma EmptyScriptSig(rest: Bytes)
    ensures TakeSized([0x00] + rest) == Some(([], rest))
  {
    SizedInverts([], rest);
    assert Sized([]) == [0x00];
  }

  lemma InputInverts(input: TxInput)
    ensures Inverts(TakeInput, InputRecord, ViewInput, input)
  {
    hide Le, TakeNumber, TakeSized, Take;
    forall rest: Bytes
      ensures TakeInput(InputRecord(input) + rest) == Some((ViewInput(input), rest))
    {
      var s3 := Le(input.sequence, 4) + rest;
      var s2 := [0x00] + s3;
      var s1 := Le(input.vout, 4) + s2;
      assert InputRecord(input) + rest == input.txid + s1;
      TakeConcat(input.txid, s1);
      NumberInverts(input.vout, 4, s2);
      EmptyScriptSig(s3);
      NumberInverts(input.sequence, 4, rest);
    }
  }

  lemma OutputInverts(output: TxOutput)
    ensures Inverts(TakeOutput, OutputRecord, ViewOutput, output)
  {
    hide Le, TakeNumber, TakeSized, Sized;
    forall rest: Bytes
      ensures TakeOutput(OutputRecord(output) + rest) == Some((ViewOutput(output), rest))
    {
      var s1 := Sized(output.scriptPubkey) + rest;
      Associate(Le(output.value, 8), Sized(output.scriptPubkey), rest);
      NumberInverts(output.value, 8, s1);
      SizedInverts(output.scriptPubkey, rest);
    }
  }

  lemma ReadOne(a: Blob, rest: Bytes)
    ensures ReadMany(TakeSized, 1, Sized(a) + rest) == Some(([a], rest))
  {
    hide TakeSized, Sized;
    SizedInverts(a, rest);
    var x: Bytes := a;
    assert [x] + [] == [x];
  }

  lemma ReadTwo(a: Blob, b: Blob, rest: Bytes)
    ensures ReadMany(TakeSized, 2, Sized(a) + (Sized(b) + rest)) == Some(([a, b], rest))
  {
    hide TakeSized, Sized;
    SizedInverts(a, Sized(b) + rest);
    ReadOne(b, rest);
    var x: Bytes, y: Bytes := a, b;
    assert [x] + [y] == [x, y];
  }

  lemma SegwitInverts(stack: SegwitStack)
    ensures Inverts(TakeStack, SegwitWitness, ViewSegwit, stack)
  {
    hide ReadMany, Sized, TakeCompactSize;
    forall rest: Bytes
      ensures TakeStack(SegwitWitness(stack) + rest) == Some((ViewSegwit(stack), rest))
    {
      var body := Sized(stack.signature) + (Sized(stack.pubkey) + rest);
      assert SegwitWitness(stack) + rest == CompactSize(2) + body;
      CompactSizeInverts(2, body);
      ReadTwo(stack.signature, stack.pubkey, rest);
    }
  }

  lemma TaprootInverts(signature: Schnorr)
    ensures Inverts(TakeStack, TaprootWitness, ViewTaproot, signature)
  {
    hide ReadMany, Sized, TakeCompactSize;
    forall rest: Bytes
      ensures TakeStack(TaprootWitness(signature) + rest) == Some((ViewTaproot(signature), rest))
    {
      var body := Sized(signature) + rest;
      assert TaprootWitness(signature) + rest == CompactSize(1) + body;
      CompactSizeInverts(1, body);
      ReadOne(signature, rest);
    }
  }

  lemma ListInverts<T(!new), U>(read: Reader<U>, write: T -> Bytes, view: T -> U, xs: seq<T>, rest: Bytes)
    requires |xs| < 0x1_0000_0000_0000_0000
    requires forall x | x in xs :: Inverts(read, write, view, x)
    ensures TakeList(read, CompactSize(|xs|) + (Each(write, xs) + rest)) == Some((Map(view, xs), rest))
  {
    hide CompactSize, TakeCompactSize, ReadMany, Each, Inverts;
    CompactSizeInverts(|xs|, Each(write, xs) + rest);
    ReadManyInverts(read, write, view, xs, rest);
  }

  /** Reading a serialized transaction gives back every field, with nothing left over. */
  lemma ReadSerialized<T(!new)>(tx: UnsignedTx, write: T -> Bytes, view: T -> seq<Bytes>, witnesses: seq<T>)
    requires |witnesses| == |tx.inputs|
    requires forall w | w in witnesses :: Inverts(TakeStack, write, view, w)
    ensures ReadTransaction(Serialized(tx, Each(write, witnesses))) ==
            Some(ReadTx(tx.version, Map(ViewInput, tx.inputs), Map(ViewOutput, tx.outputs), Map(view, witnesses), tx.locktime))
  {
    hide CompactSize, TakeCompactSize, ReadMany, Each, Inverts, Le, TakeNumber, TakeList;
    var s4 := Le(tx.locktime, 4) + [];
    var s3 := Each(write, witnesses) + s4;
    var s2 := CompactSize(|tx.outputs|) + (Each(OutputRecord, tx.outputs) + s3);
    var s1 := CompactSize(|tx.inputs|) + (Each(InputRecord, tx.inputs) + s2);
    assert Serialized(tx, Each(write, witnesses)) == Le(tx.version, 4) + ([0x00, 0x01] + s1);
    NumberInverts(tx.version, 4, [0x00, 0x01] + s1);
    assert ([0x00, 0x01] + s1)[2..] == s1;
    forall x | x in tx.inputs
      ensures Inverts(TakeInput, InputRecord, ViewInput, x)
    {
      InputInverts(x);
    }
    ListInverts(TakeInput, InputRecord, ViewInput, tx.inputs, s2);
    forall x | x in tx.outputs
      ensures Inverts(TakeOutput, OutputRecord, ViewOutput, x)
    {
      OutputInverts(x);
    }
    ListInverts(TakeOutput, OutputRecord, ViewOutput, tx.outputs, s3);
    ReadManyInverts(TakeStack, write, view, witnesses, s4);
    NumberInverts(tx.locktime, 4, []);
  }

  /** A signed P2WPKH transaction reads back as the unsigned one with, on each input, the signature
      of that input's BIP143 message and the key. */
  lemma SignedSegwitReads(h: Hashes, sign: Bytes -> Option<Der>, pubkey: Pubkey, tx: UnsignedTx)
    requires h.Sized() && SignedSegwit(h, sign, pubkey, tx).Ok?
    ensures NoZeroOutput(tx.outputs)
    ensures var r := ReadTransaction(SignedSegwit(h, sign, pubkey, tx).value);
            && r.Some?
            && r.value.version == tx.version && r.value.locktime == tx.locktime
            && r.value.inputs == Map(ViewInput, tx.inputs) && r.value.outputs == Map(ViewOutput, tx.outputs)
            && |r.value.witnesses| == |tx.inputs|
            && forall i | 0 <= i < |tx.inputs| ::
                 var signature := sign(SegwitSighash(h, tx, i, pubkey));
                 signature.Some? && r.value.witnesses[i] == [signature.value + [0x01], pubkey]
  {
    hide Serialized, ReadTransaction, SegwitSighash, SegwitSignatures, Each, Inverts;
    var signatures := SegwitSignatures(h, sign, pubkey, tx, |tx.inputs|).value;
    var stacks := Stacks(signatures, pubkey);
    forall w | w in stacks
      ensures Inverts(TakeStack, SegwitWitness, ViewSegwit, w)
    {
      SegwitInverts(w);
    }
    ReadSerialized(tx, SegwitWitness, ViewSegwit, stacks);
    SignatureAt(h, sign, pubkey, tx, |tx.inputs|);
  }

  lemma {:induction false} SignatureAt(h: Hashes, sign: Bytes -> Option<Der>, pubkey: Pubkey, tx: UnsignedTx, n: nat)
    requires h.Sized() && n <= |tx.inputs| && SegwitSignatures(h, sign, pubkey, tx, n).Some?
    ensures forall i | 0 <= i < n ::
              var signature := sign(SegwitSighash(h, tx, i, pubkey));
              signature.Some? && SegwitSignatures(h, sign, pubkey, tx, n).value[i] == signature.value + [0x01]
  {
    hide SegwitSighash;
    if n > 0 {
      SignatureAt(h, sign, pubkey, tx, n - 1);
    }
  }

  /** A signed Taproot transaction reads back with exactly the signature of each input's BIP341 message. */
  lemma SignedTaprootReads(h: Hashes, sign: Bytes -> Option<Schnorr>, tx: UnsignedTx)
    requires SignedTaproot(h, sign, tx).Ok?
    ensures NoZeroOutput(tx.outputs)
    ensures var r := ReadTransaction(SignedTaproot(h, sign, tx).value);
            && r.Some?
            && r.value.version == tx.version && r.value.locktime == tx.locktime
            && r.value.inputs == Map(ViewInput, tx.inputs) && r.value.outputs == Map(ViewOutput, tx.outputs)
            && |r.value.witnesses| == |tx.inputs|
            && forall i | 0 <= i < |tx.inputs| ::
                 var sighash := TaprootSighash(h, tx, i);
                 && sighash.Ok? && sign(sighash.value).Some?
                 && r.value.witnesses[i] == [sign(sighash.value).value]
  {
    hide Serialized, ReadTransaction, TaprootSighash, TaprootSignatures, Each, Inverts;
    var signatures := TaprootSignatures(h, sign, tx, |tx.inputs|).value;
    forall w | w in signatures
      ensures Inverts(TakeStack, TaprootWitness, ViewTaproot, w)
    {
      TaprootInverts(w);
    }
    ReadSerialized(tx, TaprootWitness, ViewTaproot, signatures);
    TaprootSignatureAt(h, sign, tx, |tx.inputs|);
  }

  lemma {:induction false} TaprootSignatureAt(h: Hashes, sign: Bytes -> Option<Schnorr>, tx: UnsignedTx, n: nat)
    requires n <= |tx.inputs| && TaprootSignatures(h, sign, tx, n).Ok?
    ensures forall i | 0 <= i < n ::
              var sighash := TaprootSighash(h, tx, i);
              && sighash.Ok? && sign(sighash.value).Some?
              && TaprootSignatures(h, sign, tx, n).value[i] == sign(sighash.value).value
  {
    hide TaprootSighash;
    if n > 0 {
      TaprootSignatureAt(h, sign, tx, n - 1);
    }
  }

  /** The frame of BIP144, whatever the readers above make of it: version, marker and flag in front, then the two
      counted lists, the witnesses, and the locktime at the end. */
  lemma SerializedFrame(tx: UnsignedTx, witnesses: Bytes)
    ensures var m := Serialized(tx, witnesses);
            var n := |m|;
            && n >= 12
            && m[..4] == Le(tx.version, 4) && m[4] == 0x00 && m[5] == 0x01
            && m[6..n - 4] == CompactSize(|tx.inputs|) + Each(InputRecord, tx.inputs)
                              + CompactSize(|tx.outputs|) + Each(OutputRecord, tx.outputs) + witnesses
            && m[n - 4..] == Le(tx.locktime, 4)
  {
    hide Each, Le, CompactSize;
    var body := CompactSize(|tx.inputs|) + Each(InputRecord, tx.inputs)
                + CompactSize(|tx.outputs|) + Each(OutputRecord, tx.outputs) + witnesses;
    assert |CompactSize(|tx.inputs|)| > 0 && |CompactSize(|tx.outputs|)| > 0;
    assert Serialized(tx, witnesses) == Le(tx.version, 4) + [0x00, 0x01] + body + Le(tx.locktime, 4);
  }

  /** Input and output records field by field, and the witness stacks with their counts. */
  lemma RecordsAre(input: TxInput, output: TxOutput, stack: SegwitStack, signature: Schnorr)
    ensures InputRecord(input) == input.txid + Le(input.vout, 4) + [0x00] + Le(input.sequence, 4)
    ensures OutputRecord(output) == Le(output.value, 8) + CompactSize(|output.scriptPubkey|) + output.scriptPubkey
    ensures SegwitWitness(stack) == [2] + CompactSize(|stack.signature|) + stack.signature + [33] + stack.pubkey
    ensures TaprootWitness(signature) == [1, 64] + signature
  {
    hide Le;
    assert CompactSize(33) == [33] && CompactSize(64) == [64];
  }

  /** The four forms of a length: one byte below 0xfd, otherwise a marker and the number lowest byte first in the
      narrowest of two, four or eight bytes. */
  lemma CompactForms(n: u64, wide: Bytes)
    requires |wide| == if n <= 0xffff then 2 else if n <= 0xffff_ffff then 4 else 8
    requires AreLittleEndian(wide, n)
    ensures CompactSize(n) ==
            if n < 0xfd then [n]
            else if n <= 0xffff then [0xfd] + wide
            else if n <= 0xffff_ffff then [0xfe] + wide
            else [0xff] + wide
  {
    hide Le, AreLittleEndian;
    LittleEndianIs(wide, n);
  }
}
