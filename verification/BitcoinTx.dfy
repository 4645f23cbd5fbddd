/** Bitcoin transactions: the signing messages of BIP143 and BIP341 and the serialization of BIP144. */
module BitcoinTx {
  import opened Bytes
  import opened Crypto
  import opened LittleEndian
  import opened Records

  /** Lengths of vectors are machine words. */
  type Blob = b: Bytes | |b| < 0x1_0000_0000_0000_0000 witness []
  type Txid = b: Bytes | |b| == 32 witness Zeros(32)
  type Pubkey = b: Bytes | |b| == 33 witness Zeros(33)
  type Schnorr = b: Bytes | |b| == 64 witness Zeros(64)
  /** A DER-encoded ECDSA signature over a 256-bit curve. */
  type Der = b: Bytes | |b| <= 72 witness []

  datatype TxInput = TxInput(txid: Txid, vout: u32, value: u64, sequence: u32, scriptPubkey: Blob)
  datatype TxOutput = TxOutput(value: u64, scriptPubkey: Blob)

  type Inputs = s: seq<TxInput> | |s| < 0x1_0000_0000_0000_0000 witness []
  type Outputs = s: seq<TxOutput> | |s| < 0x1_0000_0000_0000_0000 witness []

  datatype UnsignedTx = UnsignedTx(version: u32, inputs: Inputs, outputs: Outputs, locktime: u32)

  datatype TxError = ZeroValueOutput | IndexOutOfRange | MissingScript | SigningFailed | CountMismatch

  // ----- fields and records -----

  function CompactSize(n: u64): (bs: Bytes)
    ensures bs != []
  {
    if n < 0xfd then [n]
    else if n <= 0xffff then [0xfd] + Le(n, 2)
    else if n <= 0xffff_ffff then [0xfe] + Le(n, 4)
    else [0xff] + Le(n, 8)
  }

  /** The length prefix that `compute_segwit_sighash` writes by hand, with its cast to u32. */
  function InlineLength(n: u64): Bytes {
    if n < 0xfd then [n]
    else if n <= 0xffff then [0xfd] + Le(n, 2)
    else [0xfe] + Le(n % 0x1_0000_0000, 4)
  }

  function Sized(b: Blob): Bytes {
    CompactSize(|b|) + b
  }

  function Outpoint(input: TxInput): (bs: Bytes) {
    input.txid + Le(input.vout, 4)
  }

  function Sequence(input: TxInput): Bytes {
    Le(input.sequence, 4)
  }

  function Amount(input: TxInput): Bytes {
    Le(input.value, 8)
  }

  function Script(input: TxInput): Bytes {
    Sized(input.scriptPubkey)
  }

  function InputRecord(input: TxInput): Bytes {
    Outpoint(input) + [0x00] + Sequence(input)
  }

  function OutputRecord(output: TxOutput): Bytes {
    Le(output.value, 8) + Sized(output.scriptPubkey)
  }

  function InlineOutput(output: TxOutput): Bytes {
    Le(output.value, 8) + InlineLength(|output.scriptPubkey|) + output.scriptPubkey
  }

  datatype SegwitStack = SegwitStack(signature: Blob, pubkey: Pubkey)

  function SegwitWitness(stack: SegwitStack): Bytes {
    [0x02] + Sized(stack.signature) + Sized(stack.pubkey)
  }

  /** The wallet spends every input with one key. */
  function Stacks(signatures: seq<Blob>, pubkey: Pubkey): (stacks: seq<SegwitStack>)
    ensures |stacks| == |signatures|
    ensures forall i | 0 <= i < |signatures| :: stacks[i] == SegwitStack(signatures[i], pubkey)
  {
    seq(|signatures|, i requires 0 <= i < |signatures| => SegwitStack(signatures[i], pubkey))
  }

  function TaprootWitness(signature: Schnorr): Bytes {
    [0x01] + Sized(signature)
  }

  function P2pkhScript(hash: Bytes): Bytes {
    [0x76, 0xa9, 0x14] + hash + [0x88, 0xac]
  }

  // ----- messages -----

  function SegwitPreimage(h: Hashes, tx: UnsignedTx, index: nat, pubkey: Pubkey): Bytes
    requires h.Sized() && index < |tx.inputs|
  {
    var input := tx.inputs[index];
    Le(tx.version, 4)
    + DoubleSha256(h, Each(Outpoint, tx.inputs))
    + DoubleSha256(h, Each(Sequence, tx.inputs))
    + Outpoint(input)
    + ([25] + P2pkhScript(Hash160(h, pubkey)))
    + Le(input.value, 8)
    + Le(input.sequence, 4)
    + DoubleSha256(h, Each(InlineOutput, tx.outputs))
    + Le(tx.locktime, 4)
    + Le(1, 4)
  }

  function SegwitSighash(h: Hashes, tx: UnsignedTx, index: nat, pubkey: Pubkey): Bytes
    requires h.Sized() && index < |tx.inputs|
  {
    DoubleSha256(h, SegwitPreimage(h, tx, index, pubkey))
  }

  function TaprootPreimage(h: Hashes, tx: UnsignedTx, index: nat): Bytes {
    [0x00] + [0x00]
    + Le(tx.version, 4)
    + Le(tx.locktime, 4)
    + h.sha256(Each(Outpoint, tx.inputs))
    + h.sha256(Each(Amount, tx.inputs))
    + h.sha256(Each(Script, tx.inputs))
    + h.sha256(Each(Sequence, tx.inputs))
    + h.sha256(Each(OutputRecord, tx.outputs))
    + [0x00]
    + Le(index % 0x1_0000_0000, 4)
  }

  const TAG_SIGHASH: Bytes := [0x54, 0x61, 0x70, 0x53, 0x69, 0x67, 0x68, 0x61, 0x73, 0x68]

  function Tagged(h: Hashes, tag: Bytes, data: Bytes): Bytes {
    h.sha256(tag) + h.sha256(tag) + data
  }

  function TaggedHash(h: Hashes, tag: Bytes, data: Bytes): Bytes {
    h.sha256(Tagged(h, tag, data))
  }

  predicate ScriptsPresent(inputs: seq<TxInput>) {
    forall i | 0 <= i < |inputs| :: inputs[i].scriptPubkey != []
  }

  function TaprootSighash(h: Hashes, tx: UnsignedTx, index: nat): Result<Bytes, TxError> {
    if index >= |tx.inputs| then Err(IndexOutOfRange)
    else if !ScriptsPresent(tx.inputs) then Err(MissingScript)
    else Ok(TaggedHash(h, TAG_SIGHASH, TaprootPreimage(h, tx, index)))
  }

  function Serialized(tx: UnsignedTx, witnesses: Bytes): Bytes {
    Le(tx.version, 4)
    + [0x00, 0x01]
    + CompactSize(|tx.inputs|) + Each(InputRecord, tx.inputs)
    + CompactSize(|tx.outputs|) + Each(OutputRecord, tx.outputs)
    + witnesses
    + Le(tx.locktime, 4)
  }

  // ----- the code -----

  method WriteVarint(buf: ByteBuffer, value: u64)
    modifies buf
    ensures buf.data == old(buf.data) + CompactSize(value)
  {
    if value < 0xfd {
      buf.Push(value);
    } else if value <= 0xffff {
      buf.Push(0xfd);
      buf.Extend(Le(value, 2));
    } else if value <= 0xffff_ffff {
      buf.Push(0xfe);
      buf.Extend(Le(value, 4));
    } else {
      buf.Push(0xff);
      buf.Extend(Le(value, 8));
    }
  }

  method WriteOutpoints(inputs: Inputs) returns (prevouts: Bytes)
    ensures prevouts == Each(Outpoint, inputs)
  {
    hide Each;
    EachAll(Outpoint, inputs);
    prevouts := [];
    for i := 0 to |inputs|
      invariant prevouts == Each(Outpoint, inputs[..i])
    {
      EachNext(Outpoint, inputs, i);
      prevouts := prevouts + inputs[i].txid;
      prevouts := prevouts + Le(inputs[i].vout, 4);
    }
  }

  method WriteSequences(inputs: Inputs) returns (sequences: Bytes)
    ensures sequences == Each(Sequence, inputs)
  {
    hide Each;
    EachAll(Sequence, inputs);
    sequences := [];
    for i := 0 to |inputs|
      invariant sequences == Each(Sequence, inputs[..i])
    {
      EachNext(Sequence, inputs, i);
      sequences := sequences + Le(inputs[i].sequence, 4);
    }
  }

  method WriteAmounts(inputs: Inputs) returns (amounts: Bytes)
    ensures amounts == Each(Amount, inputs)
  {
    hide Each;
    EachAll(Amount, inputs);
    amounts := [];
    for i := 0 to |inputs|
      invariant amounts == Each(Amount, inputs[..i])
    {
      EachNext(Amount, inputs, i);
      amounts := amounts + Le(inputs[i].value, 8);
    }
  }

  method WriteScripts(inputs: Inputs) returns (scripts: Bytes)
    ensures scripts == Each(Script, inputs)
  {
    hide Each;
    EachAll(Script, inputs);
    var buf := new ByteBuffer();
    for i := 0 to |inputs|
      invariant buf.data == Each(Script, inputs[..i])
    {
      EachNext(Script, inputs, i);
      WriteVarint(buf, |inputs[i].scriptPubkey|);
      buf.Extend(inputs[i].scriptPubkey);
    }
    scripts := buf.data;
  }

  /** The hand-written length prefix of the BIP143 outputs. */
  method WriteInlineOutputs(outputs: Outputs) returns (bytes: Bytes)
    ensures bytes == Each(InlineOutput, outputs)
  {
    hide Each;
    EachAll(InlineOutput, outputs);
    bytes := [];
    for i := 0 to |outputs|
      invariant bytes == Each(InlineOutput, outputs[..i])
    {
      EachNext(InlineOutput, outputs, i);
      var out := outputs[i];
      ghost var before := bytes;
      bytes := bytes + Le(out.value, 8);
      var scriptLen := |out.scriptPubkey|;
      if scriptLen < 0xfd {
        bytes := bytes + [scriptLen];
      } else if scriptLen <= 0xffff {
        bytes := bytes + [0xfd];
        bytes := bytes + Le(scriptLen, 2);
      } else {
        bytes := bytes + [0xfe];
        bytes := bytes + Le(scriptLen % 0x1_0000_0000, 4);
      }
      assert bytes == before + (Le(out.value, 8) + InlineLength(scriptLen));
      bytes := bytes + out.scriptPubkey;
      assert bytes == before + InlineOutput(out);
    }
  }

  method WriteOutputs(buf: ByteBuffer, outputs: Outputs)
    modifies buf
    ensures buf.data == old(buf.data) + Each(OutputRecord, outputs)
  {
    hide Each;
    EachAll(OutputRecord, outputs);
    for i := 0 to |outputs|
      invariant buf.data == old(buf.data) + Each(OutputRecord, outputs[..i])
    {
      EachNext(OutputRecord, outputs, i);
      buf.Extend(Le(outputs[i].value, 8));
      WriteVarint(buf, |outputs[i].scriptPubkey|);
      buf.Extend(outputs[i].scriptPubkey);
    }
  }

  method ComputeSegwitSighash(h: Hashes, tx: UnsignedTx, inputIndex: nat, pubkey: Pubkey) returns (r: Bytes)
    requires h.Sized() && inputIndex < |tx.inputs|
    ensures r == SegwitSighash(h, tx, inputIndex, pubkey)
  {
    hide Each, Le;
    var input := tx.inputs[inputIndex];
    var preimage := Le(tx.version, 4);
    var prevouts := WriteOutpoints(tx.inputs);
    preimage := preimage + DoubleSha256(h, prevouts);
    var sequences := WriteSequences(tx.inputs);
    preimage := preimage + DoubleSha256(h, sequences);
    preimage := preimage + (input.txid + Le(input.vout, 4));
    var scriptCode := P2pkhScript(Hash160(h, pubkey));
    preimage := preimage + ([|scriptCode|] + scriptCode);
    preimage := preimage + Le(input.value, 8);
    preimage := preimage + Le(input.sequence, 4);
    var outputs := WriteInlineOutputs(tx.outputs);
    preimage := preimage + DoubleSha256(h, outputs);
    preimage := preimage + Le(tx.locktime, 4);
    preimage := preimage + Le(1, 4);
    r := DoubleSha256(h, preimage);
  }

  method ComputeTaprootSighash(h: Hashes, tx: UnsignedTx, inputIndex: nat) returns (r: Result<Bytes, TxError>)
    ensures r == TaprootSighash(h, tx, inputIndex)
  {
    hide Each, Le;
    if inputIndex >= |tx.inputs| {
      return Err(IndexOutOfRange);
    }
    for i := 0 to |tx.inputs|
      invariant ScriptsPresent(tx.inputs[..i])
    {
      if tx.inputs[i].scriptPubkey == [] {
        return Err(MissingScript);
      }
    }
    assert tx.inputs[..|tx.inputs|] == tx.inputs;
    var preimage: Bytes := [0x00];
    preimage := preimage + [0x00];
    preimage := preimage + Le(tx.version, 4);
    preimage := preimage + Le(tx.locktime, 4);
    var prevouts := WriteOutpoints(tx.inputs);
    preimage := preimage + h.sha256(prevouts);
    var amounts := WriteAmounts(tx.inputs);
    preimage := preimage + h.sha256(amounts);
    var scripts := WriteScripts(tx.inputs);
    preimage := preimage + h.sha256(scripts);
    var sequences := WriteSequences(tx.inputs);
    preimage := preimage + h.sha256(sequences);
    var outputs := new ByteBuffer();
    WriteOutputs(outputs, tx.outputs);
    assert outputs.data == Each(OutputRecord, tx.outputs);
    preimage := preimage + h.sha256(outputs.data);
    preimage := preimage + [0x00];
    preimage := preimage + Le(inputIndex % 0x1_0000_0000, 4);
    r := Ok(TaggedHash(h, TAG_SIGHASH, preimage));
  }

  /** Everything of a serialized transaction up to its witnesses, on one buffer. */
  method WriteBody(buf: ByteBuffer, tx: UnsignedTx)
    modifies buf
    requires buf.data == []
    ensures buf.data == Le(tx.version, 4) + [0x00, 0x01]
                        + CompactSize(|tx.inputs|) + Each(InputRecord, tx.inputs)
                        + CompactSize(|tx.outputs|) + Each(OutputRecord, tx.outputs)
  {
    hide Each, Le, CompactSize;
    buf.Extend(Le(tx.version, 4));
    buf.Push(0x00);
    buf.Push(0x01);
    WriteVarint(buf, |tx.inputs|);
    ghost var start := buf.data;
    assert start == Le(tx.version, 4) + [0x00, 0x01] + CompactSize(|tx.inputs|);
    EachAll(InputRecord, tx.inputs);
    for i := 0 to |tx.inputs|
      invariant buf.data == start + Each(InputRecord, tx.inputs[..i])
    {
      EachNext(InputRecord, tx.inputs, i);
      var input := tx.inputs[i];
      ghost var before := buf.data;
      buf.Extend(input.txid);
      buf.Extend(Le(input.vout, 4));
      buf.Push(0x00);
      buf.Extend(Le(input.sequence, 4));
      assert buf.data == before + InputRecord(input);
    }
    WriteVarint(buf, |tx.outputs|);
    WriteOutputs(buf, tx.outputs);
  }

  method SerializeSignedSegwitTx(tx: UnsignedTx, signatures: seq<Blob>, pubkey: Pubkey) returns (r: Bytes)
    ensures r == Serialized(tx, Each(SegwitWitness, Stacks(signatures, pubkey)))
  {
    hide Each, Le, CompactSize;
    var serialized := new ByteBuffer();
    WriteBody(serialized, tx);
    ghost var start := serialized.data;
    ghost var stacks := Stacks(signatures, pubkey);
    EachAll(SegwitWitness, stacks);
    for i := 0 to |signatures|
      invariant serialized.data == start + Each(SegwitWitness, stacks[..i])
    {
      EachNext(SegwitWitness, stacks, i);
      ghost var before := serialized.data;
      serialized.Push(0x02);
      WriteVarint(serialized, |signatures[i]|);
      serialized.Extend(signatures[i]);
      WriteVarint(serialized, 33);
      serialized.Extend(pubkey);
      assert serialized.data == before + SegwitWitness(stacks[i]);
    }
    serialized.Extend(Le(tx.locktime, 4));
    r := serialized.data;
  }

  method SerializeSignedTaprootTx(tx: UnsignedTx, signatures: seq<Schnorr>) returns (r: Result<Bytes, TxError>)
    ensures r == if |signatures| != |tx.inputs| then Err(CountMismatch)
                 else Ok(Serialized(tx, Each(TaprootWitness, signatures)))
  {
    hide Each, Le, CompactSize;
    if |signatures| != |tx.inputs| {
      return Err(CountMismatch);
    }
    var serialized := new ByteBuffer();
    WriteBody(serialized, tx);
    ghost var start := serialized.data;
    EachAll(TaprootWitness, signatures);
    for i := 0 to |signatures|
      invariant serialized.data == start + Each(TaprootWitness, signatures[..i])
    {
      EachNext(TaprootWitness, signatures, i);
      ghost var before := serialized.data;
      serialized.Push(0x01);
      WriteVarint(serialized, 64);
      serialized.Extend(signatures[i]);
      assert serialized.data == before + TaprootWitness(signatures[i]);
    }
    serialized.Extend(Le(tx.locktime, 4));
    return Ok(serialized.data);
  }

  // ----- signing -----

  predicate NoZeroOutput(outputs: seq<TxOutput>) {
    forall i | 0 <= i < |outputs| :: outputs[i].value != 0
  }

  /** The signature of each input, when every one succeeds, each with its SIGHASH_ALL byte. */
  function SegwitSignatures(h: Hashes, sign: Bytes -> Option<Der>, pubkey: Pubkey, tx: UnsignedTx, n: nat): (r: Option<seq<Blob>>)
    requires h.Sized() && n <= |tx.inputs|
    ensures r.Some? ==> |r.value| == n
  {
    if n == 0 then Some([])
    else
      match (SegwitSignatures(h, sign, pubkey, tx, n - 1), sign(SegwitSighash(h, tx, n - 1, pubkey)))
      case (Some(front), Some(signature)) => Some(front + [signature + [0x01]])
      case (_, _) => None
  }

  function SignedSegwit(h: Hashes, sign: Bytes -> Option<Der>, pubkey: Pubkey, tx: UnsignedTx): Result<Bytes, TxError>
    requires h.Sized()
  {
    if !NoZeroOutput(tx.outputs) then Err(ZeroValueOutput)
    else
      match SegwitSignatures(h, sign, pubkey, tx, |tx.inputs|)
      case None => Err(SigningFailed)
      case Some(signatures) => Ok(Serialized(tx, Each(SegwitWitness, Stacks(signatures, pubkey))))
  }

  method SignSegwitTxWithKey(h: Hashes, sign: Bytes -> Option<Der>, pubkey: Pubkey, tx: UnsignedTx)
    returns (r: Result<Bytes, TxError>)
    requires h.Sized()
    ensures r == SignedSegwit(h, sign, pubkey, tx)
  {
    hide Each, SegwitSighash, SegwitSignatures, Serialized;
    for i := 0 to |tx.outputs|
      invariant NoZeroOutput(tx.outputs[..i])
    {
      if tx.outputs[i].value == 0 {
        return Err(ZeroValueOutput);
      }
    }
    assert tx.outputs[..|tx.outputs|] == tx.outputs;
    var signatures: seq<Blob> := [];
    NoSignatures(h, sign, pubkey, tx);
    for i := 0 to |tx.inputs|
      invariant SegwitSignatures(h, sign, pubkey, tx, i) == Some(signatures)
    {
      var sighash := ComputeSegwitSighash(h, tx, i, pubkey);
      NextSignature(h, sign, pubkey, tx, i);
      var signature := sign(sighash);
      if signature.None? {
        NoMoreSignatures(h, sign, pubkey, tx, i);
        return Err(SigningFailed);
      }
      signatures := signatures + [signature.value + [0x01]];
    }
    var bytes := SerializeSignedSegwitTx(tx, signatures, pubkey);
    return Ok(bytes);
  }

  lemma NoSignatures(h: Hashes, sign: Bytes -> Option<Der>, pubkey: Pubkey, tx: UnsignedTx)
    requires h.Sized()
    ensures SegwitSignatures(h, sign, pubkey, tx, 0) == Some([])
  {
  }

  lemma NextSignature(h: Hashes, sign: Bytes -> Option<Der>, pubkey: Pubkey, tx: UnsignedTx, i: nat)
    requires h.Sized() && i < |tx.inputs|
    ensures var front, signature := SegwitSignatures(h, sign, pubkey, tx, i), sign(SegwitSighash(h, tx, i, pubkey));
            SegwitSignatures(h, sign, pubkey, tx, i + 1) ==
            if front.Some? && signature.Some? then Some(front.value + [signature.value + [0x01]]) else None
  {
    hide SegwitSighash;
  }

  lemma {:induction false} NoMoreSignatures(h: Hashes, sign: Bytes -> Option<Der>, pubkey: Pubkey, tx: UnsignedTx, i: nat)
    requires h.Sized() && i < |tx.inputs|
    requires SegwitSignatures(h, sign, pubkey, tx, i + 1) == None
    ensures SegwitSignatures(h, sign, pubkey, tx, |tx.inputs|) == None
    decreases |tx.inputs| - i
  {
    hide SegwitSighash, SegwitSignatures;
    if i + 1 < |tx.inputs| {
      NextSignature(h, sign, pubkey, tx, i + 1);
      NoMoreSignatures(h, sign, pubkey, tx, i + 1);
    }
  }

  /** The Schnorr signature of each input, or the first error met. */
  function TaprootSignatures(h: Hashes, sign: Bytes -> Option<Schnorr>, tx: UnsignedTx, n: nat): (r: Result<seq<Schnorr>, TxError>)
    requires n <= |tx.inputs|
    ensures r.Ok? ==> |r.value| == n
  {
    if n == 0 then Ok([])
    else
      match TaprootSignatures(h, sign, tx, n - 1)
      case Err(e) => Err(e)
      case Ok(front) =>
        match TaprootSighash(h, tx, n - 1)
        case Err(e) => Err(e)
        case Ok(sighash) =>
          match sign(sighash)
          case None => Err(SigningFailed)
          case Some(signature) => Ok(front + [signature])
  }

  function SignedTaproot(h: Hashes, sign: Bytes -> Option<Schnorr>, tx: UnsignedTx): Result<Bytes, TxError> {
    if !NoZeroOutput(tx.outputs) then Err(ZeroValueOutput)
    else
      match TaprootSignatures(h, sign, tx, |tx.inputs|)
      case Err(e) => Err(e)
      case Ok(signatures) => Ok(Serialized(tx, Each(TaprootWitness, signatures)))
  }

  /** Key-path signing with the key already chosen between tweaked and raw. */
  method SignTaprootTxWithKey(h: Hashes, sign: Bytes -> Option<Schnorr>, tx: UnsignedTx) returns (r: Result<Bytes, TxError>)
    ensures r == SignedTaproot(h, sign, tx)
  {
    hide Each, TaprootSighash, TaprootSignatures, Serialized;
    for i := 0 to |tx.outputs|
      invariant NoZeroOutput(tx.outputs[..i])
    {
      if tx.outputs[i].value == 0 {
        return Err(ZeroValueOutput);
      }
    }
    assert tx.outputs[..|tx.outputs|] == tx.outputs;
    var signatures: seq<Schnorr> := [];
    NoTaprootSignatures(h, sign, tx);
    for i := 0 to |tx.inputs|
      invariant TaprootSignatures(h, sign, tx, i) == Ok(signatures)
    {
      var sighash := ComputeTaprootSighash(h, tx, i);
      NextTaprootSignature(h, sign, tx, i);
      if sighash.Err? {
        TaprootErrorStays(h, sign, tx, i);
        return Err(sighash.error);
      }
      var signature := sign(sighash.value);
      if signature.None? {
        TaprootErrorStays(h, sign, tx, i);
        return Err(SigningFailed);
      }
      signatures := signatures + [signature.value];
    }
    r := SerializeSignedTaprootTx(tx, signatures);
  }

  lemma NoTaprootSignatures(h: Hashes, sign: Bytes -> Option<Schnorr>, tx: UnsignedTx)
    ensures TaprootSignatures(h, sign, tx, 0) == Ok([])
  {
  }

  lemma NextTaprootSignature(h: Hashes, sign: Bytes -> Option<Schnorr>, tx: UnsignedTx, i: nat)
    requires i < |tx.inputs|
    ensures var front, sighash := TaprootSignatures(h, sign, tx, i), TaprootSighash(h, tx, i);
            TaprootSignatures(h, sign, tx, i + 1) ==
            if front.Err? then front
            else if sighash.Err? then Err(sighash.error)
            else if sign(sighash.value).None? then Err(SigningFailed)
            else Ok(front.value + [sign(sighash.value).value])
  {
    hide TaprootSighash;
  }

  lemma {:induction false} TaprootErrorStays(h: Hashes, sign: Bytes -> Option<Schnorr>, tx: UnsignedTx, i: nat)
    requires i < |tx.inputs| && TaprootSignatures(h, sign, tx, i + 1).Err?
    ensures TaprootSignatures(h, sign, tx, |tx.inputs|) == TaprootSignatures(h, sign, tx, i + 1)
    decreases |tx.inputs| - i
  {
    hide TaprootSighash, TaprootSignatures;
    if i + 1 < |tx.inputs| {
      NextTaprootSignature(h, sign, tx, i + 1);
      TaprootErrorStays(h, sign, tx, i + 1);
    }
  }
}
