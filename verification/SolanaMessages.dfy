/** Solana legacy messages: the three builders, the wire format they write, and what a validator reads. */
module SolanaMessages {
  import opened Bytes
  import opened LittleEndian
  import opened Records
  import ShortVec

  type Key = b: Bytes | |b| == 32 witness Zeros(32)

  const SYSTEM_PROGRAM_ID: Key := Zeros(32)

  const SPL_TOKEN_PROGRAM_ID: Key :=
    [0x06, 0xdd, 0xf6, 0xe1, 0xd7, 0x65, 0xa1, 0x93, 0xd9, 0xcb, 0xe1, 0x46, 0xce, 0xeb, 0x79, 0xac,
     0x1c, 0xb4, 0x85, 0xed, 0x5f, 0x5b, 0x37, 0x91, 0x3a, 0x8c, 0xf5, 0x85, 0x7e, 0xff, 0x00, 0xa9]

  const ATA_PROGRAM_ID: Key :=
    [0x8c, 0x97, 0x25, 0x8f, 0x4e, 0x24, 0x89, 0xf1, 0xbb, 0x3d, 0x10, 0x29, 0x14, 0x8e, 0x0d, 0x83,
     0x0b, 0x5a, 0x13, 0x99, 0xda, 0xff, 0x10, 0x84, 0x04, 0x8e, 0x7b, 0xd8, 0xdb, 0xe9, 0xf8, 0x59]

  datatype Instruction = Instruction(program: byte, accounts: Bytes, data: Bytes)

  datatype Message = Message(numRequired: byte, numReadonlySigned: byte, numReadonlyUnsigned: byte,
                             accounts: seq<Key>, blockhash: Key, instructions: seq<Instruction>)

  // ----- the wire format -----

  function KeyBytes(k: Key): Bytes { k }

  function Sized(b: Bytes): Bytes { ShortVec.Encoded(|b|) + b }

  function InstructionBytes(i: Instruction): Bytes {
    [i.program] + Sized(i.accounts) + Sized(i.data)
  }

  function Serialize(m: Message): Bytes {
    [m.numRequired, m.numReadonlySigned, m.numReadonlyUnsigned]
    + ShortVec.Encoded(|m.accounts|) + Each(KeyBytes, m.accounts) + m.blockhash
    + ShortVec.Encoded(|m.instructions|) + Each(InstructionBytes, m.instructions)
  }

  // ----- what the builders are asked for -----

  datatype Request =
    | SystemTransfer(from: Key, to: Key, lamports: u64, blockhash: Key)
    | SplTransfer(source: Key, dest: Key, owner: Key, amount: u64, blockhash: Key)
    | SplTransferCreating(source: Key, dest: Key, owner: Key, wallet: Key, mint: Key, amount: u64, blockhash: Key)

  function SystemTransferData(lamports: u64): Bytes { Le(2, 4) + Le(lamports, 8) }

  function SplTransferData(amount: u64): Bytes { [3] + Le(amount, 8) }

  function MessageOf(r: Request): Message {
    match r
    case SystemTransfer(from, to, lamports, blockhash) =>
      Message(1, 0, 1, [from, to, SYSTEM_PROGRAM_ID], blockhash,
              [Instruction(2, [0, 1], SystemTransferData(lamports))])
    case SplTransfer(source, dest, owner, amount, blockhash) =>
      Message(1, 0, 1, [owner, source, dest, SPL_TOKEN_PROGRAM_ID], blockhash,
              [Instruction(3, [1, 2, 0], SplTransferData(amount))])
    case SplTransferCreating(source, dest, owner, wallet, mint, amount, blockhash) =>
      Message(1, 0, 5, [owner, source, dest, wallet, mint, SYSTEM_PROGRAM_ID, SPL_TOKEN_PROGRAM_ID, ATA_PROGRAM_ID],
              blockhash,
              [Instruction(7, [0, 2, 3, 4, 5, 6], []), Instruction(6, [1, 2, 0], SplTransferData(amount))])
  }

  // ----- the builders -----

  method PushKeys(out: ByteBuffer, keys: seq<Key>)
    modifies out
    ensures out.data == old(out.data) + Each(KeyBytes, keys)
  {
    EachAll(KeyBytes, keys);
    for i := 0 to |keys|
      invariant out.data == old(out.data) + Each(KeyBytes, keys[..i])
    {
      EachNext(KeyBytes, keys, i);
      out.Extend(keys[i]);
    }
  }

  method PushShortLen(out: ByteBuffer, len: u64)
    modifies out
    ensures out.data == old(out.data) + ShortVec.Encoded(len)
  {
    var bytes := ShortVec.EncodeShortLen(len);
    out.Extend(bytes);
  }

  lemma OneInstruction(i: Instruction)
    ensures Each(InstructionBytes, [i]) == InstructionBytes(i)
  {
    assert [i][1..] == [];
    assert Each(InstructionBytes, [i]) == InstructionBytes(i) + Each(InstructionBytes, [i][1..]);
  }

  lemma TwoInstructions(i: Instruction, j: Instruction)
    ensures Each(InstructionBytes, [i, j]) == InstructionBytes(i) + InstructionBytes(j)
  {
    assert [i, j][1..] == [j];
    OneInstruction(j);
  }

  /** A message up to and without its instructions, as the builders have it after the blockhash. */
  function Front(m: Message): Bytes {
    [m.numRequired, m.numReadonlySigned, m.numReadonlyUnsigned]
    + ShortVec.Encoded(|m.accounts|) + Each(KeyBytes, m.accounts) + m.blockhash
  }

  lemma InstructionPieces(front: Bytes, i: Instruction)
    ensures front + [i.program] + ShortVec.Encoded(|i.accounts|) + i.accounts + ShortVec.Encoded(|i.data|) + i.data
         == front + InstructionBytes(i)
  {
  }

  /** Program index, account indices and data, each list behind its length. */
  method PushInstruction(out: ByteBuffer, program: byte, indices: Bytes, data: Bytes)
    requires |indices| < 0x1_0000_0000_0000_0000 && |data| < 0x1_0000_0000_0000_0000
    modifies out
    ensures out.data == old(out.data) + InstructionBytes(Instruction(program, indices, data))
  {
    hide ShortVec.Encoded;
    out.Push(program);
    PushShortLen(out, |indices|);
    out.Extend(indices);
    PushShortLen(out, |data|);
    out.Extend(data);
    InstructionPieces(old(out.data), Instruction(program, indices, data));
  }

  method BuildSystemTransferMessage(from: Key, to: Key, lamports: u64, blockhash: Key) returns (bytes: Bytes)
    ensures bytes == Serialize(MessageOf(SystemTransfer(from, to, lamports, blockhash)))
  {
    hide Each, ShortVec.Encoded, InstructionBytes, Le;
    ghost var m := MessageOf(SystemTransfer(from, to, lamports, blockhash));
    var out := new ByteBuffer();
    out.Push(1);
    out.Push(0);
    out.Push(1);
    var accountKeys: seq<Key> := [from, to, SYSTEM_PROGRAM_ID];
    PushShortLen(out, |accountKeys|);
    PushKeys(out, accountKeys);
    out.Extend(blockhash);
    PushShortLen(out, 1);
    ghost var front := out.data;
    assert front == Front(m) + ShortVec.Encoded(1);
    var accountIndices: Bytes := [0, 1];
    var data := Le(2, 4);
    data := data + Le(lamports, 8);
    PushInstruction(out, 2, accountIndices, data);
    OneInstruction(m.instructions[0]);
    return out.data;
  }

  method BuildSplTransferData(amount: u64) returns (data: Bytes)
    ensures data == SplTransferData(amount)
  {
    data := [3];
    data := data + Le(amount, 8);
  }

  method BuildSplTransferMessage(source: Key, dest: Key, owner: Key, amount: u64, blockhash: Key) returns (bytes: Bytes)
    ensures bytes == Serialize(MessageOf(SplTransfer(source, dest, owner, amount, blockhash)))
  {
    hide Each, ShortVec.Encoded, InstructionBytes, Le;
    ghost var m := MessageOf(SplTransfer(source, dest, owner, amount, blockhash));
    var out := new ByteBuffer();
    out.Push(1);
    out.Push(0);
    out.Push(1);
    var accountKeys: seq<Key> := [owner, source, dest, SPL_TOKEN_PROGRAM_ID];
    PushShortLen(out, |accountKeys|);
    PushKeys(out, accountKeys);
    out.Extend(blockhash);
    PushShortLen(out, 1);
    ghost var front := out.data;
    assert front == Front(m) + ShortVec.Encoded(1);
    var accountIndices: Bytes := [1, 2, 0];
    var data := BuildSplTransferData(amount);
    PushInstruction(out, 3, accountIndices, data);
    OneInstruction(m.instructions[0]);
    return out.data;
  }

  method BuildSplTransferWithCreateAtaMessage(source: Key, dest: Key, owner: Key, wallet: Key, mint: Key,
                                              amount: u64, blockhash: Key) returns (bytes: Bytes)
    ensures bytes == Serialize(MessageOf(SplTransferCreating(source, dest, owner, wallet, mint, amount, blockhash)))
  {
    hide Each, ShortVec.Encoded, InstructionBytes, Le;
    ghost var m := MessageOf(SplTransferCreating(source, dest, owner, wallet, mint, amount, blockhash));
    var out := new ByteBuffer();
    out.Push(1);
    out.Push(0);
    out.Push(5);
    var accountKeys: seq<Key> :=
      [owner, source, dest, wallet, mint, SYSTEM_PROGRAM_ID, SPL_TOKEN_PROGRAM_ID, ATA_PROGRAM_ID];
    PushShortLen(out, |accountKeys|);
    PushKeys(out, accountKeys);
    out.Extend(blockhash);
    PushShortLen(out, 2);
    ghost var front := out.data;
    assert front == Front(m) + ShortVec.Encoded(2);
    var createIndices: Bytes := [0, 2, 3, 4, 5, 6];
    PushInstruction(out, 7, createIndices, []);
    var transferIndices: Bytes := [1, 2, 0];
    var data := BuildSplTransferData(amount);
    PushInstruction(out, 6, transferIndices, data);
    TwoInstructions(m.instructions[0], m.instructions[1]);
    return out.data;
  }

  // ----- signing -----

  /** A deterministic signer of messages (Ed25519); signatures have 64 bytes. */
  type Signer = Bytes -> Bytes

  ghost predicate IsSigner(sign: Signer) {
    forall m :: |sign(m)| == 64
  }

  /** One signature and the message. */
  function Signed(sign: Signer, message: Bytes): Bytes {
    ShortVec.Encoded(1) + sign(message) + message
  }

  datatype KeyError = NotBase58 | NotThirtyTwoBytes

  /** A public key or a blockhash in Base58, through the library's decoder. */
  function DecodedKey(decode58: string -> Option<Bytes>, text: string): Result<Key, KeyError> {
    match decode58(text)
    case None => Err(NotBase58)
    case Some(bytes) => if |bytes| == 32 then Ok(bytes) else Err(NotThirtyTwoBytes)
  }

  method SignSystemTransferWithKey(sign: Signer, key: Key, decode58: string -> Option<Bytes>,
                                   to: string, lamports: u64, blockhash: string)
    returns (r: Result<Bytes, KeyError>)
    ensures var t, b := decode58(to), decode58(blockhash);
            if t == None then r == Err(NotBase58)
            else if |t.value| != 32 then r == Err(NotThirtyTwoBytes)
            else if b == None then r == Err(NotBase58)
            else if |b.value| != 32 then r == Err(NotThirtyTwoBytes)
            else
              var message := Serialize(MessageOf(SystemTransfer(key, t.value, lamports, b.value)));
              r == Ok([0x01] + sign(message) + message)
  {
    hide Serialize, MessageOf;
    var toKey := DecodedKey(decode58, to);
    if toKey.Err? {
      return Err(toKey.error);
    }
    var recent := DecodedKey(decode58, blockhash);
    if recent.Err? {
      return Err(recent.error);
    }
    var message := BuildSystemTransferMessage(key, toKey.value, lamports, recent.value);
    var sig := sign(message);
    var tx := ShortVec.EncodeShortLen(1);
    tx := tx + sig;
    tx := tx + message;
    return Ok(tx);
  }
}
