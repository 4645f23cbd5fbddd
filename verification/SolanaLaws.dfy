/** Reading Solana messages back: the builders' messages mean what was asked for, and only that. */
module SolanaLaws {
  import opened Bytes
  import opened LittleEndian
  import opened Records
  import opened SolanaMessages

  // ----- a reader for legacy messages -----

  function TakeLength(s: Bytes): Option<(nat, Bytes)> {
    match ShortVec.Decoded(s)
    case Ok((n, k)) => if k <= |s| then Some((n, s[k..])) else None
    case Err(_) => None
  }

  function TakeSized(s: Bytes): Option<(Bytes, Bytes)> {
    match TakeLength(s)
    case None => None
    case Some((n, rest)) => Take(rest, n)
  }

  function TakeKey(s: Bytes): Option<(Key, Bytes)> {
    match Take(s, 32)
    case None => None
    case Some((k, rest)) => Some((k, rest))
  }

  function TakeInstruction(s: Bytes): Option<(Instruction, Bytes)> {
    if s == [] then None
    else
      match TakeSized(s[1..])
      case None => None
      case Some((accounts, s1)) =>
        match TakeSized(s1)
        case None => None
        case Some((data, s2)) => Some((Instruction(s[0], accounts, data), s2))
  }

  function TakeList<T>(read: Reader<T>, s: Bytes): Option<(seq<T>, Bytes)> {
    match TakeLength(s)
    case None => None
    case Some((n, rest)) => ReadMany(read, n, rest)
  }

  /** A whole message, with nothing left over. */
  function ReadMessage(s: Bytes): Option<Message> {
    if |s| < 3 then None
    else
      match TakeList(TakeKey, s[3..])
      case None => None
      case Some((accounts, s1)) =>
        match TakeKey(s1)
        case None => None
        case Some((blockhash, s2)) =>
          match TakeList(TakeInstruction, s2)
          case None => None
          case Some((instructions, s3)) =>
            if s3 == [] then Some(Message(s[0], s[1], s[2], accounts, blockhash, instructions)) else None
  }

  // ----- reading inverts writing -----

  /** Every list is short enough for its length to be read. */
  predicate Readable(m: Message) {
    && |m.accounts| < 0x1000_0000 && |m.instructions| < 0x1000_0000
    && forall i | i in m.instructions :: ReadableInstruction(i)
  }

  predicate ReadableInstruction(i: Instruction) {
    |i.accounts| < 0x1000_0000 && |i.data| < 0x1000_0000
  }

  lemma LengthInverts(n: nat, rest: Bytes)
    requires n < 0x1000_0000
    ensures TakeLength(ShortVec.Encoded(n) + rest) == Some((n, rest))
  {
    hide ShortVec.Encoded, ShortVec.Decoded;
    ShortVec.DecodeEncode(n, rest);
    assert (ShortVec.Encoded(n) + rest)[|ShortVec.Encoded(n)|..] == rest;
  }

  lemma SizedInverts(b: Bytes, rest: Bytes)
    requires |b| < 0x1000_0000
    ensures TakeSized(Sized(b) + rest) == Some((b, rest))
  {
    hide ShortVec.Encoded, TakeLength;
    LengthInverts(|b|, b + rest);
    assert Sized(b) + rest == ShortVec.Encoded(|b|) + (b + rest);
    TakeConcat(b, rest);
  }

  lemma KeyInverts(k: Key, rest: Bytes)
    ensures TakeKey(KeyBytes(k) + rest) == Some((k, rest))
  {
    TakeConcat(k, rest);
  }

  lemma InstructionInverts(i: Instruction, rest: Bytes)
    requires ReadableInstruction(i)
    ensures TakeInstruction(InstructionBytes(i) + rest) == Some((i, rest))
  {
    hide TakeSized, Sized;
    var s := InstructionBytes(i) + rest;
    assert s[1..] == Sized(i.accounts) + (Sized(i.data) + rest);
    SizedInverts(i.accounts, Sized(i.data) + rest);
    SizedInverts(i.data, rest);
  }

  function KeyItself(k: Key): Key { k }

  function InstructionItself(i: Instruction): Instruction { i }

  lemma KeysInvert(keys: seq<Key>, rest: Bytes)
    requires |keys| < 0x1000_0000
    ensures TakeList(TakeKey, ShortVec.Encoded(|keys|) + Each(KeyBytes, keys) + rest) == Some((keys, rest))
  {
    hide TakeLength, TakeKey, KeyBytes, Each, ReadMany, ShortVec.Encoded;
    forall k | k in keys
      ensures Inverts(TakeKey, KeyBytes, KeyItself, k)
    {
      forall end: Bytes {
        KeyInverts(k, end);
      }
    }
    ReadManyInverts(TakeKey, KeyBytes, KeyItself, keys, rest);
    assert Map(KeyItself, keys) == keys;
    LengthInverts(|keys|, Each(KeyBytes, keys) + rest);
    Associate(ShortVec.Encoded(|keys|), Each(KeyBytes, keys), rest);
  }

  lemma InstructionsInvert(instructions: seq<Instruction>, rest: Bytes)
    requires |instructions| < 0x1000_0000
    requires forall i | i in instructions :: ReadableInstruction(i)
    ensures TakeList(TakeInstruction, ShortVec.Encoded(|instructions|) + Each(InstructionBytes, instructions) + rest)
         == Some((instructions, rest))
  {
    hide TakeLength, TakeInstruction, InstructionBytes, Each, ReadMany, ShortVec.Encoded, ReadableInstruction;
    forall i | i in instructions
      ensures Inverts(TakeInstruction, InstructionBytes, InstructionItself, i)
    {
      forall end: Bytes {
        InstructionInverts(i, end);
      }
    }
    ReadManyInverts(TakeInstruction, InstructionBytes, InstructionItself, instructions, rest);
    assert Map(InstructionItself, instructions) == instructions;
    LengthInverts(|instructions|, Each(InstructionBytes, instructions) + rest);
    Associate(ShortVec.Encoded(|instructions|), Each(InstructionBytes, instructions), rest);
  }

  /** Any message with readable lengths comes back from its bytes. */
  lemma ReadSerialized(m: Message)
    requires Readable(m)
    ensures ReadMessage(Serialize(m)) == Some(m)
  {
    hide TakeList, TakeKey, TakeInstruction, Each, ShortVec.Encoded, ReadableInstruction;
    var s := Serialize(m);
    var keys := ShortVec.Encoded(|m.accounts|) + Each(KeyBytes, m.accounts);
    var last := ShortVec.Encoded(|m.instructions|) + Each(InstructionBytes, m.instructions);
    SerializedParts(m);
    assert s[3..] == keys + (m.blockhash + last);
    KeysInvert(m.accounts, m.blockhash + last);
    KeyInverts(m.blockhash, last);
    InstructionsInvert(m.instructions, []);
    assert last + [] == last;
  }

  lemma SerializedParts(m: Message)
    ensures Serialize(m) == [m.numRequired, m.numReadonlySigned, m.numReadonlyUnsigned]
                            + ((ShortVec.Encoded(|m.accounts|) + Each(KeyBytes, m.accounts))
                               + (m.blockhash + (ShortVec.Encoded(|m.instructions|) + Each(InstructionBytes, m.instructions))))
  {
    hide Each, ShortVec.Encoded;
  }

  // ----- what a message means -----

  /** An account as an instruction sees it. */
  datatype AccountMeta = AccountMeta(key: Key, signer: bool, writable: bool)

  datatype Call = Call(program: AccountMeta, accounts: seq<AccountMeta>, data: Bytes)

  datatype Meaning = Meaning(signers: seq<Key>, blockhash: Key, calls: seq<Call>)

  /** Signers come first; the last of the signers and the last of the others are read-only. */
  function Privileges(m: Message, i: nat): AccountMeta
    requires i < |m.accounts|
  {
    AccountMeta(m.accounts[i], i < m.numRequired,
                if i < m.numRequired then i < m.numRequired - m.numReadonlySigned
                else i < |m.accounts| - m.numReadonlyUnsigned)
  }

  predicate InRange(m: Message) {
    && m.numReadonlySigned < m.numRequired
    && m.numRequired + m.numReadonlyUnsigned <= |m.accounts|
    && forall i | i in m.instructions ::
         i.program < |m.accounts| && forall k | 0 <= k < |i.accounts| :: i.accounts[k] < |m.accounts|
  }

  function CallOf(m: Message, i: Instruction): Call
    requires i.program < |m.accounts| && forall k | 0 <= k < |i.accounts| :: i.accounts[k] < |m.accounts|
  {
    Call(Privileges(m, i.program),
         seq(|i.accounts|, k requires 0 <= k < |i.accounts| => Privileges(m, i.accounts[k])), i.data)
  }

  function MeaningOf(m: Message): Meaning
    requires InRange(m)
  {
    Meaning(m.accounts[..m.numRequired], m.blockhash,
            seq(|m.instructions|, k requires 0 <= k < |m.instructions| =>
              assert m.instructions[k] in m.instructions; CallOf(m, m.instructions[k])))
  }

  predicate Distinct(keys: seq<Key>) {
    forall i, j | 0 <= i < j < |keys| :: keys[i] != keys[j]
  }

  /** The bytes of a message as a validator understands them: no version prefix, indices in range, no account twice. */
  function Understood(s: Bytes): Option<Meaning> {
    match ReadMessage(s)
    case None => None
    case Some(m) => if m.numRequired < 0x80 && InRange(m) && Distinct(m.accounts) then Some(MeaningOf(m)) else None
  }

  function Program(id: Key): AccountMeta { AccountMeta(id, false, false) }

  /** What each request asks the network to do, in terms of accounts and not of indices. */
  function Asked(r: Request): Meaning {
    match r
    case SystemTransfer(from, to, lamports, blockhash) =>
      Meaning([from], blockhash,
              [Call(Program(SYSTEM_PROGRAM_ID), [AccountMeta(from, true, true), AccountMeta(to, false, true)],
                    Le(2, 4) + Le(lamports, 8))])
    case SplTransfer(source, dest, owner, amount, blockhash) =>
      Meaning([owner], blockhash, [TokenTransfer(source, dest, owner, amount)])
    case SplTransferCreating(source, dest, owner, wallet, mint, amount, blockhash) =>
      Meaning([owner], blockhash,
              [Call(Program(ATA_PROGRAM_ID),
                    [AccountMeta(owner, true, true), AccountMeta(dest, false, true), AccountMeta(wallet, false, false),
                     AccountMeta(mint, false, false), Program(SYSTEM_PROGRAM_ID), Program(SPL_TOKEN_PROGRAM_ID)],
                    []),
               TokenTransfer(source, dest, owner, amount)])
  }

  /** Source and destination are writable; the authority signs, and is writable as the fee payer. */
  function TokenTransfer(source: Key, dest: Key, owner: Key, amount: u64): Call {
    Call(Program(SPL_TOKEN_PROGRAM_ID),
         [AccountMeta(source, false, true), AccountMeta(dest, false, true), AccountMeta(owner, true, true)],
         [3] + Le(amount, 8))
  }

  lemma RequestsReadable(r: Request)
    ensures Readable(MessageOf(r)) && InRange(MessageOf(r)) && MessageOf(r).numRequired < 0x80
  {
    hide Le;
  }

  lemma RequestsResolve(r: Request)
    requires InRange(MessageOf(r))
    ensures MeaningOf(MessageOf(r)) == Asked(r)
  {
    hide Le, InRange;
    var m, asked := MessageOf(r), MeaningOf(MessageOf(r));
    assert m.accounts[..1] == Asked(r).signers;
    assert asked.calls[0].accounts == Asked(r).calls[0].accounts;
    if r.SplTransferCreating? {
      assert asked.calls[1].accounts == Asked(r).calls[1].accounts;
    }
    assert asked.calls == Asked(r).calls;
  }

  /** Every builder's bytes are a well-formed message, with indices in range and nothing left over. A validator takes
      it exactly when the keys and program ids of the request are distinct, as asking for exactly the calls of the
      request, each account with the documented privileges. */
  lemma BuildersMeanRequests(r: Request)
    ensures ReadMessage(Serialize(MessageOf(r))) == Some(MessageOf(r)) && InRange(MessageOf(r))
    ensures MeaningOf(MessageOf(r)) == Asked(r)
    ensures Understood(Serialize(MessageOf(r))) == if Distinct(MessageOf(r).accounts) then Some(Asked(r)) else None
  {
    hide ReadMessage, Serialize, MessageOf, MeaningOf, InRange, Readable, Asked, Distinct;
    RequestsReadable(r);
    ReadSerialized(MessageOf(r));
    RequestsResolve(r);
  }

  /** The builders do not refuse a request that names an account twice; one transfer to oneself is enough. */
  lemma SelfTransferIsBuilt(owner: Key, lamports: u64, blockhash: Key)
    ensures Understood(Serialize(MessageOf(SystemTransfer(owner, owner, lamports, blockhash)))) == None
  {
    hide Serialize, Understood, Asked;
    var r := SystemTransfer(owner, owner, lamports, blockhash);
    BuildersMeanRequests(r);
    assert MessageOf(r).accounts[0] == MessageOf(r).accounts[1];
  }

  lemma AmountsDiffer(a: u64, b: u64)
    ensures Le(2, 4) + Le(a, 8) == Le(2, 4) + Le(b, 8) ==> a == b
    ensures [3] + Le(a, 8) == [3] + Le(b, 8) ==> a == b
  {
    hide Le;
    if Le(2, 4) + Le(a, 8) == Le(2, 4) + Le(b, 8) {
      SplitAt(Le(2, 4), Le(a, 8), Le(2, 4), Le(b, 8));
      LeInjective(a, b, 8);
    }
    if [3] + Le(a, 8) == [3] + Le(b, 8) {
      SplitAt<byte>([3], Le(a, 8), [3], Le(b, 8));
      LeInjective(a, b, 8);
    }
  }

  function Amount(r: Request): u64 {
    match r
    case SystemTransfer(_, _, lamports, _) => lamports
    case SplTransfer(_, _, _, amount, _) => amount
    case SplTransferCreating(_, _, _, _, _, amount, _) => amount
  }

  lemma MessagesDiffer(r: Request, q: Request)
    requires MessageOf(r) == MessageOf(q)
    ensures r == q
  {
    hide Le;
    var m, n := MessageOf(r), MessageOf(q);
    AmountsDiffer(Amount(r), Amount(q));
    assert |m.accounts| == |n.accounts|;
    assert forall i | 0 <= i < |m.accounts| :: m.accounts[i] == n.accounts[i];
    assert m.instructions[0] == n.instructions[0];
    assert m.instructions[|m.instructions| - 1] == n.instructions[|n.instructions| - 1];
  }

  /** One message serves one request, whichever builder wrote it. */
  lemma RequestsAreDistinct(r: Request, q: Request)
    requires Serialize(MessageOf(r)) == Serialize(MessageOf(q))
    ensures r == q
  {
    hide Serialize, MessageOf, ReadMessage, InRange, Asked;
    BuildersMeanRequests(r);
    BuildersMeanRequests(q);
    MessagesDiffer(r, q);
  }
}
