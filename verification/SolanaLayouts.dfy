/** The messages of the three builders byte by byte, and what the re-signer accepts by offsets. */
module SolanaLayouts {
  import opened Bytes
  import opened LittleEndian
  import opened Records
  import opened SolanaMessages
  import opened SolanaLaws
  import opened SolanaResign
  import ShortVec

  /** An instruction whose two lists have one-byte lengths. */
  lemma SmallInstruction(program: byte, accounts: Bytes, data: Bytes)
    requires |accounts| < 128 && |data| < 128
    ensures InstructionBytes(Instruction(program, accounts, data))
         == [program, |accounts|] + accounts + [|data|] + data
  {
  }

  lemma {:induction false} KeysAreJoined(keys: seq<Key>)
    ensures |Each(KeyBytes, keys)| == 32 * |keys|
    ensures keys != [] ==> Each(KeyBytes, keys) == keys[0] + Each(KeyBytes, keys[1..])
  {
    if keys != [] {
      KeysAreJoined(keys[1..]);
    }
  }

  lemma Two(a: Key, b: Key)
    ensures Each(KeyBytes, [a, b]) == a + b
  {
    hide Each;
    assert [a, b][1..] == [b] && [b][1..] == [];
    KeysAreJoined([a, b]);
    KeysAreJoined([b]);
    KeysAreJoined([]);
  }

  lemma MoreKeys(a: Key, b: Key, rest: seq<Key>)
    ensures Each(KeyBytes, [a, b] + rest) == a + b + Each(KeyBytes, rest)
  {
    hide Each;
    var keys := [a, b] + rest;
    assert keys[1..] == [b] + rest && keys[1..][1..] == rest;
    KeysAreJoined(keys);
    KeysAreJoined(keys[1..]);
    Associate(a, b, Each(KeyBytes, rest));
  }

  lemma SystemTransferBytes(from: Key, to: Key, lamports: u64, blockhash: Key, amount: Bytes)
    requires |amount| == 8 && AreLittleEndian(amount, lamports)
    ensures Serialize(MessageOf(SystemTransfer(from, to, lamports, blockhash)))
         == [1, 0, 1, 3] + from + to + Zeros(32) + blockhash
            + [1, 2, 2, 0, 1, 12, 2, 0, 0, 0] + amount
  {
    hide Each, InstructionBytes, AreLittleEndian, Le;
    LittleEndianIs(amount, lamports);
    TwoLe();
    var data := [2, 0, 0, 0] + amount;
    var i := Instruction(2, [0, 1], data);
    SmallInstruction(2, [0, 1], data);
    OneInstruction(i);
    MoreKeys(from, to, [SYSTEM_PROGRAM_ID]);
    assert [from, to] + [SYSTEM_PROGRAM_ID] == [from, to, SYSTEM_PROGRAM_ID];
    OneKey(SYSTEM_PROGRAM_ID);
  }

  lemma OneKey(k: Key)
    ensures Each(KeyBytes, [k]) == k
  {
    hide Each;
    assert [k][1..] == [];
    KeysAreJoined([k]);
    KeysAreJoined([]);
  }

  lemma TwoLe()
    ensures Le(2, 4) == [2, 0, 0, 0]
  {
    assert Le(0, 3) == [0, 0, 0];
  }

  lemma TransferData(n: u64, amount: Bytes)
    requires |amount| == 8 && AreLittleEndian(amount, n)
    ensures SplTransferData(n) == [3] + amount
  {
    hide Le, AreLittleEndian;
    LittleEndianIs(amount, n);
  }

  lemma SplTransferBytes(source: Key, dest: Key, owner: Key, n: u64, blockhash: Key, amount: Bytes)
    requires |amount| == 8 && AreLittleEndian(amount, n)
    ensures Serialize(MessageOf(SplTransfer(source, dest, owner, n, blockhash)))
         == [1, 0, 1, 4] + owner + source + dest + SPL_TOKEN_PROGRAM_ID + blockhash
            + [1, 3, 3, 1, 2, 0, 9, 3] + amount
  {
    hide Each, InstructionBytes, AreLittleEndian, SplTransferData;
    TransferData(n, amount);
    var i := Instruction(3, [1, 2, 0], [3] + amount);
    SmallInstruction(3, [1, 2, 0], [3] + amount);
    OneInstruction(i);
    MoreKeys(owner, source, [dest, SPL_TOKEN_PROGRAM_ID]);
    assert [owner, source] + [dest, SPL_TOKEN_PROGRAM_ID] == [owner, source, dest, SPL_TOKEN_PROGRAM_ID];
    Two(dest, SPL_TOKEN_PROGRAM_ID);
  }

  lemma SplTransferCreatingBytes(source: Key, dest: Key, owner: Key, wallet: Key, mint: Key, n: u64, blockhash: Key,
                                 amount: Bytes)
    requires |amount| == 8 && AreLittleEndian(amount, n)
    ensures Serialize(MessageOf(SplTransferCreating(source, dest, owner, wallet, mint, n, blockhash)))
         == [1, 0, 5, 8] + (owner + source + dest + wallet + mint + Zeros(32) + SPL_TOKEN_PROGRAM_ID + ATA_PROGRAM_ID)
            + blockhash + [2, 7, 6, 0, 2, 3, 4, 5, 6, 0, 6, 3, 1, 2, 0, 9, 3] + amount
  {
    hide Each, InstructionBytes, AreLittleEndian, SplTransferData;
    TransferData(n, amount);
    CreateThenTransfer(amount);
    EightKeys(owner, source, dest, wallet, mint);
  }

  lemma CreateThenTransfer(amount: Bytes)
    requires |amount| == 8
    ensures Each(InstructionBytes, [Instruction(7, [0, 2, 3, 4, 5, 6], []), Instruction(6, [1, 2, 0], [3] + amount)])
         == [7, 6, 0, 2, 3, 4, 5, 6, 0, 6, 3, 1, 2, 0, 9, 3] + amount
  {
    hide Each, InstructionBytes;
    SmallInstruction(7, [0, 2, 3, 4, 5, 6], []);
    SmallInstruction(6, [1, 2, 0], [3] + amount);
    TwoInstructions(Instruction(7, [0, 2, 3, 4, 5, 6], []), Instruction(6, [1, 2, 0], [3] + amount));
  }

  lemma EightKeys(owner: Key, source: Key, dest: Key, wallet: Key, mint: Key)
    ensures Each(KeyBytes, [owner, source, dest, wallet, mint, SYSTEM_PROGRAM_ID, SPL_TOKEN_PROGRAM_ID, ATA_PROGRAM_ID])
         == owner + source + dest + wallet + mint + Zeros(32) + SPL_TOKEN_PROGRAM_ID + ATA_PROGRAM_ID
  {
    hide Each;
    var last := [SPL_TOKEN_PROGRAM_ID, ATA_PROGRAM_ID];
    var end := [mint, SYSTEM_PROGRAM_ID] + last;
    var middle := [dest, wallet] + end;
    Two(SPL_TOKEN_PROGRAM_ID, ATA_PROGRAM_ID);
    MoreKeys(mint, SYSTEM_PROGRAM_ID, last);
    MoreKeys(dest, wallet, end);
    MoreKeys(owner, source, middle);
    assert [owner, source] + middle
        == [owner, source, dest, wallet, mint, SYSTEM_PROGRAM_ID, SPL_TOKEN_PROGRAM_ID, ATA_PROGRAM_ID];
  }

  // ----- signed transactions -----

  /** One signature behind the length 1. */
  lemma SignedBytes(sign: Signer, message: Bytes)
    ensures Signed(sign, message) == [1] + sign(message) + message
  {
  }

  /** The checks of the re-signer by offsets, in the order in which it makes them. */
  lemma RefusalByOffsets(tx: Bytes, key: Key)
    ensures Refusal(tx, key) ==
            if tx == [] then Some(EmptyTransaction)
            else
              match ShortVec.Decoded(tx)
              case Err(e) => Some(BadLength(e))
              case Ok((n, k)) =>
                var start := k + 64 * n;
                if start > |tx| then Some(SignaturesOverflow)
                else if start + 4 > |tx| then Some(MessageTooShort)
                else
                  match ShortVec.Decoded(tx[start + 3..])
                  case Err(e) => Some(BadLength(e))
                  case Ok((accounts, width)) =>
                    var first := start + 3 + width;
                    if accounts == 0 || first + 32 > |tx| then Some(NoAccounts)
                    else if tx[first..first + 32] != key then Some(SignerMismatch)
                    else None
    ensures Refusal(tx, key) == None ==>
              var (n, k) := ShortVec.Decoded(tx).value;
              && k + 64 * n <= |tx|
              && ReadTransaction(tx).value.message == tx[k + 64 * n..]
  {
    hide ShortVec.Decoded, FirstAccount, ReadMany;
    DecodedRange(tx);
    if ShortVec.Decoded(tx).Ok? {
      var (n, k) := ShortVec.Decoded(tx).value;
      SkipSignatures(n, tx[k..]);
      var start := k + 64 * n;
      if start <= |tx| {
        assert tx[k..][64 * n..] == tx[start..];
        if start + 4 <= |tx| {
          MessageByOffsets(tx, start, key);
        }
      }
    }
  }

  lemma MessageByOffsets(tx: Bytes, start: nat, key: Key)
    requires start + 4 <= |tx|
    ensures tx[start..][3..] == tx[start + 3..]
    ensures ShortVec.Decoded(tx[start + 3..]).Ok? ==>
              var (accounts, width) := ShortVec.Decoded(tx[start + 3..]).value;
              var first := start + 3 + width;
              FirstAccount(tx[start..]) == if accounts == 0 || first + 32 > |tx| then None else Some(tx[first..first + 32])
  {
    hide ShortVec.Decoded, FirstAccount;
    var message := tx[start..];
    assert message[3..] == tx[start + 3..];
    if ShortVec.Decoded(message[3..]).Ok? {
      FirstAccountAt(message);
      var width := ShortVec.Decoded(message[3..]).value.1;
      if 3 + width + 32 <= |message| {
        assert message[3 + width..3 + width + 32] == tx[start + 3 + width..start + 3 + width + 32];
      }
    }
  }
}
