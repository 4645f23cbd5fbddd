/** Signing a serialized transaction made elsewhere: the message is carried over, byte for byte. */
module SolanaResign {
  import opened Bytes
  import opened Records
  import opened SolanaMessages
  import opened SolanaLaws

  datatype ResignError =
    BadBase64 | EmptyTransaction | BadLength(why: ShortVec.ShortVecError) | SignaturesOverflow | MessageTooShort | NoAccounts | SignerMismatch

  /** A buffer in memory; its length fits a machine word with room to spare. */
  type Buffer = b: Bytes | |b| < 0x8000_0000_0000_0000 witness []

  // ----- a transaction: a list of signatures, then the message -----

  datatype Transaction = Transaction(signatures: seq<Bytes>, message: Bytes)

  function TakeSignature(s: Bytes): Option<(Bytes, Bytes)> { Take(s, 64) }

  function ReadTransaction(tx: Bytes): Option<Transaction> {
    match TakeList(TakeSignature, tx)
    case None => None
    case Some((signatures, message)) => Some(Transaction(signatures, message))
  }

  /** The fee payer's account, the first of the table behind the three header bytes. */
  function FirstAccount(message: Bytes): Option<Key> {
    if |message| < 4 then None
    else
      match TakeLength(message[3..])
      case None => None
      case Some((n, rest)) =>
        if n == 0 then None
        else
          match TakeKey(rest)
          case None => None
          case Some((key, _)) => Some(key)
  }

  /** Why a transaction is not signed, if it is not. */
  function Refusal(tx: Bytes, key: Key): Option<ResignError> {
    if tx == [] then Some(EmptyTransaction)
    else if ShortVec.Decoded(tx).Err? then Some(BadLength(ShortVec.Decoded(tx).error))
    else
      match ReadTransaction(tx)
      case None => Some(SignaturesOverflow)
      case Some(Transaction(_, message)) =>
        if |message| < 4 then Some(MessageTooShort)
        else if ShortVec.Decoded(message[3..]).Err? then Some(BadLength(ShortVec.Decoded(message[3..]).error))
        else if FirstAccount(message) == None then Some(NoAccounts)
        else if FirstAccount(message) != Some(key) then Some(SignerMismatch)
        else None
  }

  /** Skipping 64 bytes a signature is reading that many signatures. */
  lemma {:induction false} SkipSignatures(n: nat, s: Bytes)
    ensures ReadMany(TakeSignature, n, s).Some? <==> 64 * n <= |s|
    ensures 64 * n <= |s| ==> ReadMany(TakeSignature, n, s).value.1 == s[64 * n..]
  {
    if n > 0 && |s| >= 64 {
      SkipSignatures(n - 1, s[64..]);
      if 64 * n <= |s| {
        assert s[64..][64 * (n - 1)..] == s[64 * n..];
      }
    }
  }

  lemma DecodedRange(s: Bytes)
    ensures var r := ShortVec.Decoded(s);
            r.Ok? ==> r.value.0 < 0x1000_0000 && r.value.1 <= |s| && TakeLength(s) == Some((r.value.0, s[r.value.1..]))
  {
    hide ShortVec.Decoded;
    if ShortVec.Decoded(s).Ok? {
      var (n, k) := ShortVec.Decoded(s).value;
      ShortVec.Accepted(s, n, k, []);
    }
  }

  /** The first account by offsets, as the re-signer finds it. */
  lemma FirstAccountAt(message: Bytes)
    requires |message| >= 4 && ShortVec.Decoded(message[3..]).Ok?
    ensures var (n, k) := ShortVec.Decoded(message[3..]).value;
            FirstAccount(message) == if n == 0 || 3 + k + 32 > |message| then None else Some(message[3 + k..3 + k + 32])
  {
    hide ShortVec.Decoded;
    DecodedRange(message[3..]);
    var (n, k) := ShortVec.Decoded(message[3..]).value;
    assert message[3..][k..] == message[3 + k..];
    if 3 + k + 32 <= |message| {
      assert message[3 + k..][..32] == message[3 + k..3 + k + 32];
    }
  }

  /** The library's Base64 decoder and encoder are parameters. */
  method SignSerializedTransactionWithKey(sign: Signer, key: Key, decode64: string -> Option<Buffer>,
                                          encode64: Bytes -> string, text: string)
    returns (r: Result<string, ResignError>)
    ensures match decode64(text)
            case None => r == Err(BadBase64)
            case Some(tx) =>
              match Refusal(tx, key)
              case Some(e) => r == Err(e)
              case None => r == Ok(encode64(Signed(sign, ReadTransaction(tx).value.message)))
  {
    hide ShortVec.Decoded, ShortVec.Encoded, ReadMany, FirstAccount;
    var decoded := decode64(text);
    if decoded == None {
      return Err(BadBase64);
    }
    var tx := decoded.value;
    if tx == [] {
      return Err(EmptyTransaction);
    }
    var offset: u64 := 0;
    assert tx[offset..] == tx;
    var count := ShortVec.DecodeShortVec(tx[offset..]);
    if count.Err? {
      return Err(BadLength(count.error));
    }
    DecodedRange(tx);
    var (numSigs, bytesRead) := count.value;
    offset := offset + bytesRead;
    var sigsSize: u64 := numSigs * 64;
    var end: u64 := offset + sigsSize;
    SkipSignatures(numSigs, tx[offset..]);
    if end > |tx| {
      return Err(SignaturesOverflow);
    }
    assert tx[offset..][64 * numSigs..] == tx[end..];
    offset := end;
    var message := tx[offset..];
    assert ReadTransaction(tx).value.message == message;
    if |message| < 4 {
      return Err(MessageTooShort);
    }
    var accounts := ShortVec.DecodeShortVec(message[3..]);
    if accounts.Err? {
      return Err(BadLength(accounts.error));
    }
    DecodedRange(message[3..]);
    FirstAccountAt(message);
    var (numAccounts, accountsOffset) := accounts.value;
    var accountsStart: u64 := 3 + accountsOffset;
    if numAccounts == 0 || accountsStart + 32 > |message| {
      return Err(NoAccounts);
    }
    var firstAccount := message[accountsStart..accountsStart + 32];
    if firstAccount != key {
      return Err(SignerMismatch);
    }
    var signature := sign(message);
    var one := ShortVec.EncodeShortLen(1);
    var signedTx := one;
    signedTx := signedTx + signature;
    signedTx := signedTx + message;
    return Ok(encode64(signedTx));
  }

  // ----- laws -----

  lemma ReadsSigned(sign: Signer, message: Bytes)
    requires IsSigner(sign)
    ensures ReadTransaction(Signed(sign, message)) == Some(Transaction([sign(message)], message))
  {
    hide ReadTransaction, ShortVec.Encoded;
    var signatures := [sign(message)];
    assert signatures[1..] == [];
    assert Each(SignatureBytes, signatures) == sign(message);
    ReadsSignatures(signatures, message);
  }

  lemma LengthDecodes(s: Bytes)
    ensures TakeLength(s).Some? <==> ShortVec.Decoded(s).Ok?
  {
    hide ShortVec.Decoded;
    DecodedRange(s);
  }

  lemma TransactionLengthDecodes(tx: Bytes)
    requires ReadTransaction(tx).Some?
    ensures tx != [] && ShortVec.Decoded(tx).Ok?
  {
    hide ReadMany;
    LengthDecodes(tx);
  }

  /** The output carries the input's message and one signature over it, and signing it again changes nothing. */
  lemma ResigningKeepsMessage(sign: Signer, key: Key, tx: Bytes)
    requires IsSigner(sign) && Refusal(tx, key) == None
    ensures var message := ReadTransaction(tx).value.message;
            var out := Signed(sign, message);
            && ReadTransaction(out) == Some(Transaction([sign(message)], message))
            && Refusal(out, key) == None
            && Signed(sign, ReadTransaction(out).value.message) == out
  {
    hide ShortVec.Decoded, ReadTransaction, Signed, FirstAccount;
    var message := ReadTransaction(tx).value.message;
    ReadsSigned(sign, message);
    TransactionLengthDecodes(Signed(sign, message));
  }

  lemma FirstAccountOf(m: Message)
    requires Readable(m)
    ensures |Serialize(m)| >= 4 && ShortVec.Decoded(Serialize(m)[3..]).Ok?
    ensures FirstAccount(Serialize(m)) == if m.accounts == [] then None else Some(m.accounts[0])
  {
    hide TakeLength, ShortVec.Encoded, ShortVec.Decoded, Readable, ReadableInstruction;
    assert |m.accounts| < 0x1000_0000 by {
      ReadableAccounts(m);
    }
    var rest := Each(KeyBytes, m.accounts)
                + (m.blockhash + (ShortVec.Encoded(|m.instructions|) + Each(InstructionBytes, m.instructions)));
    SerializedParts(m);
    assert Serialize(m)[3..] == ShortVec.Encoded(|m.accounts|) + rest;
    LengthInverts(|m.accounts|, rest);
    LengthDecodes(Serialize(m)[3..]);
    if m.accounts != [] {
      var others := rest[32..];
      assert rest == m.accounts[0] + others;
      TakeConcat(m.accounts[0], others);
    }
  }

  lemma ReadableAccounts(m: Message)
    requires Readable(m)
    ensures |m.accounts| < 0x1000_0000
  {
  }

  function SignatureBytes(s: Bytes): Bytes { s }

  function SignatureItself(s: Bytes): Bytes { s }

  /** A transaction that already has signatures, or placeholders for them. */
  function WithSignatures(signatures: seq<Bytes>, message: Bytes): Bytes {
    ShortVec.Encoded(|signatures|) + Each(SignatureBytes, signatures) + message
  }

  lemma ReadsSignatures(signatures: seq<Bytes>, message: Bytes)
    requires |signatures| < 0x1000_0000 && forall s | s in signatures :: |s| == 64
    ensures ReadTransaction(WithSignatures(signatures, message)) == Some(Transaction(signatures, message))
  {
    hide TakeLength, ShortVec.Encoded, Each, ReadMany;
    forall s | s in signatures
      ensures Inverts(TakeSignature, SignatureBytes, SignatureItself, s)
    {
      forall end: Bytes {
        TakeConcat(s, end);
      }
    }
    ReadManyInverts(TakeSignature, SignatureBytes, SignatureItself, signatures, message);
    assert Map(SignatureItself, signatures) == signatures;
    LengthInverts(|signatures|, Each(SignatureBytes, signatures) + message);
    Associate(ShortVec.Encoded(|signatures|), Each(SignatureBytes, signatures), message);
  }

  /** Any readable message is signed exactly when its first account is the signer, whatever signatures it came
      with; the output has exactly one signature, over the message. */
  lemma SignsForTheFirstAccount(sign: Signer, key: Key, signatures: seq<Bytes>, m: Message)
    requires IsSigner(sign) && Readable(m)
    requires |signatures| < 0x1000_0000 && forall s | s in signatures :: |s| == 64
    ensures var tx := WithSignatures(signatures, Serialize(m));
            && (Refusal(tx, key) == None <==> m.accounts != [] && m.accounts[0] == key)
            && ReadTransaction(tx).Some? && ReadTransaction(tx).value.message == Serialize(m)
    ensures var out := ReadTransaction(Signed(sign, Serialize(m)));
            && out == Some(Transaction([sign(Serialize(m))], Serialize(m)))
            && ReadMessage(out.value.message) == Some(m)
  {
    hide ShortVec.Decoded, ReadTransaction, Signed, FirstAccount, Serialize, ReadMessage, Readable, WithSignatures;
    var tx := WithSignatures(signatures, Serialize(m));
    ReadsSignatures(signatures, Serialize(m));
    TransactionLengthDecodes(tx);
    FirstAccountOf(m);
    ReadSerialized(m);
    ReadsSigned(sign, Serialize(m));
  }

  /** The wallet's own transactions are left as they are when their payer signs them again. */
  lemma OwnTransactionsUnchanged(sign: Signer, request: Request)
    requires IsSigner(sign)
    ensures var m := MessageOf(request);
            var tx := Signed(sign, Serialize(m));
            && Refusal(tx, m.accounts[0]) == None
            && Signed(sign, ReadTransaction(tx).value.message) == tx
  {
    hide ShortVec.Decoded, ReadTransaction, Signed, FirstAccount, Serialize, Readable, Refusal;
    var m := MessageOf(request);
    RequestsReadable(request);
    SignsForTheFirstAccount(sign, m.accounts[0], [], m);
    ResigningKeepsMessage(sign, m.accounts[0], WithSignatures([], Serialize(m)));
    ReadsSigned(sign, Serialize(m));
  }
}
