/** EVM transactions: the Type-0 (EIP-155) and Type-2 (EIP-1559) builders. */
module EvmTx {
  import opened Bytes
  import opened Positional
  import opened Records
  import opened Rlp
  import opened EvmHex

  /** ECDSA recovery ids range over 0 to 3. */
  type RecoveryId = x: nat | x < 4

  datatype Signature = Signature(r: Word256, s: Word256, recoveryId: RecoveryId)

  /** A recoverable ECDSA signer of 32-byte hashes; it may fail. */
  type Signer = Bytes -> Option<Signature>

  datatype Type0 = Type0(nonce: u64, gasPrice: Word256, gasLimit: u64, to: Address, value: Word256, data: DataBytes)

  datatype Type2 = Type2(nonce: u64, maxPriorityFee: Word256, maxFee: Word256, gasLimit: u64,
                         to: Address, value: Word256, data: DataBytes)

  // ----- the lists that are signed and sent -----

  function Int(n: nat): Tree { Str(BigEndian(n)) }

  function Int256(w: Word256): Tree { Int(Value(256, w)) }

  function Type0Fields(f: Type0): (items: seq<Tree>)
    ensures |items| == 6
  {
    [Int(f.nonce), Int256(f.gasPrice), Int(f.gasLimit), Str(f.to), Int256(f.value), Str(f.data)]
  }

  function Unsigned0(f: Type0, chainId: u64): Tree {
    Lst(Type0Fields(f) + [Int(chainId), Str([]), Str([])])
  }

  function Signed0(f: Type0, v: u64, r: Word256, s: Word256): Tree {
    Lst(Type0Fields(f) + [Int(v), Int256(r), Int256(s)])
  }

  function Type2Fields(f: Type2, chainId: u64): (items: seq<Tree>)
    ensures |items| == 9
  {
    [Int(chainId), Int(f.nonce), Int256(f.maxPriorityFee), Int256(f.maxFee), Int(f.gasLimit),
     Str(f.to), Int256(f.value), Str(f.data), Lst([])]
  }

  function Unsigned2(f: Type2, chainId: u64): Tree {
    Lst(Type2Fields(f, chainId))
  }

  function Signed2(f: Type2, chainId: u64, sig: Signature): Tree {
    Lst(Type2Fields(f, chainId) + [Int(sig.recoveryId), Int256(sig.r), Int256(sig.s)])
  }

  /** chain_id * 2 + 35 + recovery_id in u64 arithmetic, which wraps in a release build. */
  function VOf(chainId: u64, recoveryId: RecoveryId): u64 {
    (chainId * 2 + 35 + recoveryId) % 0x1_0000_0000_0000_0000
  }

  datatype Payload = Legacy(f0: Type0, chainId: u64) | DynamicFee(f2: Type2, chainId: u64)

  /** The bytes that are hashed and signed. */
  function SigningBytes(p: Payload): Bytes {
    match p
    case Legacy(f, chainId) => Encode(Unsigned0(f, chainId))
    case DynamicFee(f, chainId) => [0x02] + Encode(Unsigned2(f, chainId))
  }

  /** The bytes that are broadcast. */
  function SignedBytes(p: Payload, sig: Signature): Bytes {
    match p
    case Legacy(f, chainId) => Encode(Signed0(f, VOf(chainId, sig.recoveryId), sig.r, sig.s))
    case DynamicFee(f, chainId) => [0x02] + Encode(Signed2(f, chainId, sig))
  }

  function SignedOf(keccak: Bytes -> Bytes, sign: Signer, p: Payload): Result<Bytes, EvmError> {
    match sign(keccak(SigningBytes(p)))
    case None => Err(SigningFailed)
    case Some(sig) => Ok(SignedBytes(p, sig))
  }

  function ParseType0(nonce: HexText, gasPrice: HexText, gasLimit: HexText, to: HexText, value: HexText, data: HexText)
    : Result<Type0, EvmError>
  {
    var n := HexToU64(nonce);
    if n.Err? then Err(n.error) else
    var p := HexToU256(gasPrice);
    if p.Err? then Err(p.error) else
    var l := HexToU64(gasLimit);
    if l.Err? then Err(l.error) else
    var a := AddressToBytes(to);
    if a.Err? then Err(a.error) else
    var v := HexToU256(value);
    if v.Err? then Err(v.error) else
    var d := HexToBytes(data);
    if d.Err? then Err(d.error) else
    Ok(Type0(n.value, p.value, l.value, a.value, v.value, d.value))
  }

  function ParseType2(nonce: HexText, maxPriorityFee: HexText, maxFee: HexText, gasLimit: HexText, to: HexText, value: HexText, data: HexText)
    : Result<Type2, EvmError>
  {
    var n := HexToU64(nonce);
    if n.Err? then Err(n.error) else
    var p := HexToU256(maxPriorityFee);
    if p.Err? then Err(p.error) else
    var m := HexToU256(maxFee);
    if m.Err? then Err(m.error) else
    var l := HexToU64(gasLimit);
    if l.Err? then Err(l.error) else
    var a := AddressToBytes(to);
    if a.Err? then Err(a.error) else
    var v := HexToU256(value);
    if v.Err? then Err(v.error) else
    var d := HexToBytes(data);
    if d.Err? then Err(d.error) else
    Ok(Type2(n.value, p.value, m.value, l.value, a.value, v.value, d.value))
  }

  // ----- sizes: every list fits a machine word -----

  lemma {:induction false} EncodeAllConcat(a: seq<Tree>, b: seq<Tree>)
    ensures EncodeAll(a + b) == EncodeAll(a) + EncodeAll(b)
  {
    hide Encode;
    if a == [] {
      assert a + b == b;
    } else {
      EncodeAllConcat(a[1..], b);
      assert (a + b)[1..] == a[1..] + b;
    }
  }

  lemma {:induction false} ConcatIsEncodeAll(ts: seq<Tree>)
    ensures Concat(Map(Encode, ts)) == EncodeAll(ts)
  {
    hide Encode;
    if ts != [] {
      ConcatIsEncodeAll(ts[1..]);
      assert Map(Encode, ts)[1..] == Map(Encode, ts[1..]);
    }
  }

  /** An integer, an address, or the empty access list. */
  predicate Small(t: Tree) {
    t == Lst([]) || (t.Str? && |t.bytes| <= 32)
  }

  lemma SmallSize(t: Tree)
    requires Small(t)
    ensures Fits(t) && |Encode(t)| <= 33
  {
  }

  lemma {:induction false} SmallSizes(ts: seq<Tree>)
    requires forall t | t in ts :: Small(t)
    ensures |EncodeAll(ts)| <= 33 * |ts|
  {
    hide Encode, Small;
    if ts != [] {
      SmallSize(ts[0]);
      SmallSizes(ts[1..]);
    }
  }

  lemma DataSize(data: DataBytes)
    ensures Fits(Str(data)) && |Encode(Str(data))| <= |data| + 9
    ensures EncodeAll([Str(data)]) == Encode(Str(data))
  {
    hide BigEndian;
    LengthIsMinimal(|data|);
    PrefixRange(0x80, |data|);
  }

  lemma ListFits(before: seq<Tree>, data: DataBytes, after: seq<Tree>)
    requires |before| + |after| <= 11
    requires forall t | t in before + after :: Small(t)
    ensures Fits(Lst(before + [Str(data)] + after))
  {
    hide Encode, EncodeAll, Small;
    var ts := before + [Str(data)] + after;
    assert forall t | t in before :: t in before + after;
    assert forall t | t in after :: t in before + after;
    SmallSizes(before);
    SmallSizes(after);
    DataSize(data);
    EncodeAllConcat(before + [Str(data)], after);
    EncodeAllConcat(before, [Str(data)]);
    forall t | t in ts
      ensures Fits(t)
    {
      if t != Str(data) {
        assert t in before + after;
        SmallSize(t);
      }
    }
  }

  lemma SmallInt(n: u64, w: Word256)
    ensures Small(Int(n)) && Small(Int256(w))
  {
    hide BigEndian, Value;
    IntegersAreMinimal(n, w);
  }

  lemma Type0Fits(f: Type0, a: Tree, b: Tree, c: Tree)
    requires Small(a) && Small(b) && Small(c)
    ensures Fits(Lst(Type0Fields(f) + [a, b, c]))
  {
    hide Encode, EncodeAll, Fits, Int256, Int;
    SmallInt(f.nonce, f.gasPrice);
    SmallInt(f.gasLimit, f.value);
    var before := [Int(f.nonce), Int256(f.gasPrice), Int(f.gasLimit), Str(f.to), Int256(f.value)];
    ListFits(before, f.data, [a, b, c]);
    assert Type0Fields(f) == before + [Str(f.data)];
  }

  lemma Type2Fits(f: Type2, chainId: u64, after: seq<Tree>)
    requires |after| <= 3 && forall t | t in after :: Small(t)
    ensures Fits(Lst(Type2Fields(f, chainId) + after))
  {
    hide Encode, EncodeAll, Fits, Int256, Int;
    SmallInt(chainId, f.maxPriorityFee);
    SmallInt(f.nonce, f.maxFee);
    SmallInt(f.gasLimit, f.value);
    var before := [Int(chainId), Int(f.nonce), Int256(f.maxPriorityFee), Int256(f.maxFee), Int(f.gasLimit),
                   Str(f.to), Int256(f.value)];
    ListFits(before, f.data, [Lst([])] + after);
    assert Type2Fields(f, chainId) + after == before + [Str(f.data)] + ([Lst([])] + after);
  }

  lemma PayloadsFit(p: Payload, sig: Signature)
    ensures p.Legacy? ==> Fits(Unsigned0(p.f0, p.chainId))
                          && Fits(Signed0(p.f0, VOf(p.chainId, sig.recoveryId), sig.r, sig.s))
    ensures p.DynamicFee? ==> Fits(Unsigned2(p.f2, p.chainId)) && Fits(Signed2(p.f2, p.chainId, sig))
  {
    hide Fits, Int, Int256, Type0Fields, Type2Fields;
    SmallInt(sig.recoveryId, sig.r);
    SmallInt(sig.recoveryId, sig.s);
    match p
    case Legacy(f, chainId) =>
      SmallInt(chainId, sig.r);
      SmallInt(VOf(chainId, sig.recoveryId), sig.r);
      Type0Fits(f, Int(chainId), Str([]), Str([]));
      Type0Fits(f, Int(VOf(chainId, sig.recoveryId)), Int256(sig.r), Int256(sig.s));
    case DynamicFee(f, chainId) =>
      Type2Fits(f, chainId, []);
      assert Type2Fields(f, chainId) + [] == Type2Fields(f, chainId);
      Type2Fits(f, chainId, [Int(sig.recoveryId), Int256(sig.r), Int256(sig.s)]);
  }

  // ----- the builders -----

  /** The vector of encoded items that a builder fills is the list's tree, item by item. */
  lemma ListOfItems(items: seq<Bytes>, ts: seq<Tree>)
    requires items == Map(Encode, ts) && Fits(Lst(ts))
    ensures |Concat(items)| < 0x1_0000_0000_0000_0000
    ensures Prefix(0xc0, |Concat(items)|) + Concat(items) == Encode(Lst(ts))
  {
    ConcatIsEncodeAll(ts);
  }

  lemma Integers(n: u64, w: Word256)
    ensures EncodeU64(n) == Encode(Int(n)) && EncodeU256(w) == Encode(Int256(w))
  {
    hide BigEndian, Value, Encode, EncodeItem, EncodeU64, EncodeU256;
    IntegersAreMinimal(n, w);
    ItemIsString(BigEndian(n));
    ItemIsString(BigEndian(Value(256, w)));
  }

  lemma Type0Items(f: Type0, a: Tree, b: Tree, c: Tree)
    ensures Map(Encode, Type0Fields(f) + [a, b, c])
         == [EncodeU64(f.nonce), EncodeU256(f.gasPrice), EncodeU64(f.gasLimit), EncodeItem(f.to),
             EncodeU256(f.value), EncodeItem(f.data), Encode(a), Encode(b), Encode(c)]
  {
    hide Encode, EncodeItem, EncodeU64, EncodeU256, Int, Int256;
    Integers(f.nonce, f.gasPrice);
    Integers(f.gasLimit, f.value);
    ItemIsString(f.to);
    ItemIsString(f.data);
  }

  lemma Type2Items(f: Type2, chainId: u64, after: seq<Tree>)
    ensures Map(Encode, Type2Fields(f, chainId) + after)
         == [EncodeU64(chainId), EncodeU64(f.nonce), EncodeU256(f.maxPriorityFee), EncodeU256(f.maxFee),
             EncodeU64(f.gasLimit), EncodeItem(f.to), EncodeU256(f.value), EncodeItem(f.data), Encode(Lst([]))]
            + Map(Encode, after)
  {
    hide Encode, EncodeItem, EncodeU64, EncodeU256, Int, Int256;
    Integers(chainId, f.maxPriorityFee);
    Integers(f.nonce, f.maxFee);
    Integers(f.gasLimit, f.value);
    ItemIsString(f.to);
    ItemIsString(f.data);
  }

  method BuildType0(keccak: Bytes -> Bytes, sign: Signer, chainId: u64, f: Type0) returns (r: Result<Bytes, EvmError>)
    ensures r == SignedOf(keccak, sign, Legacy(f, chainId))
  {
    hide Encode, EncodeItem, EncodeU64, EncodeU256, Int, Int256, Fits, Type0Fields, Concat, Prefix;
    ItemIsString([]);
    Integers(chainId, f.value);
    var unsignedItems := [EncodeU64(f.nonce), EncodeU256(f.gasPrice), EncodeU64(f.gasLimit), EncodeItem(f.to),
                          EncodeU256(f.value), EncodeItem(f.data),
                          EncodeU64(chainId), EncodeItem([]), EncodeItem([])];
    Type0Items(f, Int(chainId), Str([]), Str([]));
    SmallInt(chainId, f.value);
    Type0Fits(f, Int(chainId), Str([]), Str([]));
    ListOfItems(unsignedItems, Type0Fields(f) + [Int(chainId), Str([]), Str([])]);
    var unsignedRlp := EncodeList(unsignedItems);
    assert unsignedRlp == SigningBytes(Legacy(f, chainId));
    var hash := keccak(unsignedRlp);
    var signed := sign(hash);
    if signed == None {
      return Err(SigningFailed);
    }
    var sig := signed.value;
    var v := VOf(chainId, sig.recoveryId);
    Integers(v, sig.r);
    Integers(v, sig.s);
    var signedItems := [EncodeU64(f.nonce), EncodeU256(f.gasPrice), EncodeU64(f.gasLimit), EncodeItem(f.to),
                        EncodeU256(f.value), EncodeItem(f.data),
                        EncodeU64(v), EncodeU256(sig.r), EncodeU256(sig.s)];
    Type0Items(f, Int(v), Int256(sig.r), Int256(sig.s));
    SmallInt(v, sig.r);
    SmallInt(v, sig.s);
    Type0Fits(f, Int(v), Int256(sig.r), Int256(sig.s));
    ListOfItems(signedItems, Type0Fields(f) + [Int(v), Int256(sig.r), Int256(sig.s)]);
    var signedRlp := EncodeList(signedItems);
    return Ok(signedRlp);
  }

  method SignType0TransactionWithKey(keccak: Bytes -> Bytes, sign: Signer, chainId: u64,
                                     nonce: HexText, gasPrice: HexText, gasLimit: HexText, to: HexText, value: HexText, data: HexText)
    returns (r: Result<Bytes, EvmError>)
    ensures match ParseType0(nonce, gasPrice, gasLimit, to, value, data)
            case Err(e) => r == Err(e)
            case Ok(f) => r == SignedOf(keccak, sign, Legacy(f, chainId))
  {
    hide HexToU64, HexToU256, AddressToBytes, HexToBytes, SignedOf;
    var n := HexToU64(nonce);
    if n.Err? { return Err(n.error); }
    var p := HexToU256(gasPrice);
    if p.Err? { return Err(p.error); }
    var l := HexToU64(gasLimit);
    if l.Err? { return Err(l.error); }
    var a := AddressToBytes(to);
    if a.Err? { return Err(a.error); }
    var v := HexToU256(value);
    if v.Err? { return Err(v.error); }
    var d := HexToBytes(data);
    if d.Err? { return Err(d.error); }
    r := BuildType0(keccak, sign, chainId, Type0(n.value, p.value, l.value, a.value, v.value, d.value));
  }

  method BuildType2(keccak: Bytes -> Bytes, sign: Signer, chainId: u64, f: Type2) returns (r: Result<Bytes, EvmError>)
    ensures r == SignedOf(keccak, sign, DynamicFee(f, chainId))
  {
    hide Encode, EncodeItem, EncodeU64, EncodeU256, Int, Int256, Fits, Type2Fields, Concat, Prefix;
    var accessList := EmptyList();
    var unsignedItems := [EncodeU64(chainId), EncodeU64(f.nonce), EncodeU256(f.maxPriorityFee), EncodeU256(f.maxFee),
                          EncodeU64(f.gasLimit), EncodeItem(f.to), EncodeU256(f.value), EncodeItem(f.data), accessList];
    Type2Items(f, chainId, []);
    Type2Fits(f, chainId, []);
    assert Type2Fields(f, chainId) + [] == Type2Fields(f, chainId);
    ListOfItems(unsignedItems, Type2Fields(f, chainId));
    var unsignedPayload := EncodeList(unsignedItems);
    var toHash: Bytes := [0x02];
    toHash := toHash + unsignedPayload;
    assert toHash == SigningBytes(DynamicFee(f, chainId));
    var hash := keccak(toHash);
    var signed := sign(hash);
    if signed == None {
      return Err(SigningFailed);
    }
    var sig := signed.value;
    Integers(sig.recoveryId, sig.r);
    Integers(sig.recoveryId, sig.s);
    var signedItems := [EncodeU64(chainId), EncodeU64(f.nonce), EncodeU256(f.maxPriorityFee), EncodeU256(f.maxFee),
                        EncodeU64(f.gasLimit), EncodeItem(f.to), EncodeU256(f.value), EncodeItem(f.data), accessList,
                        EncodeU64(sig.recoveryId), EncodeU256(sig.r), EncodeU256(sig.s)];
    var after := [Int(sig.recoveryId), Int256(sig.r), Int256(sig.s)];
    Type2Items(f, chainId, after);
    SmallInt(sig.recoveryId, sig.r);
    SmallInt(sig.recoveryId, sig.s);
    Type2Fits(f, chainId, after);
    ListOfItems(signedItems, Type2Fields(f, chainId) + after);
    var signedPayload := EncodeList(signedItems);
    var signedTx: Bytes := [0x02];
    signedTx := signedTx + signedPayload;
    return Ok(signedTx);
  }

  /** The empty access list. */
  method EmptyList() returns (r: Bytes)
    ensures r == Encode(Lst([]))
  {
    assert Concat([]) == [];
    r := EncodeList([]);
  }

  method SignEip1559TransactionWithKey(keccak: Bytes -> Bytes, sign: Signer, chainId: u64, nonce: HexText,
                                       maxPriorityFee: HexText, maxFee: HexText, gasLimit: HexText, to: HexText, value: HexText, data: HexText)
    returns (r: Result<Bytes, EvmError>)
    ensures match ParseType2(nonce, maxPriorityFee, maxFee, gasLimit, to, value, data)
            case Err(e) => r == Err(e)
            case Ok(f) => r == SignedOf(keccak, sign, DynamicFee(f, chainId))
  {
    hide HexToU64, HexToU256, AddressToBytes, HexToBytes, SignedOf;
    var n := HexToU64(nonce);
    if n.Err? { return Err(n.error); }
    var p := HexToU256(maxPriorityFee);
    if p.Err? { return Err(p.error); }
    var m := HexToU256(maxFee);
    if m.Err? { return Err(m.error); }
    var l := HexToU64(gasLimit);
    if l.Err? { return Err(l.error); }
    var a := AddressToBytes(to);
    if a.Err? { return Err(a.error); }
    var v := HexToU256(value);
    if v.Err? { return Err(v.error); }
    var d := HexToBytes(data);
    if d.Err? { return Err(d.error); }
    r := BuildType2(keccak, sign, chainId, Type2(n.value, p.value, m.value, l.value, a.value, v.value, d.value));
  }
}
