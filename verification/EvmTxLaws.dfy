/** Signed EVM transactions determine what was signed: rebuilding, format separation and binding. */
module EvmTxLaws {
  import opened Bytes
  import opened Crypto
  import opened Positional
  import opened Rlp
  import opened EvmTx

  // ----- what a receiver computes from the broadcast bytes -----

  /** EIP-155: chain id (v - 35) / 2 and two empty strings in the place of v, r and s. */
  function RebuildType0(signed: Bytes): Option<Bytes> {
    match Decode(signed)
    case Some((Lst(items), rest)) =>
      if rest == [] && |items| == 9 && items[6].Str? && Value(256, items[6].bytes) >= 35 then
        Some(Encode(Lst(items[..6] + [Int((Value(256, items[6].bytes) - 35) / 2), Str([]), Str([])])))
      else None
    case _ => None
  }

  /** EIP-2718 type byte and EIP-1559 list without its last three fields. */
  function RebuildType2(signed: Bytes): Option<Bytes> {
    if signed == [] || signed[0] != 0x02 then None
    else
      match Decode(signed[1..])
      case Some((Lst(items), rest)) =>
        if rest == [] && |items| == 12 then Some([0x02] + Encode(Lst(items[..9]))) else None
      case _ => None
  }

  /** A transaction envelope is typed when its first byte is below 0x80, and an RLP list from 0xc0. */
  function Rebuild(signed: Bytes): Option<Bytes> {
    if signed != [] && signed[0] < 0x80 then RebuildType2(signed) else RebuildType0(signed)
  }

  lemma DecodesToItself(t: Tree)
    requires Fits(t)
    ensures Decode(Encode(t)) == Some((t, []))
  {
    hide Decode, Encode, Fits;
    DecodeEncode(t, []);
    assert Encode(t) + [] == Encode(t);
  }

  lemma IntIsInjective(m: nat, n: nat)
    requires Int(m) == Int(n)
    ensures m == n
  {
    hide BigEndian;
    ValueOfBigEndian(m);
    ValueOfBigEndian(n);
  }

  lemma Int256IsInjective(a: Word256, b: Word256)
    requires Int256(a) == Int256(b)
    ensures a == b
  {
    hide Value, Int;
    IntIsInjective(Value(256, a), Value(256, b));
    ValueInjective(256, a, b);
  }

  /** Neither the chain id nor the recovery id is lost in v, unless the 64-bit sum wraps or the id is 2 or 3. */
  lemma ChainIdFromV(chainId: u64, recoveryId: RecoveryId)
    ensures var v := VOf(chainId, recoveryId);
            (v >= 35 && (v - 35) / 2 == chainId)
            <==> (recoveryId < 2 && chainId * 2 + 35 + recoveryId < 0x1_0000_0000_0000_0000)
  {
  }

  /** Type 0: the hashed bytes come back exactly when v did not wrap and the recovery id is 0 or 1. */
  lemma RebuildsType0(f: Type0, chainId: u64, sig: Signature)
    ensures Rebuild(SignedBytes(Legacy(f, chainId), sig)) == Some(SigningBytes(Legacy(f, chainId)))
            <==> sig.recoveryId < 2 && chainId * 2 + 35 + sig.recoveryId < 0x1_0000_0000_0000_0000
  {
    hide Decode, Encode, Fits, Int, Int256, Type0Fields, Value, VOf;
    var p := Legacy(f, chainId);
    var v := VOf(chainId, sig.recoveryId);
    PayloadsFit(p, sig);
    DecodesToItself(Signed0(f, v, sig.r, sig.s));
    ValueOfInt(v);
    var signed := Type0Fields(f) + [Int(v), Int256(sig.r), Int256(sig.s)];
    assert signed[..6] == Type0Fields(f) && signed[6] == Int(v);
    Type0IsList(p, sig);
    ChainIdFromV(chainId, sig.recoveryId);
    if v >= 35 {
      RebuiltUnsigned0(f, chainId, (v - 35) / 2);
    }
  }

  lemma ValueOfInt(n: nat)
    ensures Int(n).Str? && Value(256, Int(n).bytes) == n
  {
    ValueOfBigEndian(n);
  }

  /** A list with a smaller-or-equal chain id spells the hashed bytes only if the chain id is right. */
  lemma RebuiltUnsigned0(f: Type0, chainId: u64, rebuilt: nat)
    requires rebuilt < 0x1_0000_0000_0000_0000
    ensures Encode(Lst(Type0Fields(f) + [Int(rebuilt), Str([]), Str([])])) == Encode(Unsigned0(f, chainId))
            <==> rebuilt == chainId
  {
    hide Decode, Encode, Fits, Int, Int256, Type0Fields;
    SmallInt(rebuilt, f.value);
    SmallInt(chainId, f.value);
    Type0Fits(f, Int(rebuilt), Str([]), Str([]));
    Type0Fits(f, Int(chainId), Str([]), Str([]));
    var a := Type0Fields(f) + [Int(rebuilt), Str([]), Str([])];
    var b := Type0Fields(f) + [Int(chainId), Str([]), Str([])];
    if Encode(Lst(a)) == Encode(Lst(b)) {
      EncodeInjective(Lst(a), Lst(b));
      assert a[6] == b[6];
      IntIsInjective(rebuilt, chainId);
    }
  }

  lemma EncodeInjective(a: Tree, b: Tree)
    requires Fits(a) && Fits(b) && Encode(a) == Encode(b)
    ensures a == b
  {
    hide Encode, Fits;
    PrefixFree(a, [], b, []);
  }

  /** Every Type-0 transaction starts like an RLP list, every Type-2 transaction with 0x02. */
  lemma Type0IsList(p: Payload, sig: Signature)
    ensures var s, u := SignedBytes(p, sig), SigningBytes(p);
            && s != [] && u != []
            && (p.Legacy? ==> s[0] >= 0xc0 && u[0] >= 0xc0)
            && (p.DynamicFee? ==> s[0] == 0x02 && u[0] == 0x02)
  {
    hide EncodeAll, Int, Int256, Type0Fields, Type2Fields, VOf;
    PayloadsFit(p, sig);
    match p
    case Legacy(f, chainId) =>
      ListStart(Unsigned0(f, chainId));
      ListStart(Signed0(f, VOf(chainId, sig.recoveryId), sig.r, sig.s));
    case DynamicFee(f, chainId) =>
  }

  lemma ListStart(t: Tree)
    requires t.Lst? && Fits(t)
    ensures Encode(t)[0] >= 0xc0
  {
    hide EncodeAll, Prefix;
    PrefixRange(0xc0, |EncodeAll(t.items)|);
  }

  /** Type 2: dropping the last three fields always gives the hashed bytes. */
  lemma RebuildsType2(f: Type2, chainId: u64, sig: Signature)
    ensures Rebuild(SignedBytes(DynamicFee(f, chainId), sig)) == Some(SigningBytes(DynamicFee(f, chainId)))
  {
    hide Decode, Encode, Fits, Int, Int256, Type2Fields, Value;
    var t := Signed2(f, chainId, sig);
    PayloadsFit(DynamicFee(f, chainId), sig);
    DecodesToItself(t);
    assert ([0x02] + Encode(t))[1..] == Encode(t);
    assert t.items[..9] == Type2Fields(f, chainId);
  }

  // ----- binding -----

  lemma FieldsOfType0(f: Type0, g: Type0)
    requires Type0Fields(f) == Type0Fields(g)
    ensures f == g
  {
    hide Int, Int256;
    var a, b := Type0Fields(f), Type0Fields(g);
    assert a[0] == b[0] && a[1] == b[1] && a[2] == b[2] && a[3] == b[3] && a[4] == b[4] && a[5] == b[5];
    IntIsInjective(f.nonce, g.nonce);
    Int256IsInjective(f.gasPrice, g.gasPrice);
    IntIsInjective(f.gasLimit, g.gasLimit);
    Int256IsInjective(f.value, g.value);
  }

  lemma FieldsOfType2(f: Type2, chainId: u64, g: Type2, chainId': u64)
    requires Type2Fields(f, chainId) == Type2Fields(g, chainId')
    ensures f == g && chainId == chainId'
  {
    hide Int, Int256;
    var a, b := Type2Fields(f, chainId), Type2Fields(g, chainId');
    assert a[0] == b[0] && a[1] == b[1] && a[2] == b[2] && a[3] == b[3] && a[4] == b[4];
    assert a[5] == b[5] && a[6] == b[6] && a[7] == b[7];
    IntIsInjective(chainId, chainId');
    IntIsInjective(f.nonce, g.nonce);
    Int256IsInjective(f.maxPriorityFee, g.maxPriorityFee);
    Int256IsInjective(f.maxFee, g.maxFee);
    IntIsInjective(f.gasLimit, g.gasLimit);
    Int256IsInjective(f.value, g.value);
  }

  /** One string of signing bytes spells one transaction of one format on one chain. */
  lemma SigningBytesInjective(p: Payload, q: Payload)
    requires SigningBytes(p) == SigningBytes(q)
    ensures p == q
  {
    hide Encode, Fits, Int, Int256, Type0Fields, Type2Fields;
    var sig := Signature(Zeros(32), Zeros(32), 0);
    PayloadsFit(p, sig);
    PayloadsFit(q, sig);
    Type0IsList(p, sig);
    Type0IsList(q, sig);
    if p.Legacy? {
      var a, b := Unsigned0(p.f0, p.chainId), Unsigned0(q.f0, q.chainId);
      EncodeInjective(a, b);
      assert a.items[..6] == Type0Fields(p.f0) && b.items[..6] == Type0Fields(q.f0);
      assert a.items[6] == Int(p.chainId) && b.items[6] == Int(q.chainId);
      FieldsOfType0(p.f0, q.f0);
      IntIsInjective(p.chainId, q.chainId);
    } else {
      SplitAt([0x02], Encode(Unsigned2(p.f2, p.chainId)), [0x02], Encode(Unsigned2(q.f2, q.chainId)));
      EncodeInjective(Unsigned2(p.f2, p.chainId), Unsigned2(q.f2, q.chainId));
      FieldsOfType2(p.f2, p.chainId, q.f2, q.chainId);
    }
  }

  /** Signing binds: one hash signs one transaction of one format on one chain, or two strings collide. */
  lemma HashBinds(keccak: Bytes -> Bytes, p: Payload, q: Payload)
    requires keccak(SigningBytes(p)) == keccak(SigningBytes(q))
    ensures p == q || Collides(keccak, SigningBytes(p), SigningBytes(q))
  {
    hide SigningBytes;
    if SigningBytes(p) == SigningBytes(q) {
      SigningBytesInjective(p, q);
    }
  }

  // ----- what the broadcast bytes determine -----

  /** Two signed transactions with the same fields, r and s, and a v that two chains share. */
  predicate SharesV(p: Payload, sig: Signature, q: Payload, sig': Signature) {
    && p.Legacy? && q.Legacy? && p.f0 == q.f0 && sig.r == sig'.r && sig.s == sig'.s
    && VOf(p.chainId, sig.recoveryId) == VOf(q.chainId, sig'.recoveryId)
  }

  lemma SameLegacyBytes(f: Type0, v: u64, r: Word256, s: Word256, g: Type0, v': u64, r': Word256, s': Word256)
    requires Encode(Signed0(f, v, r, s)) == Encode(Signed0(g, v', r', s'))
    ensures f == g && v == v' && r == r' && s == s'
  {
    hide Encode, Fits, Int, Int256, Type0Fields;
    SmallInt(v, r);
    SmallInt(v, s);
    SmallInt(v', r');
    SmallInt(v', s');
    Type0Fits(f, Int(v), Int256(r), Int256(s));
    Type0Fits(g, Int(v'), Int256(r'), Int256(s'));
    var a, b := Signed0(f, v, r, s), Signed0(g, v', r', s');
    EncodeInjective(a, b);
    assert a.items[..6] == Type0Fields(f) && b.items[..6] == Type0Fields(g);
    assert a.items[6] == Int(v) && a.items[7] == Int256(r) && a.items[8] == Int256(s);
    assert b.items[6] == Int(v') && b.items[7] == Int256(r') && b.items[8] == Int256(s');
    FieldsOfType0(f, g);
    IntIsInjective(v, v');
    Int256IsInjective(r, r');
    Int256IsInjective(s, s');
  }

  lemma SameDynamicBytes(f: Type2, c: u64, sig: Signature, g: Type2, c': u64, sig': Signature)
    requires Encode(Signed2(f, c, sig)) == Encode(Signed2(g, c', sig'))
    ensures f == g && c == c' && sig == sig'
  {
    hide Encode, Fits, Int, Int256, Type2Fields;
    PayloadsFit(DynamicFee(f, c), sig);
    PayloadsFit(DynamicFee(g, c'), sig');
    var a, b := Signed2(f, c, sig), Signed2(g, c', sig');
    EncodeInjective(a, b);
    assert a.items[..9] == Type2Fields(f, c) && b.items[..9] == Type2Fields(g, c');
    assert a.items[9] == Int(sig.recoveryId) && a.items[10] == Int256(sig.r) && a.items[11] == Int256(sig.s);
    assert b.items[9] == Int(sig'.recoveryId) && b.items[10] == Int256(sig'.r) && b.items[11] == Int256(sig'.s);
    FieldsOfType2(f, c, g, c');
    IntIsInjective(sig.recoveryId, sig'.recoveryId);
    Int256IsInjective(sig.r, sig'.r);
    Int256IsInjective(sig.s, sig'.s);
  }

  /** Broadcast bytes coincide exactly for one signed transaction, or for Type-0 ones that differ only in chain id and
      recovery id and share v. */
  lemma BroadcastsCoincide(p: Payload, sig: Signature, q: Payload, sig': Signature)
    ensures SignedBytes(p, sig) == SignedBytes(q, sig')
            <==> (p == q && sig == sig') || SharesV(p, sig, q, sig')
  {
    hide Encode, Signed0, Signed2, VOf;
    if SignedBytes(p, sig) == SignedBytes(q, sig') {
      Type0IsList(p, sig);
      Type0IsList(q, sig');
      match (p, q)
      case (Legacy(f, c), Legacy(g, c')) =>
        SameLegacyBytes(f, VOf(c, sig.recoveryId), sig.r, sig.s, g, VOf(c', sig'.recoveryId), sig'.r, sig'.s);
      case (DynamicFee(f, c), DynamicFee(g, c')) =>
        SplitAt([0x02], Encode(Signed2(f, c, sig)), [0x02], Encode(Signed2(g, c', sig')));
        SameDynamicBytes(f, c, sig, g, c', sig');
      case _ =>
    }
  }

  /** With recovery ids 0 and 1, two chains share v exactly when they are one chain or 2^63 apart. */
  lemma VCoincides(c: u64, r: RecoveryId, c': u64, r': RecoveryId)
    requires r < 2 && r' < 2
    ensures VOf(c, r) == VOf(c', r')
            <==> r == r' && (c == c' || c == c' + 0x8000_0000_0000_0000 || c' == c + 0x8000_0000_0000_0000)
  {
  }

  /** The chain 2^63 away, on which the same signature gives the same bytes. */
  function OtherChain(c: u64): (d: u64)
    ensures d != c
  {
    if c < 0x8000_0000_0000_0000 then c + 0x8000_0000_0000_0000 else c - 0x8000_0000_0000_0000
  }

  lemma OtherChainSharesV(c: u64, r: RecoveryId)
    ensures VOf(OtherChain(c), r) == VOf(c, r)
  {
  }

  ghost predicate Ambiguous(p: Payload, sig: Signature) {
    exists q: Payload, sig': Signature :: q != p && SignedBytes(q, sig') == SignedBytes(p, sig)
  }

  /** The broadcast bytes leave the chain open exactly for Type 0: there the chain 2^63 away fits as well. */
  lemma BroadcastIsAmbiguous(p: Payload, sig: Signature)
    ensures Ambiguous(p, sig) <==> p.Legacy?
  {
    hide SignedBytes, VOf;
    if p.Legacy? {
      var q := Legacy(p.f0, OtherChain(p.chainId));
      OtherChainSharesV(p.chainId, sig.recoveryId);
      BroadcastsCoincide(q, sig, p, sig);
      assert q != p && SignedBytes(q, sig) == SignedBytes(p, sig);
    } else {
      forall q: Payload, sig': Signature | SignedBytes(q, sig') == SignedBytes(p, sig)
        ensures q == p
      {
        BroadcastsCoincide(q, sig', p, sig);
      }
    }
  }

  predicate PlainV(p: Payload, sig: Signature) {
    p.Legacy? ==> sig.recoveryId < 2 && p.chainId * 2 + 35 + sig.recoveryId < 0x1_0000_0000_0000_0000
  }

  /** A receiver rebuilds the hashed bytes exactly from such transactions. */
  lemma Rebuilds(p: Payload, sig: Signature)
    ensures Rebuild(SignedBytes(p, sig)) == Some(SigningBytes(p)) <==> PlainV(p, sig)
  {
    hide SigningBytes, SignedBytes, Rebuild;
    match p
    case Legacy(f, chainId) => RebuildsType0(f, chainId, sig);
    case DynamicFee(f, chainId) => RebuildsType2(f, chainId, sig);
  }

  /** Among signed transactions whose v did not wrap, the broadcast bytes determine the transaction and the signature. */
  lemma BroadcastDetermines(p: Payload, sig: Signature, q: Payload, sig': Signature)
    requires PlainV(p, sig) && PlainV(q, sig')
    requires SignedBytes(p, sig) == SignedBytes(q, sig')
    ensures p == q && sig == sig'
  {
    hide SignedBytes, VOf;
    BroadcastsCoincide(p, sig, q, sig');
    if p.Legacy? {
      VCoincides(p.chainId, sig.recoveryId, q.chainId, sig'.recoveryId);
    }
  }
}
