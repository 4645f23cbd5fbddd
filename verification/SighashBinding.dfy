/** Binding: equal signing messages mean equal transactions, or an explicit collision of SHA-256. */
module SighashBinding {
  import opened Bytes
  import opened Crypto
  import opened LittleEndian
  import opened Records
  import opened BitcoinTx
  import opened BitcoinTxLaws
  import opened Text

  // ----- the hand-written length prefix -----

  /** The prefix written by hand is the compact size exactly below 2^32. */
  lemma InlineLengthExact(n: u64)
    ensures InlineLength(n) == CompactSize(n) <==> n < 0x1_0000_0000
  {
    hide Le;
    if n >= 0x1_0000_0000 {
      assert InlineLength(n)[0] == 0xfe && CompactSize(n)[0] == 0xff;
    }
  }

  lemma InlineLengthShorter(n: u64)
    ensures |InlineLength(n)| <= |CompactSize(n)|
    ensures n >= 0x1_0000_0000 ==> |InlineLength(n)| < |CompactSize(n)|
  {
    hide Le;
  }

  /** Every script is shorter than n. */
  predicate Bounded(outputs: seq<TxOutput>, n: nat) {
    forall i | 0 <= i < |outputs| :: |outputs[i].scriptPubkey| < n
  }

  lemma {:induction false} InlineLengths(outputs: seq<TxOutput>)
    ensures |Each(InlineOutput, outputs)| <= |Each(OutputRecord, outputs)|
    ensures !Bounded(outputs, 0x1_0000_0000) ==> |Each(InlineOutput, outputs)| < |Each(OutputRecord, outputs)|
    ensures Bounded(outputs, 0x1_0000_0000) ==> Each(InlineOutput, outputs) == Each(OutputRecord, outputs)
  {
    hide InlineLength, CompactSize, Le;
    if outputs != [] {
      InlineLengths(outputs[1..]);
      var n := |outputs[0].scriptPubkey|;
      InlineLengthShorter(n);
      InlineLengthExact(n);
      if Bounded(outputs, 0x1_0000_0000) {
        Associate(Le(outputs[0].value, 8), CompactSize(n), outputs[0].scriptPubkey);
        assert Bounded(outputs[1..], 0x1_0000_0000);
      } else if n < 0x1_0000_0000 {
        assert outputs == [outputs[0]] + outputs[1..];
        assert !Bounded(outputs[1..], 0x1_0000_0000);
      }
    }
  }

  /** The outputs that BIP143 hashes are byte for byte the ones broadcast, exactly when every script is
      shorter than 2^32. */
  lemma HashedOutputsAreBroadcast(outputs: seq<TxOutput>)
    ensures Each(InlineOutput, outputs) == Each(OutputRecord, outputs) <==> Bounded(outputs, 0x1_0000_0000)
  {
    hide Each, InlineOutput, OutputRecord;
    InlineLengths(outputs);
  }

  // ----- the hashed form as far as it can be read back -----

  /** The least length of a script that makes the hashed form ambiguous: 2^32 + 2^16. */
  const AMBIGUOUS := 0x1_0001_0000

  /** A short script is never written with a four-byte number below 2^16, so that form stands for 2^32 and more. */
  function TakeInlineLength(s: Bytes): Option<(nat, Bytes)> {
    if s == [] then None
    else if s[0] < 0xfd then Some((s[0], s[1..]))
    else if s[0] == 0xfd then TakeNumber(s[1..], 2)
    else
      match TakeNumber(s[1..], 4)
      case None => None
      case Some((n, rest)) => Some((if n < 0x1_0000 then n + 0x1_0000_0000 else n, rest))
  }

  function TakeInlineOutput(s: Bytes): Option<(ReadOutput, Bytes)> {
    match TakeNumber(s, 8)
    case None => None
    case Some((value, s1)) =>
      match TakeInlineLength(s1)
      case None => None
      case Some((n, s2)) =>
        match Take(s2, n)
        case None => None
        case Some((script, s3)) => Some((ReadOutput(value, script), s3))
  }

  lemma InlineLengthInverts(n: u64, rest: Bytes)
    requires n < AMBIGUOUS
    ensures TakeInlineLength(InlineLength(n) + rest) == Some((n, rest))
  {
    hide Le, TakeNumber;
    var s := InlineLength(n) + rest;
    if n < 0xfd {
      assert s[1..] == rest;
    } else if n <= 0xffff {
      assert s[1..] == Le(n, 2) + rest;
      NumberInverts(n, 2, rest);
    } else {
      var low := n % 0x1_0000_0000;
      assert low == if n < 0x1_0000_0000 then n else n - 0x1_0000_0000;
      assert s[1..] == Le(low, 4) + rest;
      NumberInverts(low, 4, rest);
    }
  }

  lemma InlineOutputInverts(output: TxOutput)
    requires |output.scriptPubkey| < AMBIGUOUS
    ensures Inverts(TakeInlineOutput, InlineOutput, ViewOutput, output) && InlineOutput(output) != []
  {
    hide Le, TakeNumber, TakeInlineLength, InlineLength, Take;
    var n, script := |output.scriptPubkey|, output.scriptPubkey;
    forall rest: Bytes
      ensures TakeInlineOutput(InlineOutput(output) + rest) == Some((ViewOutput(output), rest))
    {
      var s2 := script + rest;
      assert InlineOutput(output) + rest == Le(output.value, 8) + (InlineLength(n) + s2);
      NumberInverts(output.value, 8, InlineLength(n) + s2);
      InlineLengthInverts(n, s2);
      TakeConcat(script, rest);
    }
    assert |Le(output.value, 8)| == 8;
  }

  lemma InlineOutputsBind(xs: seq<TxOutput>, ys: seq<TxOutput>)
    requires Bounded(xs, AMBIGUOUS) && Bounded(ys, AMBIGUOUS)
    requires Each(InlineOutput, xs) == Each(InlineOutput, ys)
    ensures xs == ys
  {
    hide Each, Inverts, InlineOutput;
    forall x | x in xs || x in ys
      ensures Inverts(TakeInlineOutput, InlineOutput, ViewOutput, x) && InlineOutput(x) != []
    {
      InlineOutputInverts(x);
    }
    EachInjective(TakeInlineOutput, InlineOutput, ViewOutput, xs, ys);
    SameViews(xs, ys);
  }

  lemma SameViews(xs: seq<TxOutput>, ys: seq<TxOutput>)
    requires Map(ViewOutput, xs) == Map(ViewOutput, ys)
    ensures xs == ys
  {
    assert |xs| == |Map(ViewOutput, xs)| == |ys|;
    forall i | 0 <= i < |xs|
      ensures xs[i] == ys[i]
    {
      assert ViewOutput(xs[i]) == Map(ViewOutput, xs)[i] == Map(ViewOutput, ys)[i] == ViewOutput(ys[i]);
    }
  }

  // ----- past that length it is ambiguous -----

  /** One script of 2^32 + 2^16 bytes that swallows the record of a second output, against the two outputs. */
  lemma LongScriptsAmbiguous(value: u64) returns (a: Outputs, b: Outputs)
    requires value != 0
    ensures a != b && NoZeroOutput(a) && NoZeroOutput(b)
    ensures Bounded(a, AMBIGUOUS + 1) && Bounded(b, AMBIGUOUS + 1)
    ensures Each(InlineOutput, a) == Each(InlineOutput, b)
  {
    hide Le, Each, Zeros;
    var swallowed := TxOutput(1, Zeros(0x1_0000_0000 - 13));
    var tail := InlineOutput(swallowed);
    assert |tail| == 0x1_0000_0000;
    var short: Blob := Zeros(0x1_0000);
    var long: Blob := short + tail;
    a := [TxOutput(value, long)];
    b := [TxOutput(value, short), swallowed];
    EachOfOne(TxOutput(value, long));
    EachOfCons(TxOutput(value, short), [swallowed]);
    EachOfOne(swallowed);
    assert b == [TxOutput(value, short)] + [swallowed];
    assert InlineLength(|long|) == InlineLength(|short|);
    assert InlineOutput(TxOutput(value, long)) == InlineOutput(TxOutput(value, short)) + tail;
  }

  lemma EachOfOne(x: TxOutput)
    ensures Each(InlineOutput, [x]) == InlineOutput(x)
  {
    EachOfCons(x, []);
    assert [x] + [] == [x];
  }

  lemma EachOfCons(x: TxOutput, xs: seq<TxOutput>)
    ensures Each(InlineOutput, [x] + xs) == InlineOutput(x) + Each(InlineOutput, xs)
  {
    assert ([x] + xs)[1..] == xs;
  }

  /** Below n the hashed form determines the outputs. */
  ghost predicate HashedFormBinds(n: nat) {
    forall a: Outputs, b: Outputs | Bounded(a, n) && Bounded(b, n) && Each(InlineOutput, a) == Each(InlineOutput, b) :: a == b
  }

  /** The exact bound: the hashed form determines the outputs exactly up to scripts shorter than 2^32 + 2^16. */
  lemma HashedFormBindsExactly(n: nat)
    ensures HashedFormBinds(n) <==> n <= AMBIGUOUS
  {
    hide Each, InlineOutput;
    if n <= AMBIGUOUS {
      forall a: Outputs, b: Outputs | Bounded(a, n) && Bounded(b, n) && Each(InlineOutput, a) == Each(InlineOutput, b)
        ensures a == b
      {
        InlineOutputsBind(a, b);
      }
    } else {
      var a, b := LongScriptsAmbiguous(1);
      assert Bounded(a, n) && Bounded(b, n);
    }
  }

  // ----- lists behind one hash -----

  function TakeOutpoint(s: Bytes): Option<((Bytes, nat), Bytes)> {
    match Take(s, 32)
    case None => None
    case Some((txid, s1)) =>
      match TakeNumber(s1, 4)
      case None => None
      case Some((vout, s2)) => Some(((txid, vout), s2))
  }

  function Take4(s: Bytes): Option<(nat, Bytes)> { TakeNumber(s, 4) }

  function Take8(s: Bytes): Option<(nat, Bytes)> { TakeNumber(s, 8) }

  function OutpointOf(input: TxInput): (Bytes, nat) { (input.txid, input.vout) }

  function SequenceOf(input: TxInput): nat { input.sequence }

  function AmountOf(input: TxInput): nat { input.value }

  function ScriptOf(input: TxInput): Bytes { input.scriptPubkey }

  lemma OutpointInverts(input: TxInput)
    ensures Inverts(TakeOutpoint, Outpoint, OutpointOf, input) && Outpoint(input) != []
  {
    hide Le, TakeNumber, Take;
    forall rest: Bytes
      ensures TakeOutpoint(Outpoint(input) + rest) == Some((OutpointOf(input), rest))
    {
      Associate(input.txid, Le(input.vout, 4), rest);
      TakeConcat(input.txid, Le(input.vout, 4) + rest);
      NumberInverts(input.vout, 4, rest);
    }
  }

  lemma FieldInverts(input: TxInput)
    ensures Inverts(Take4, Sequence, SequenceOf, input) && Sequence(input) != []
    ensures Inverts(Take8, Amount, AmountOf, input) && Amount(input) != []
    ensures Inverts(TakeSized, Script, ScriptOf, input) && Script(input) != []
  {
    hide Le, TakeNumber, TakeSized;
    forall rest: Bytes
      ensures Take4(Sequence(input) + rest) == Some((SequenceOf(input), rest))
      ensures Take8(Amount(input) + rest) == Some((AmountOf(input), rest))
      ensures TakeSized(Script(input) + rest) == Some((ScriptOf(input), rest))
    {
      NumberInverts(input.sequence, 4, rest);
      NumberInverts(input.value, 8, rest);
      SizedInverts(input.scriptPubkey, rest);
    }
    assert |Sequence(input)| == 4 && |Amount(input)| == 8;
  }

  lemma OutpointsBind(xs: seq<TxInput>, ys: seq<TxInput>)
    requires Each(Outpoint, xs) == Each(Outpoint, ys)
    ensures Map(OutpointOf, xs) == Map(OutpointOf, ys)
  {
    hide Each, Inverts;
    forall x: TxInput
      ensures Inverts(TakeOutpoint, Outpoint, OutpointOf, x) && Outpoint(x) != []
    {
      OutpointInverts(x);
    }
    EachInjective(TakeOutpoint, Outpoint, OutpointOf, xs, ys);
  }

  lemma SequencesBind(xs: seq<TxInput>, ys: seq<TxInput>)
    requires Each(Sequence, xs) == Each(Sequence, ys)
    ensures Map(SequenceOf, xs) == Map(SequenceOf, ys)
  {
    hide Each, Inverts;
    forall x: TxInput
      ensures Inverts(Take4, Sequence, SequenceOf, x) && Sequence(x) != []
    {
      FieldInverts(x);
    }
    EachInjective(Take4, Sequence, SequenceOf, xs, ys);
  }

  lemma AmountsBind(xs: seq<TxInput>, ys: seq<TxInput>)
    requires Each(Amount, xs) == Each(Amount, ys)
    ensures Map(AmountOf, xs) == Map(AmountOf, ys)
  {
    hide Each, Inverts;
    forall x: TxInput
      ensures Inverts(Take8, Amount, AmountOf, x) && Amount(x) != []
    {
      FieldInverts(x);
    }
    EachInjective(Take8, Amount, AmountOf, xs, ys);
  }

  lemma ScriptsBind(xs: seq<TxInput>, ys: seq<TxInput>)
    requires Each(Script, xs) == Each(Script, ys)
    ensures Map(ScriptOf, xs) == Map(ScriptOf, ys)
  {
    hide Each, Inverts;
    forall x: TxInput
      ensures Inverts(TakeSized, Script, ScriptOf, x) && Script(x) != []
    {
      FieldInverts(x);
    }
    EachInjective(TakeSized, Script, ScriptOf, xs, ys);
  }

  lemma OutputsBind(xs: seq<TxOutput>, ys: seq<TxOutput>)
    requires Each(OutputRecord, xs) == Each(OutputRecord, ys)
    ensures xs == ys
  {
    hide Each, Inverts;
    forall x: TxOutput
      ensures Inverts(TakeOutput, OutputRecord, ViewOutput, x) && OutputRecord(x) != []
    {
      OutputInverts(x);
      assert |Le(x.value, 8)| == 8;
    }
    EachInjective(TakeOutput, OutputRecord, ViewOutput, xs, ys);
    SameViews(xs, ys);
  }

  // ----- collisions as evidence -----

  type Pairs = seq<(Bytes, Bytes)>

  predicate SomeCollision(f: Bytes -> Bytes, pairs: Pairs) {
    exists k :: 0 <= k < |pairs| && Collides(f, pairs[k].0, pairs[k].1)
  }

  function DoublePairs(h: Hashes, x: Bytes, y: Bytes): (pairs: Pairs)
    ensures |pairs| == 2
  {
    [(x, y), (h.sha256(x), h.sha256(y))]
  }

  lemma DoubleBinds(h: Hashes, x: Bytes, y: Bytes)
    requires DoubleSha256(h, x) == DoubleSha256(h, y)
    ensures x == y || SomeCollision(h.sha256, DoublePairs(h, x, y))
  {
    var pairs := DoublePairs(h, x, y);
    if x != y {
      if h.sha256(x) == h.sha256(y) {
        assert Collides(h.sha256, pairs[0].0, pairs[0].1);
      } else {
        assert Collides(h.sha256, pairs[1].0, pairs[1].1);
      }
    }
  }

  lemma MoreEvidence(f: Bytes -> Bytes, a: Pairs, b: Pairs, c: Pairs)
    ensures SomeCollision(f, b) ==> SomeCollision(f, a + b + c)
  {
    if k :| 0 <= k < |b| && Collides(f, b[k].0, b[k].1) {
      assert (a + b + c)[|a| + k] == b[k];
    }
  }

  // ----- BIP143 -----

  /** The message's fields, at the offsets that BIP143 gives them. */
  lemma Bip143Layout(h: Hashes, tx: UnsignedTx, index: nat, pubkey: Pubkey)
    requires h.Sized() && index < |tx.inputs|
    ensures var m := SegwitPreimage(h, tx, index, pubkey);
            && |m| == 182
            && m[0..4] == Le(tx.version, 4)
            && m[4..36] == h.sha256(h.sha256(Each(Outpoint, tx.inputs)))
            && m[36..68] == h.sha256(h.sha256(Each(Sequence, tx.inputs)))
            && m[68..104] == Outpoint(tx.inputs[index])
            && m[104..130] == [0x19, 0x76, 0xa9, 0x14] + h.ripemd160(h.sha256(pubkey)) + [0x88, 0xac]
            && m[130..138] == Le(tx.inputs[index].value, 8)
            && m[138..142] == Le(tx.inputs[index].sequence, 4)
            && m[142..174] == h.sha256(h.sha256(Each(InlineOutput, tx.outputs)))
            && m[174..178] == Le(tx.locktime, 4)
            && m[178..182] == [1, 0, 0, 0]
  {
    hide Each, DoubleSha256, Hash160, Outpoint, Le, P2pkhScript;
    HashesAre(h, Each(Outpoint, tx.inputs), pubkey);
    HashesAre(h, Each(Sequence, tx.inputs), pubkey);
    HashesAre(h, Each(InlineOutput, tx.outputs), pubkey);
    ScriptCode(Hash160(h, pubkey));
    DigestLengths(h, Each(Outpoint, tx.inputs), pubkey);
    DigestLengths(h, Each(Sequence, tx.inputs), pubkey);
    DigestLengths(h, Each(InlineOutput, tx.outputs), pubkey);
    OutpointLength(tx.inputs[index]);
    One();
    var input := tx.inputs[index];
    TenFields(Le(tx.version, 4), DoubleSha256(h, Each(Outpoint, tx.inputs)), DoubleSha256(h, Each(Sequence, tx.inputs)),
              Outpoint(input), [25] + P2pkhScript(Hash160(h, pubkey)), Le(input.value, 8), Le(input.sequence, 4),
              DoubleSha256(h, Each(InlineOutput, tx.outputs)), Le(tx.locktime, 4), Le(1, 4));
  }

  lemma HashesAre(h: Hashes, x: Bytes, y: Bytes)
    ensures DoubleSha256(h, x) == h.sha256(h.sha256(x)) && Hash160(h, y) == h.ripemd160(h.sha256(y))
  {
  }

  /** The BIP143 digest is SHA-256 twice over the message, and the BIP341 digest the tagged hash of BIP340 with the tag
      TapSighash; the latter fails for an index or a script that is missing. */
  lemma DigestsAre(h: Hashes, tx: UnsignedTx, index: nat, pubkey: Pubkey)
    requires h.Sized()
    ensures index < |tx.inputs| ==>
              SegwitSighash(h, tx, index, pubkey) == h.sha256(h.sha256(SegwitPreimage(h, tx, index, pubkey)))
    ensures TaprootSighash(h, tx, index) ==
            if index >= |tx.inputs| then Err(IndexOutOfRange)
            else if exists i :: 0 <= i < |tx.inputs| && tx.inputs[i].scriptPubkey == [] then Err(MissingScript)
            else Ok(h.sha256(h.sha256(AsciiBytes("TapSighash")) + h.sha256(AsciiBytes("TapSighash")) + TaprootPreimage(h, tx, index)))
  {
    hide SegwitPreimage, TaprootPreimage;
    assert TAG_SIGHASH == AsciiBytes("TapSighash");
  }

  /** When signing succeeds, and with which error it fails. */
  lemma SegwitSigns(h: Hashes, sign: Bytes -> Option<Der>, pubkey: Pubkey, tx: UnsignedTx)
    requires h.Sized()
    ensures var r := SignedSegwit(h, sign, pubkey, tx);
            if exists i :: 0 <= i < |tx.outputs| && tx.outputs[i].value == 0 then r == Err(ZeroValueOutput)
            else if exists i :: 0 <= i < |tx.inputs| && sign(SegwitSighash(h, tx, i, pubkey)) == None then r == Err(SigningFailed)
            else r.Ok?
  {
    hide SegwitSighash, Serialized, Stacks, Each;
    SegwitSignaturesExist(h, sign, pubkey, tx, |tx.inputs|);
  }

  lemma {:induction false} SegwitSignaturesExist(h: Hashes, sign: Bytes -> Option<Der>, pubkey: Pubkey, tx: UnsignedTx, n: nat)
    requires h.Sized() && n <= |tx.inputs|
    ensures SegwitSignatures(h, sign, pubkey, tx, n).Some?
            <==> forall i | 0 <= i < n :: sign(SegwitSighash(h, tx, i, pubkey)) != None
  {
    hide SegwitSighash;
    if n > 0 {
      SegwitSignaturesExist(h, sign, pubkey, tx, n - 1);
    }
  }

  lemma TaprootSigns(h: Hashes, sign: Bytes -> Option<Schnorr>, tx: UnsignedTx)
    ensures var r := SignedTaproot(h, sign, tx);
            if exists i :: 0 <= i < |tx.outputs| && tx.outputs[i].value == 0 then r == Err(ZeroValueOutput)
            else if exists i :: 0 <= i < |tx.inputs| && tx.inputs[i].scriptPubkey == [] then r == Err(MissingScript)
            else if exists i :: 0 <= i < |tx.inputs| && sign(TaprootSighash(h, tx, i).value) == None then r == Err(SigningFailed)
            else r.Ok?
  {
    hide Serialized, Each, TaggedHash, TaprootPreimage;
    TaprootSignaturesExist(h, sign, tx, |tx.inputs|);
  }

  lemma {:induction false} TaprootSignaturesExist(h: Hashes, sign: Bytes -> Option<Schnorr>, tx: UnsignedTx, n: nat)
    requires n <= |tx.inputs|
    ensures var r := TaprootSignatures(h, sign, tx, n);
            if n > 0 && !ScriptsPresent(tx.inputs) then r == Err(MissingScript)
            else if exists i :: 0 <= i < n && sign(TaprootSighash(h, tx, i).value) == None then r == Err(SigningFailed)
            else r.Ok?
  {
    hide TaggedHash, TaprootPreimage, ScriptsPresent;
    if n > 0 {
      TaprootSignaturesExist(h, sign, tx, n - 1);
    }
  }

  lemma FiveFields(a: Bytes, b: Bytes, c: Bytes, d: Bytes, e: Bytes, pre: Bytes, post: Bytes)
    ensures var i, m := |pre|, pre + (a + b + c + d + e) + post;
            var j, k := i + |a|, i + |a| + |b|;
            var l, n := k + |c|, k + |c| + |d|;
            && |m| == n + |e| + |post|
            && m[i..j] == a && m[j..k] == b && m[k..l] == c && m[l..n] == d && m[n..n + |e|] == e
  {
  }

  lemma TenFields(a: Bytes, b: Bytes, c: Bytes, d: Bytes, e: Bytes, f: Bytes, g: Bytes, h: Bytes, i: Bytes, j: Bytes)
    requires |a| == 4 && |b| == |c| == 32 && |d| == 36 && |e| == 26
    requires |f| == 8 && |g| == 4 && |h| == 32 && |i| == |j| == 4
    ensures var m := a + b + c + d + e + f + g + h + i + j;
            && |m| == 182
            && m[0..4] == a && m[4..36] == b && m[36..68] == c && m[68..104] == d && m[104..130] == e
            && m[130..138] == f && m[138..142] == g && m[142..174] == h && m[174..178] == i && m[178..182] == j
  {
    var front, back := a + b + c + d + e, f + g + h + i + j;
    JoinTwo(front, f, g, h, i, j);
    FiveFields(a, b, c, d, e, [], back);
    FiveFields(f, g, h, i, j, front, []);
  }

  lemma JoinTwo(front: Bytes, f: Bytes, g: Bytes, h: Bytes, i: Bytes, j: Bytes)
    ensures front + f + g + h + i + j == [] + front + (f + g + h + i + j)
    ensures front + f + g + h + i + j == front + (f + g + h + i + j) + []
  {
    Associate(front, f, g);
    Associate(front, f + g, h);
    Associate(front, f + g + h, i);
    Associate(front, f + g + h + i, j);
    assert [] + front == front;
    assert front + (f + g + h + i + j) + [] == front + (f + g + h + i + j);
  }

  lemma ScriptCode(hash: Bytes)
    ensures [25] + P2pkhScript(hash) == [0x19, 0x76, 0xa9, 0x14] + hash + [0x88, 0xac]
  {
  }

  lemma DigestLengths(h: Hashes, x: Bytes, y: Bytes)
    requires h.Sized()
    ensures |DoubleSha256(h, x)| == 32 && |Hash160(h, y)| == 20
  {
  }

  lemma OutpointLength(input: TxInput)
    ensures |Outpoint(input)| == 36
  {
  }

  lemma One()
    ensures Le(1, 4) == [1, 0, 0, 0]
  {
    assert Le(1, 4) == [1] + ([0] + ([0] + ([0] + Le(0, 0))));
  }

  function SegwitEvidence(h: Hashes, t: UnsignedTx, i: nat, p: Pubkey, u: UnsignedTx, j: nat, q: Pubkey): Pairs
    requires h.Sized() && i < |t.inputs| && j < |u.inputs|
  {
    DoublePairs(h, SegwitPreimage(h, t, i, p), SegwitPreimage(h, u, j, q))
    + DoublePairs(h, Each(Outpoint, t.inputs), Each(Outpoint, u.inputs))
    + DoublePairs(h, Each(Sequence, t.inputs), Each(Sequence, u.inputs))
    + DoublePairs(h, Each(InlineOutput, t.outputs), Each(InlineOutput, u.outputs))
  }

  predicate SegwitAgree(h: Hashes, t: UnsignedTx, i: nat, p: Pubkey, u: UnsignedTx, j: nat, q: Pubkey)
    requires i < |t.inputs| && j < |u.inputs|
  {
    && t.version == u.version && t.locktime == u.locktime
    && Map(OutpointOf, t.inputs) == Map(OutpointOf, u.inputs)
    && Map(SequenceOf, t.inputs) == Map(SequenceOf, u.inputs)
    && t.outputs == u.outputs
    && OutpointOf(t.inputs[i]) == OutpointOf(u.inputs[j])
    && t.inputs[i].value == u.inputs[j].value
    && t.inputs[i].sequence == u.inputs[j].sequence
    && Hash160(h, p) == Hash160(h, q)
  }

  /** Equal preimages agree on their fields, as far as these are spelled out rather than hashed. */
  lemma PreimageFields(h: Hashes, t: UnsignedTx, i: nat, p: Pubkey, u: UnsignedTx, j: nat, q: Pubkey)
    requires h.Sized() && i < |t.inputs| && j < |u.inputs|
    requires SegwitPreimage(h, t, i, p) == SegwitPreimage(h, u, j, q)
    ensures t.version == u.version && t.locktime == u.locktime
    ensures OutpointOf(t.inputs[i]) == OutpointOf(u.inputs[j])
    ensures t.inputs[i].value == u.inputs[j].value && t.inputs[i].sequence == u.inputs[j].sequence
    ensures Hash160(h, p) == Hash160(h, q)
    ensures DoubleSha256(h, Each(Outpoint, t.inputs)) == DoubleSha256(h, Each(Outpoint, u.inputs))
    ensures DoubleSha256(h, Each(Sequence, t.inputs)) == DoubleSha256(h, Each(Sequence, u.inputs))
    ensures DoubleSha256(h, Each(InlineOutput, t.outputs)) == DoubleSha256(h, Each(InlineOutput, u.outputs))
  {
    hide SegwitPreimage, Each, Le;
    Bip143Layout(h, t, i, p);
    Bip143Layout(h, u, j, q);
    LeInjective(t.version, u.version, 4);
    LeInjective(t.locktime, u.locktime, 4);
    LeInjective(t.inputs[i].value, u.inputs[j].value, 8);
    LeInjective(t.inputs[i].sequence, u.inputs[j].sequence, 4);
    SplitAt(t.inputs[i].txid, Le(t.inputs[i].vout, 4), u.inputs[j].txid, Le(u.inputs[j].vout, 4));
    LeInjective(t.inputs[i].vout, u.inputs[j].vout, 4);
    DigestLengths(h, [], p);
    DigestLengths(h, [], q);
    var a: Bytes := [0x19, 0x76, 0xa9, 0x14];
    SplitAt(a + Hash160(h, p), [0x88, 0xac], a + Hash160(h, q), [0x88, 0xac]);
    SplitAt(a, Hash160(h, p), a, Hash160(h, q));
  }

  lemma SegwitBinding(h: Hashes, t: UnsignedTx, i: nat, p: Pubkey, u: UnsignedTx, j: nat, q: Pubkey)
    requires h.Sized() && i < |t.inputs| && j < |u.inputs|
    requires Bounded(t.outputs, AMBIGUOUS) && Bounded(u.outputs, AMBIGUOUS)
    requires SegwitSighash(h, t, i, p) == SegwitSighash(h, u, j, q)
    ensures SegwitAgree(h, t, i, p, u, j, q) || SomeCollision(h.sha256, SegwitEvidence(h, t, i, p, u, j, q))
  {
    hide SegwitPreimage, Each, DoubleSha256, SomeCollision, DoublePairs, Bounded;
    var m, n := SegwitPreimage(h, t, i, p), SegwitPreimage(h, u, j, q);
    var e0 := DoublePairs(h, m, n);
    var e1 := DoublePairs(h, Each(Outpoint, t.inputs), Each(Outpoint, u.inputs));
    var e2 := DoublePairs(h, Each(Sequence, t.inputs), Each(Sequence, u.inputs));
    var e3 := DoublePairs(h, Each(InlineOutput, t.outputs), Each(InlineOutput, u.outputs));
    assert SegwitEvidence(h, t, i, p, u, j, q) == e0 + e1 + e2 + e3;
    FourParts(h.sha256, e0, e1, e2, e3);
    DoubleBinds(h, m, n);
    if m == n {
      PreimageFields(h, t, i, p, u, j, q);
      DoubleBinds(h, Each(Outpoint, t.inputs), Each(Outpoint, u.inputs));
      DoubleBinds(h, Each(Sequence, t.inputs), Each(Sequence, u.inputs));
      DoubleBinds(h, Each(InlineOutput, t.outputs), Each(InlineOutput, u.outputs));
      if !SomeCollision(h.sha256, e1) && !SomeCollision(h.sha256, e2) && !SomeCollision(h.sha256, e3) {
        OutpointsBind(t.inputs, u.inputs);
        SequencesBind(t.inputs, u.inputs);
        InlineOutputsBind(t.outputs, u.outputs);
      }
    }
  }

  /** One byte more and the digest binds no longer: any transaction signs alike with either of two output lists. */
  lemma SegwitBindingFails(h: Hashes, t: UnsignedTx, i: nat, p: Pubkey) returns (a: Outputs, b: Outputs)
    requires h.Sized() && i < |t.inputs|
    ensures a != b && NoZeroOutput(a) && NoZeroOutput(b)
    ensures Bounded(a, AMBIGUOUS + 1) && Bounded(b, AMBIGUOUS + 1)
    ensures SegwitSighash(h, t.(outputs := a), i, p) == SegwitSighash(h, t.(outputs := b), i, p)
  {
    hide Each, DoubleSha256, Le, Bounded, NoZeroOutput;
    a, b := LongScriptsAmbiguous(1);
  }

  lemma FourParts(f: Bytes -> Bytes, a: Pairs, b: Pairs, c: Pairs, d: Pairs)
    ensures SomeCollision(f, a) || SomeCollision(f, b) || SomeCollision(f, c) || SomeCollision(f, d)
            ==> SomeCollision(f, a + b + c + d)
  {
    hide SomeCollision;
    MoreEvidence(f, [], a, b + c + d);
    MoreEvidence(f, a, b, c + d);
    MoreEvidence(f, a + b, c, d);
    MoreEvidence(f, a + b + c, d, []);
    assert [] + a + (b + c + d) == a + b + c + d;
    assert a + b + (c + d) == a + b + c + d;
    assert a + b + c + d + [] == a + b + c + d;
  }

  // ----- BIP341 -----

  /** The message's fields, at the offsets that BIP341 gives them for a key-path spend without annex. */
  lemma Bip341Layout(h: Hashes, tx: UnsignedTx, index: nat)
    requires h.Sized()
    ensures var m := TaprootPreimage(h, tx, index);
            && |m| == 175
            && m[0..2] == [0x00, 0x00]
            && m[2..6] == Le(tx.version, 4)
            && m[6..10] == Le(tx.locktime, 4)
            && m[10..42] == h.sha256(Each(Outpoint, tx.inputs))
            && m[42..74] == h.sha256(Each(Amount, tx.inputs))
            && m[74..106] == h.sha256(Each(Script, tx.inputs))
            && m[106..138] == h.sha256(Each(Sequence, tx.inputs))
            && m[138..170] == h.sha256(Each(OutputRecord, tx.outputs))
            && m[170..171] == [0x00]
            && m[171..175] == Le(index % 0x1_0000_0000, 4)
  {
    hide Each, Le;
  }

  function TaprootEvidence(h: Hashes, t: UnsignedTx, i: nat, u: UnsignedTx, j: nat): Pairs {
    [(Tagged(h, TAG_SIGHASH, TaprootPreimage(h, t, i)), Tagged(h, TAG_SIGHASH, TaprootPreimage(h, u, j))),
     (Each(Outpoint, t.inputs), Each(Outpoint, u.inputs)),
     (Each(Amount, t.inputs), Each(Amount, u.inputs)),
     (Each(Script, t.inputs), Each(Script, u.inputs)),
     (Each(Sequence, t.inputs), Each(Sequence, u.inputs)),
     (Each(OutputRecord, t.outputs), Each(OutputRecord, u.outputs))]
  }

  predicate TaprootAgree(t: UnsignedTx, i: nat, u: UnsignedTx, j: nat) {
    && t.version == u.version && t.locktime == u.locktime
    && Map(OutpointOf, t.inputs) == Map(OutpointOf, u.inputs)
    && Map(AmountOf, t.inputs) == Map(AmountOf, u.inputs)
    && Map(ScriptOf, t.inputs) == Map(ScriptOf, u.inputs)
    && Map(SequenceOf, t.inputs) == Map(SequenceOf, u.inputs)
    && t.outputs == u.outputs
    // The index is written as a u32.
    && i % 0x1_0000_0000 == j % 0x1_0000_0000
  }

  lemma TaprootFields(h: Hashes, t: UnsignedTx, i: nat, u: UnsignedTx, j: nat)
    requires h.Sized() && TaprootPreimage(h, t, i) == TaprootPreimage(h, u, j)
    ensures t.version == u.version && t.locktime == u.locktime
    ensures i % 0x1_0000_0000 == j % 0x1_0000_0000
    ensures h.sha256(Each(Outpoint, t.inputs)) == h.sha256(Each(Outpoint, u.inputs))
    ensures h.sha256(Each(Amount, t.inputs)) == h.sha256(Each(Amount, u.inputs))
    ensures h.sha256(Each(Script, t.inputs)) == h.sha256(Each(Script, u.inputs))
    ensures h.sha256(Each(Sequence, t.inputs)) == h.sha256(Each(Sequence, u.inputs))
    ensures h.sha256(Each(OutputRecord, t.outputs)) == h.sha256(Each(OutputRecord, u.outputs))
  {
    hide TaprootPreimage, Each, Le;
    Bip341Layout(h, t, i);
    Bip341Layout(h, u, j);
    LeInjective(t.version, u.version, 4);
    LeInjective(t.locktime, u.locktime, 4);
    LeInjective(i % 0x1_0000_0000, j % 0x1_0000_0000, 4);
  }

  lemma TaprootBinding(h: Hashes, t: UnsignedTx, i: nat, u: UnsignedTx, j: nat)
    requires h.Sized()
    requires TaprootSighash(h, t, i).Ok? && TaprootSighash(h, t, i) == TaprootSighash(h, u, j)
    ensures TaprootAgree(t, i, u, j) || SomeCollision(h.sha256, TaprootEvidence(h, t, i, u, j))
    // An index is below 2^32 when the transaction has at most that many inputs.
    ensures TaprootAgree(t, i, u, j) && |t.inputs| <= 0x1_0000_0000 ==> i == j
  {
    hide TaprootPreimage, Each, ScriptsPresent;
    assert i < |t.inputs| && j < |u.inputs|;
    assert |t.inputs| == |Map(OutpointOf, t.inputs)| && |u.inputs| == |Map(OutpointOf, u.inputs)|;
    var e := TaprootEvidence(h, t, i, u, j);
    if !SomeCollision(h.sha256, e) {
      forall k | 0 <= k < 6
        ensures h.sha256(e[k].0) == h.sha256(e[k].1) ==> e[k].0 == e[k].1
      {
        assert !Collides(h.sha256, e[k].0, e[k].1);
      }
      assert e[0].0 == e[0].1;
      var tag := h.sha256(TAG_SIGHASH) + h.sha256(TAG_SIGHASH);
      SplitAt(tag, TaprootPreimage(h, t, i), tag, TaprootPreimage(h, u, j));
      TaprootFields(h, t, i, u, j);
      assert e[1].0 == e[1].1 && e[2].0 == e[2].1 && e[3].0 == e[3].1 && e[4].0 == e[4].1 && e[5].0 == e[5].1;
      OutpointsBind(t.inputs, u.inputs);
      AmountsBind(t.inputs, u.inputs);
      ScriptsBind(t.inputs, u.inputs);
      SequencesBind(t.inputs, u.inputs);
      OutputsBind(t.outputs, u.outputs);
    }
  }
}
