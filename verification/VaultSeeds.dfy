/** The seeds of a vault one by one, with their labels as texts. */
module VaultSeeds {
  import opened Bytes
  import opened Clamping
  import opened Text
  import opened VaultContext

  /** HKDF of the root, on a label alone for the empty context and otherwise on label, colon and context. */
  function Output(k: Kdf, root: Bytes, name: string, context: Bytes, n: nat): Bytes {
    k.hkdf(root, AsciiBytes("ACEGF-REV32-V1-" + name) + if context == [] then [] else [0x3a] + context, n)
  }

  function Scalar(k: Kdf, raw: Bytes): Bytes {
    if k.validScalar(raw) then raw else k.sha256(raw)
  }

  lemma InfoIs(s: Scheme, name: string, context: Bytes)
    requires LabelSuffix(s) == name
    ensures InfoOf(LabelOf(s), context)
         == AsciiBytes("ACEGF-REV32-V1-" + name) + if context == [] then [] else [0x3a] + context
  {
    hide LabelSuffix, AsciiBytes;
    var l := AsciiBytes("ACEGF-REV32-V1-" + name);
    assert l + [] == l;
    assert l + [COLON] + context == l + ([0x3a] + context);
  }

  lemma PlainSeed(k: Kdf, root: Bytes, s: Scheme, name: string, context: Bytes)
    requires k.Sized() && LabelSuffix(s) == name && s != X25519Identity && !OnSecp256k1(s)
    ensures DeriveSeed(k, root, s, context) == Output(k, root, name, context, SeedLength(s))
  {
    hide InfoOf, LabelOf, AsciiBytes, LabelSuffix;
    InfoIs(s, name, context);
  }

  lemma ScalarSeed(k: Kdf, root: Bytes, s: Scheme, name: string, context: Bytes)
    requires k.Sized() && LabelSuffix(s) == name && OnSecp256k1(s)
    ensures DeriveSeed(k, root, s, context) == Scalar(k, Output(k, root, name, context, 32))
  {
    hide InfoOf, LabelOf, AsciiBytes, LabelSuffix;
    InfoIs(s, name, context);
  }

  lemma X25519Seed(k: Kdf, root: Bytes, context: Bytes)
    requires k.Sized()
    ensures AreClamped(DeriveSeed(k, root, X25519Identity, context), Output(k, root, "X25519-IDENTITY", context, 32))
  {
    hide InfoOf, LabelOf, AsciiBytes, AreClamped, Clamped;
    InfoIs(X25519Identity, "X25519-IDENTITY", context);
    ClampedBits(RawSeed(k, root, X25519Identity, context));
  }

  /** Every field of the seeds is the HKDF output on its own label: clamped for X25519, replaced by its SHA-256 for an
      invalid secp256k1 scalar, and of 64 bytes for ML-KEM. */
  lemma SeedsByLabel(k: Kdf, root: Bytes, context: Bytes)
    requires k.Sized()
    ensures DeriveFromRev32WithContext(k, root, context).ed25519Solana
         == Output(k, root, "ED25519-SOLANA", context, 32)
    ensures DeriveFromRev32WithContext(k, root, context).ed25519Polkadot
         == Output(k, root, "ED25519-POLKADOT", context, 32)
    ensures DeriveFromRev32WithContext(k, root, context).secp256k1Evm
         == Scalar(k, Output(k, root, "SECP256K1-EVM", context, 32))
    ensures DeriveFromRev32WithContext(k, root, context).secp256k1Btc
         == Scalar(k, Output(k, root, "SECP256K1-BTC", context, 32))
    ensures DeriveFromRev32WithContext(k, root, context).secp256k1Cosmos
         == Scalar(k, Output(k, root, "SECP256K1-COSMOS", context, 32))
    ensures DeriveFromRev32WithContext(k, root, context).secp256k1Tron
         == Scalar(k, Output(k, root, "SECP256K1-TRON", context, 32))
    ensures AreClamped(DeriveFromRev32WithContext(k, root, context).x25519,
                       Output(k, root, "X25519-IDENTITY", context, 32))
    ensures DeriveFromRev32WithContext(k, root, context).mlDsa44
         == Output(k, root, "ML-DSA-44-PQC-IDENTITY", context, 32)
    ensures DeriveFromRev32WithContext(k, root, context).mlKem768
         == Output(k, root, "ML-KEM-768-PQC-IDENTITY", context, 64)
  {
    hide DeriveSeed, Output, Scalar, AreClamped;
    PlainSeed(k, root, Ed25519Solana, "ED25519-SOLANA", context);
    PlainSeed(k, root, Ed25519Polkadot, "ED25519-POLKADOT", context);
    ScalarSeed(k, root, Secp256k1Evm, "SECP256K1-EVM", context);
    ScalarSeed(k, root, Secp256k1Btc, "SECP256K1-BTC", context);
    ScalarSeed(k, root, Secp256k1Cosmos, "SECP256K1-COSMOS", context);
    ScalarSeed(k, root, Secp256k1Tron, "SECP256K1-TRON", context);
    X25519Seed(k, root, context);
    PlainSeed(k, root, MlDsa44, "ML-DSA-44-PQC-IDENTITY", context);
    PlainSeed(k, root, MlKem768, "ML-KEM-768-PQC-IDENTITY", context);
  }

  /** The relay seed, which is derived apart from the nine. */
  lemma RelaySeedByLabel(k: Kdf, root: Bytes, context: Bytes)
    requires k.Sized()
    ensures DeriveSeed(k, root, Ed25519Relay, context)
         == Output(k, root, "ED25519-MEMPOOL-ATTEST", context, 32)
  {
    PlainSeed(k, root, Ed25519Relay, "ED25519-MEMPOOL-ATTEST", context);
  }

  // ----- contexts spelled out -----

  lemma {:induction false} SmallerAt(a: Segment, b: Segment, i: nat)
    requires i < |a| && i < |b| && a[..i] == b[..i] && a[i] < b[i]
    ensures AtMost(a, b)
  {
    if i > 0 {
      assert a[0] == a[..i][0] == b[..i][0] == b[0];
      assert a[1..][..i - 1] == a[..i][1..] && b[1..][..i - 1] == b[..i][1..];
      SmallerAt(a[1..], b[1..], i - 1);
    }
  }

  lemma {:induction false} DiffersSomewhere(a: Segment, b: Segment) returns (i: nat)
    requires AtMost(a, b)
    ensures a <= b || (i < |a| && i < |b| && a[..i] == b[..i] && a[i] < b[i])
  {
    i := 0;
    if a != [] && a[0] == b[0] {
      var k := DiffersSomewhere(a[1..], b[1..]);
      assert a == [a[0]] + a[1..] && b == [b[0]] + b[1..];
      if !(a[1..] <= b[1..]) {
        i := k + 1;
        assert a[..i] == [a[0]] + a[1..][..k] && b[..i] == [b[0]] + b[1..][..k];
      }
    }
  }

  /** Lexicographic order: a prefix, or a smaller byte where the two first differ. */
  lemma OrderIsLexicographic(a: Segment, b: Segment)
    ensures AtMost(a, b) <==> a <= b || exists i :: 0 <= i < |a| && i < |b| && a[..i] == b[..i] && a[i] < b[i]
  {
    hide AtMost;
    if AtMost(a, b) {
      var i := DiffersSomewhere(a, b);
    }
    if a <= b {
      AtMostExtended(a, b[|a|..]);
      assert b == a + b[|a|..];
    } else if i :| 0 <= i < |a| && i < |b| && a[..i] == b[..i] && a[i] < b[i] {
      SmallerAt(a, b, i);
    }
  }

  /** Ascending byte by byte: each segment is a prefix of the next or smaller where they first differ. */
  predicate Ascending(ss: seq<Segment>) {
    forall i, j | 0 <= i < j < |ss| ::
      ss[i] <= ss[j]
      || exists k :: 0 <= k < |ss[i]| && k < |ss[j]| && ss[i][..k] == ss[j][..k] && ss[i][k] < ss[j][k]
  }

  lemma AscendingIsSorted(ss: seq<Segment>)
    requires Ascending(ss)
    ensures IsSorted(ss)
  {
    hide AtMost;
    forall i, j | 0 <= i < j < |ss|
      ensures AtMost(ss[i], ss[j])
    {
      OrderIsLexicographic(ss[i], ss[j]);
    }
  }

  /** The segments in ascending order with a colon after each but the last. */
  lemma ContextSpelled(segments: seq<Segment>, sorted: seq<Segment>)
    requires Ascending(sorted) && multiset(sorted) == multiset(segments)
    ensures BuildVaultContext(segments) == Joined(sorted)
  {
    hide IsSorted, Sort, Ascending;
    AscendingIsSorted(sorted);
    SortSorts(segments);
    SortedUnique(Sort(segments), sorted);
    assert |sorted| == |multiset(sorted)| == |segments|;
    if segments != [] {
      JoinedIs(sorted);
    }
  }

  function Joined(ss: seq<Segment>): Bytes {
    if ss == [] then [] else if |ss| == 1 then ss[0] else Joined(ss[..|ss| - 1]) + [0x3a] + ss[|ss| - 1]
  }

  lemma {:induction false} JoinedIs(ss: seq<Segment>)
    requires ss != []
    ensures Join(ss) == Joined(ss)
  {
    if |ss| > 1 {
      var n := |ss| - 1;
      JoinedIs(ss[..n]);
      JoinLast(ss[..n], ss[n]);
      assert ss == ss[..n] + [ss[n]];
    }
  }

  lemma {:induction false} JoinLast(ss: seq<Segment>, s: Segment)
    requires ss != []
    ensures Join(ss + [s]) == Join(ss) + [COLON] + s
  {
    if |ss| == 1 {
      assert (ss + [s])[1..] == [s];
    } else {
      assert (ss + [s])[1..] == ss[1..] + [s] && (ss + [s])[0] == ss[0];
      JoinLast(ss[1..], s);
    }
  }

  lemma AsciiConcat(a: string, b: string)
    ensures AsciiBytes(a + b) == AsciiBytes(a) + AsciiBytes(b)
  {
  }

  /** Three segments that their first bytes put in order. */
  lemma ThreeSegments(a: Segment, b: Segment, c: Segment, given: seq<Segment>)
    requires a != [] && b != [] && c != [] && a[0] < b[0] < c[0]
    requires multiset(given) == multiset{a, b, c}
    ensures BuildVaultContext(given) == a + ([0x3a] + (b + ([0x3a] + c)))
  {
    hide BuildVaultContext, Joined;
    assert a[..0] == b[..0] == c[..0];
    assert Ascending([a, b, c]);
    ContextSpelled(given, [a, b, c]);
    ThreeJoined(a, b, c);
  }

  lemma ThreeJoined(a: Segment, b: Segment, c: Segment)
    ensures Joined([a, b, c]) == a + ([0x3a] + (b + ([0x3a] + c)))
  {
    assert [a, b, c][..2] == [a, b] && [a, b][..1] == [a];
    assert Joined([a, b]) == a + [0x3a] + b;
    assert Joined([a, b, c]) == Joined([a, b]) + [0x3a] + c;
  }

  lemma FirstBytes()
    ensures AsciiBytes("0")[0] < AsciiBytes("OperatingFund")[0] < AsciiBytes("corp-abc")[0]
    ensures AsciiBytes(":") == [0x3a]
  {
  }

  lemma Spelled(a: string, b: string, c: string)
    ensures AsciiBytes(a + (":" + (b + (":" + c))))
         == AsciiBytes(a) + ([0x3a] + (AsciiBytes(b) + ([0x3a] + AsciiBytes(c))))
  {
    FirstBytes();
    hide AsciiBytes;
    AsciiConcat(a, ":" + (b + (":" + c)));
    AsciiConcat(":", b + (":" + c));
    AsciiConcat(b, ":" + c);
    AsciiConcat(":", c);
  }

  lemma ExampleText()
    ensures "0" + (":" + ("OperatingFund" + (":" + "corp-abc"))) == "0:OperatingFund:corp-abc"
  {
  }

  /** The example that documents contexts: both orders of the segments give one text. */
  lemma DocumentedExample()
    ensures BuildVaultContext([AsciiBytes("OperatingFund"), AsciiBytes("corp-abc"), AsciiBytes("0")])
         == BuildVaultContext([AsciiBytes("0"), AsciiBytes("corp-abc"), AsciiBytes("OperatingFund")])
         == AsciiBytes("0:OperatingFund:corp-abc")
  {
    hide AsciiBytes, BuildVaultContext;
    var zero, fund, corp := AsciiBytes("0"), AsciiBytes("OperatingFund"), AsciiBytes("corp-abc");
    FirstBytes();
    ThreeSegments(zero, fund, corp, [fund, corp, zero]);
    ThreeSegments(zero, fund, corp, [zero, corp, fund]);
    Spelled("0", "OperatingFund", "corp-abc");
    ExampleText();
  }
}
