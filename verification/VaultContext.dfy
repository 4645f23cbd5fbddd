/** Vault contexts: sorted, joined segments that separate the keys derived from one identity root. */
module VaultContext {
  import opened Bytes
  import opened Clamping
  import opened Crypto
  import opened Text

  /** A segment is the UTF-8 text of one name. */
  type Segment = Bytes

  const COLON: byte := 0x3a

  // ----- lexicographic order on bytes -----

  predicate AtMost(a: Segment, b: Segment) {
    a == [] || (b != [] && (a[0] < b[0] || (a[0] == b[0] && AtMost(a[1..], b[1..]))))
  }

  lemma {:induction false} AtMostTotal(a: Segment, b: Segment)
    ensures AtMost(a, b) || AtMost(b, a)
    ensures AtMost(a, b) && AtMost(b, a) ==> a == b
  {
    if a != [] && b != [] {
      AtMostTotal(a[1..], b[1..]);
      if a[0] == b[0] && a[1..] == b[1..] {
        assert a == [a[0]] + a[1..] && b == [b[0]] + b[1..];
      }
    }
  }

  lemma {:induction false} AtMostTransitive(a: Segment, b: Segment, c: Segment)
    requires AtMost(a, b) && AtMost(b, c)
    ensures AtMost(a, c)
  {
    if a != [] && a[0] == b[0] == c[0] {
      AtMostTransitive(a[1..], b[1..], c[1..]);
    }
  }

  // ----- sorting -----

  predicate IsSorted(ss: seq<Segment>) {
    forall i, j | 0 <= i < j < |ss| :: AtMost(ss[i], ss[j])
  }

  function Insert(s: Segment, ss: seq<Segment>): seq<Segment> {
    if ss == [] || AtMost(s, ss[0]) then [s] + ss else [ss[0]] + Insert(s, ss[1..])
  }

  /** The sorting of the standard library, up to its speed. */
  function Sort(ss: seq<Segment>): seq<Segment> {
    if ss == [] then [] else Insert(ss[0], Sort(ss[1..]))
  }

  lemma FirstIsLeast(a: seq<Segment>, s: Segment)
    requires IsSorted(a) && s in multiset(a)
    ensures a != [] && AtMost(a[0], s)
  {
    hide AtMost;
    var i :| 0 <= i < |a| && a[i] == s;
    AtMostTotal(s, s);
  }

  lemma RestOf(a: seq<Segment>)
    requires a != [] && IsSorted(a)
    ensures multiset(a[1..]) == multiset(a) - multiset{a[0]} && IsSorted(a[1..])
  {
    hide AtMost;
    assert a == [a[0]] + a[1..];
  }

  lemma ConsSorted(s: Segment, ss: seq<Segment>)
    requires IsSorted(ss) && forall x | x in multiset(ss) :: AtMost(s, x)
    ensures IsSorted([s] + ss)
  {
    hide AtMost;
    var r := [s] + ss;
    forall i, j | 0 <= i < j < |r|
      ensures AtMost(r[i], r[j])
    {
      assert r[j] == ss[j - 1] && ss[j - 1] in multiset(ss);
    }
  }

  lemma {:induction false} InsertAdds(s: Segment, ss: seq<Segment>)
    ensures multiset(Insert(s, ss)) == multiset{s} + multiset(ss)
  {
    hide AtMost;
    if !(ss == [] || AtMost(s, ss[0])) {
      InsertAdds(s, ss[1..]);
      assert ss == [ss[0]] + ss[1..];
    }
  }

  lemma {:induction false} InsertSorts(s: Segment, ss: seq<Segment>)
    requires IsSorted(ss)
    ensures IsSorted(Insert(s, ss)) && multiset(Insert(s, ss)) == multiset{s} + multiset(ss)
  {
    hide AtMost, IsSorted;
    InsertAdds(s, ss);
    if ss == [] || AtMost(s, ss[0]) {
      forall x | x in multiset(ss)
        ensures AtMost(s, x)
      {
        FirstIsLeast(ss, x);
        AtMostTransitive(s, ss[0], x);
      }
      ConsSorted(s, ss);
    } else {
      var rest := Insert(s, ss[1..]);
      RestOf(ss);
      InsertSorts(s, ss[1..]);
      AtMostTotal(s, ss[0]);
      forall x | x in multiset(rest)
        ensures AtMost(ss[0], x)
      {
        if x != s {
          assert x in multiset(ss);
          FirstIsLeast(ss, x);
        }
      }
      ConsSorted(ss[0], rest);
    }
  }

  lemma {:induction false} SortSorts(ss: seq<Segment>)
    ensures IsSorted(Sort(ss)) && multiset(Sort(ss)) == multiset(ss)
  {
    hide IsSorted, Insert;
    if ss == [] {
      assert IsSorted([]) by {
        NothingIsSorted();
      }
    } else {
      SortSorts(ss[1..]);
      InsertSorts(ss[0], Sort(ss[1..]));
      assert ss == [ss[0]] + ss[1..];
    }
  }

  lemma NothingIsSorted()
    ensures IsSorted([])
  {
  }

  /** A multiset has one sorted listing. */
  lemma {:induction false} SortedUnique(a: seq<Segment>, b: seq<Segment>)
    requires IsSorted(a) && IsSorted(b) && multiset(a) == multiset(b)
    ensures a == b
  {
    hide AtMost, IsSorted;
    assert |a| == |multiset(a)| == |b|;
    if a != [] {
      assert a[0] in multiset(a) && b[0] in multiset(b);
      FirstIsLeast(a, b[0]);
      FirstIsLeast(b, a[0]);
      AtMostTotal(a[0], b[0]);
      RestOf(a);
      RestOf(b);
      SortedUnique(a[1..], b[1..]);
      assert a == [a[0]] + a[1..] && b == [b[0]] + b[1..];
    }
  }

  // ----- joining and splitting -----

  function Join(ss: seq<Segment>): Bytes
    requires ss != []
  {
    if |ss| == 1 then ss[0] else ss[0] + [COLON] + Join(ss[1..])
  }

  function Split(s: Bytes): (ss: seq<Segment>)
    ensures ss != []
  {
    if s == [] then [[]]
    else if s[0] == COLON then [[]] + Split(s[1..])
    else
      var rest := Split(s[1..]);
      [[s[0]] + rest[0]] + rest[1..]
  }

  predicate ColonFree(s: Bytes) { COLON !in s }

  predicate AllColonFree(ss: seq<Segment>) {
    forall s | s in ss :: ColonFree(s)
  }

  lemma {:induction false} SplitColonFree(s: Segment, rest: Bytes)
    requires ColonFree(s)
    ensures Split(s) == [s] && Split(s + [COLON] + rest) == [s] + Split(rest)
  {
    if s == [] {
      assert ([] + [COLON] + rest)[1..] == rest;
    } else {
      assert s == [s[0]] + s[1..];
      SplitColonFree(s[1..], rest);
      assert (s + [COLON] + rest)[1..] == s[1..] + [COLON] + rest;
    }
  }

  /** Splitting takes a joined list of colon-free segments apart again. */
  lemma {:induction false} SplitJoin(ss: seq<Segment>)
    requires ss != [] && AllColonFree(ss)
    ensures Split(Join(ss)) == ss
  {
    hide Split;
    assert ss[0] in ss;
    if |ss| == 1 {
      SplitColonFree(ss[0], []);
    } else {
      SplitJoin(ss[1..]);
      SplitColonFree(ss[0], Join(ss[1..]));
      assert ss == [ss[0]] + ss[1..];
    }
  }

  // ----- contexts -----

  function BuildVaultContext(segments: seq<Segment>): Bytes {
    if segments == [] then []
    else
      SortKeepsLength(segments);
      Join(Sort(segments))
  }

  lemma SortKeepsLength(ss: seq<Segment>)
    ensures |Sort(ss)| == |ss|
  {
    SortSorts(ss);
    assert |Sort(ss)| == |multiset(Sort(ss))|;
  }

  /** The order of the segments does not matter. */
  lemma ContextIsCanonical(a: seq<Segment>, b: seq<Segment>)
    requires multiset(a) == multiset(b)
    ensures BuildVaultContext(a) == BuildVaultContext(b)
  {
    hide Sort, Join, IsSorted;
    SortSorts(a);
    SortSorts(b);
    SortedUnique(Sort(a), Sort(b));
    assert |a| == |multiset(a)| == |b|;
  }

  /** The empty list and the list of one empty segment share the empty context. */
  predicate Blank(ss: seq<Segment>) {
    ss == [] || ss == [[]]
  }

  lemma {:induction false} SortColonFree(ss: seq<Segment>)
    requires AllColonFree(ss)
    ensures AllColonFree(Sort(ss))
  {
    hide Sort, ColonFree, IsSorted;
    SortSorts(ss);
    forall s | s in Sort(ss)
      ensures ColonFree(s)
    {
      assert s in multiset(Sort(ss));
    }
  }

  /** A context of colon-free segments, split and sorted, is the segments. */
  lemma ContextSplits(ss: seq<Segment>)
    requires AllColonFree(ss)
    ensures Split(BuildVaultContext(ss)) == if ss == [] then [[]] else Sort(ss)
  {
    hide Sort, Join, AllColonFree;
    if ss != [] {
      SortKeepsLength(ss);
      SortColonFree(ss);
      SplitJoin(Sort(ss));
    }
  }

  /** Colon-free segment lists share a context exactly when they are permutations of one another,
      the two spellings of no context apart. */
  lemma ContextIsInjective(a: seq<Segment>, b: seq<Segment>)
    requires AllColonFree(a) && AllColonFree(b)
    ensures BuildVaultContext(a) == BuildVaultContext(b)
            <==> multiset(a) == multiset(b) || (Blank(a) && Blank(b))
  {
    hide Sort, Split, AllColonFree, BuildVaultContext;
    ContextSplits(a);
    ContextSplits(b);
    SortSorts(a);
    SortSorts(b);
    NoContext();
    if multiset(a) == multiset(b) {
      ContextIsCanonical(a, b);
    }
    if BuildVaultContext(a) == BuildVaultContext(b) {
      if a == [] {
        BlankSort(b);
      } else if b == [] {
        BlankSort(a);
      }
    }
  }

  lemma NoContext()
    ensures BuildVaultContext([]) == BuildVaultContext([[]]) == []
  {
    var one: seq<Segment> := [[]];
    assert one[1..] == [] && Sort(one) == one;
  }

  lemma BlankSort(b: seq<Segment>)
    requires b == [] || Sort(b) == [[]]
    ensures Blank(b)
  {
    hide Sort;
    if b != [] {
      SortKeepsLength(b);
      SortSorts(b);
      assert b[0] in multiset(b);
      assert b == [b[0]];
    }
  }

  /** With colons inside segments, two vaults can share a context. */
  lemma ColonsCollide()
    ensures var a, b := [[0x61, COLON, 0x62]], [[0x61], [0x62]];
            multiset(a) != multiset(b) && BuildVaultContext(a) == BuildVaultContext(b)
  {
    OneSegment([0x61, COLON, 0x62]);
    TwoSegments([0x61], [0x62]);
    assert multiset([[0x61, COLON, 0x62]])[[0x61]] == 0;
    assert multiset([[0x61], [0x62]])[[0x61]] == 1;
  }

  lemma OneSegment(s: Segment)
    ensures BuildVaultContext([s]) == s
  {
    assert [s][1..] == [] && Sort([s]) == [s];
  }

  lemma TwoSegments(s: Segment, t: Segment)
    requires AtMost(s, t)
    ensures BuildVaultContext([s, t]) == s + [COLON] + t
  {
    hide AtMost;
    var ss := [s, t];
    assert ss[1..] == [t] && [t][1..] == [];
    assert Sort([t]) == [t] && Sort(ss) == ss;
    assert Join([t]) == t;
  }

  /** Can the segment be cut at a colon into two segments that sort as they stand? */
  predicate Cuttable(s: Segment) {
    exists i :: 0 <= i < |s| && s[i] == COLON && AtMost(s[..i], s[i + 1..])
  }

  lemma {:induction false} AtMostExtended(s: Segment, t: Bytes)
    ensures AtMost(s, s + t)
  {
    if s != [] {
      AtMostExtended(s[1..], t);
      assert (s + t)[1..] == s[1..] + t;
    }
  }

  lemma CutAtColon(u: Segment, v: Segment)
    requires AtMost(u, v)
    ensures Cuttable(u + [COLON] + v)
  {
    hide AtMost;
    var s := u + [COLON] + v;
    assert s[..|u|] == u && s[|u|] == COLON && s[|u| + 1..] == v;
  }

  lemma FirstAtMostJoin(ss: seq<Segment>)
    requires ss != []
    ensures AtMost(ss[0], Join(ss))
  {
    hide AtMost;
    if |ss| == 1 {
      AtMostTotal(ss[0], ss[0]);
    } else {
      var tail := [COLON] + Join(ss[1..]);
      AtMostExtended(ss[0], tail);
      assert Join(ss) == ss[0] + tail;
    }
  }

  /** The joined list starts with a first segment that is at most the rest. */
  lemma JoinedIsCuttable(ss: seq<Segment>)
    requires |ss| >= 2 && IsSorted(ss)
    ensures Cuttable(Join(ss))
  {
    hide AtMost, Cuttable;
    var rest := Join(ss[1..]);
    FirstAtMostJoin(ss[1..]);
    assert AtMost(ss[0], ss[1]);
    AtMostTransitive(ss[0], ss[1], rest);
    CutAtColon(ss[0], rest);
  }

  /** Some other vault has this context. */
  ghost predicate Shared(a: seq<Segment>) {
    exists b :: multiset(b) != multiset(a) && BuildVaultContext(b) == BuildVaultContext(a)
  }

  /** Exactly when a vault shares its context with another: unless it has one segment, which is not empty and
      cannot be cut at a colon into two that sort as they stand. */
  lemma ContextIsShared(a: seq<Segment>)
    ensures Shared(a) <==> |a| != 1 || a == [[]] || Cuttable(a[0])
  {
    hide BuildVaultContext, Cuttable;
    NoContext();
    if |a| != 1 {
      var b: seq<Segment> := if a == [] then [[]] else [BuildVaultContext(a)];
      OneSegment(b[0]);
      assert |multiset(b)| == 1 && |multiset(a)| == |a|;
      assert Shared(a);
    } else {
      assert a == [a[0]];
      OneSegment(a[0]);
      if a[0] == [] {
        assert |multiset(a)| == 1;
        var none: seq<Segment> := [];
        assert multiset(none) != multiset(a) && BuildVaultContext(none) == BuildVaultContext(a);
      } else if Cuttable(a[0]) {
        SharedWhenCut(a[0]);
      } else {
        forall b | BuildVaultContext(b) == a[0]
          ensures multiset(b) == multiset(a)
        {
          OnlyItself(a[0], b);
        }
      }
    }
  }

  lemma SharedWhenCut(s: Segment)
    requires Cuttable(s)
    ensures Shared([s])
  {
    hide BuildVaultContext, AtMost;
    var i :| 0 <= i < |s| && s[i] == COLON && AtMost(s[..i], s[i + 1..]);
    var b := [s[..i], s[i + 1..]];
    OneSegment(s);
    TwoSegments(s[..i], s[i + 1..]);
    assert s == s[..i] + [COLON] + s[i + 1..];
    assert |multiset(b)| == 2 && |multiset([s])| == 1;
  }

  lemma OnlyItself(s: Segment, b: seq<Segment>)
    requires s != [] && !Cuttable(s) && BuildVaultContext(b) == s
    ensures b == [s]
  {
    hide Cuttable, Join, Sort, IsSorted;
    SortSorts(b);
    SortKeepsLength(b);
    if |b| == 1 {
      assert b == [b[0]];
      OneSegment(b[0]);
    } else if |b| > 1 {
      JoinedIsCuttable(Sort(b));
    }
  }

  // ----- HKDF info strings -----

  /** A label alone, or a label, a colon and a context. */
  function InfoOf(baseInfo: Bytes, context: Bytes): Bytes {
    if context == [] then baseInfo else baseInfo + [COLON] + context
  }

  lemma InfoSplits(baseInfo: Bytes, context: Bytes)
    requires ColonFree(baseInfo)
    ensures Split(InfoOf(baseInfo, context)) == [baseInfo] + if context == [] then [] else Split(context)
  {
    SplitColonFree(baseInfo, context);
  }

  /** Joining what splitting took apart. */
  lemma {:induction false} JoinSplit(s: Bytes)
    ensures Join(Split(s)) == s
  {
    hide Join;
    JoinOne([]);
    if s != [] {
      JoinSplit(s[1..]);
      assert s == [s[0]] + s[1..];
      if s[0] == COLON {
        JoinColon(Split(s[1..]));
      } else {
        JoinCharacter(s[0], Split(s[1..]));
      }
    }
  }

  lemma JoinOne(s: Segment)
    ensures Join([s]) == s
  {
  }

  lemma JoinColon(ss: seq<Segment>)
    requires ss != []
    ensures Join([[]] + ss) == [COLON] + Join(ss)
  {
    assert ([[]] + ss)[1..] == ss;
  }

  lemma JoinCharacter(b: byte, ss: seq<Segment>)
    requires ss != []
    ensures Join([[b] + ss[0]] + ss[1..]) == [b] + Join(ss)
  {
    hide Join;
    var longer := [[b] + ss[0]] + ss[1..];
    assert longer[0] == [b] + ss[0] && longer[1..] == ss[1..];
    JoinFirst(ss);
    JoinFirst(longer);
    if |ss| > 1 {
      Associate([b], ss[0], [COLON]);
      Associate([b], ss[0] + [COLON], Join(ss[1..]));
    }
  }

  lemma JoinFirst(ss: seq<Segment>)
    requires ss != []
    ensures Join(ss) == if |ss| == 1 then ss[0] else ss[0] + [COLON] + Join(ss[1..])
  {
  }

  /** One info string comes from one label and one context. */
  lemma InfoIsInjective(baseInfo: Bytes, context: Bytes, baseInfo': Bytes, context': Bytes)
    requires ColonFree(baseInfo) && ColonFree(baseInfo')
    requires InfoOf(baseInfo, context) == InfoOf(baseInfo', context')
    ensures baseInfo == baseInfo' && context == context'
  {
    hide Split, ColonFree, InfoOf, Join;
    InfoSplits(baseInfo, context);
    InfoSplits(baseInfo', context');
    var ss, ss' := Split(InfoOf(baseInfo, context)), Split(InfoOf(baseInfo', context'));
    assert ss[0] == baseInfo && ss'[0] == baseInfo';
    assert ss[1..] == if context == [] then [] else Split(context);
    assert ss'[1..] == if context' == [] then [] else Split(context');
    JoinSplit(context);
    JoinSplit(context');
  }

  // ----- the keys of one identity root -----

  datatype Scheme = Ed25519Solana | Ed25519Polkadot | Secp256k1Evm | Secp256k1Btc | Secp256k1Cosmos | Secp256k1Tron
                  | X25519Identity | MlDsa44 | MlKem768 | Ed25519Relay

  function LabelSuffix(s: Scheme): string {
    match s
    case Ed25519Solana => "ED25519-SOLANA"
    case Ed25519Polkadot => "ED25519-POLKADOT"
    case Secp256k1Evm => "SECP256K1-EVM"
    case Secp256k1Btc => "SECP256K1-BTC"
    case Secp256k1Cosmos => "SECP256K1-COSMOS"
    case Secp256k1Tron => "SECP256K1-TRON"
    case X25519Identity => "X25519-IDENTITY"
    case MlDsa44 => "ML-DSA-44-PQC-IDENTITY"
    case MlKem768 => "ML-KEM-768-PQC-IDENTITY"
    case Ed25519Relay => "ED25519-MEMPOOL-ATTEST"
  }

  function LabelText(s: Scheme): string {
    "ACEGF-REV32-V1-" + LabelSuffix(s)
  }

  function LabelOf(s: Scheme): Bytes {
    AsciiBytes(LabelText(s))
  }

  predicate LabelCharacter(c: char) {
    c != ':' && c < 128 as char
  }

  predicate PlainSuffix(s: Scheme) {
    forall i | 0 <= i < |LabelSuffix(s)| :: LabelCharacter(LabelSuffix(s)[i])
  }

  lemma CurveCharacters(s: Scheme)
    requires !(s.X25519Identity? || s.MlDsa44? || s.MlKem768? || s.Ed25519Relay?)
    ensures PlainSuffix(s)
  {
  }

  lemma IdentityCharacters(s: Scheme)
    requires s.X25519Identity? || s.Ed25519Relay?
    ensures PlainSuffix(s)
  {
  }

  lemma LatticeCharacters(s: Scheme)
    requires s.MlDsa44? || s.MlKem768?
    ensures PlainSuffix(s)
  {
  }

  lemma LabelCharacters(s: Scheme)
    ensures PlainSuffix(s)
  {
    hide PlainSuffix;
    if s.X25519Identity? || s.Ed25519Relay? {
      IdentityCharacters(s);
    } else if s.MlDsa44? || s.MlKem768? {
      LatticeCharacters(s);
    } else {
      CurveCharacters(s);
    }
  }

  lemma PrefixCharacters()
    ensures forall i | 0 <= i < |"ACEGF-REV32-V1-"| :: LabelCharacter("ACEGF-REV32-V1-"[i])
  {
  }

  lemma LabelsColonFree(s: Scheme)
    ensures ColonFree(LabelOf(s))
  {
    hide LabelSuffix;
    PrefixCharacters();
    LabelCharacters(s);
    assert forall i | 0 <= i < |LabelText(s)| :: LabelCharacter(LabelText(s)[i]);
  }

  /** The length and two characters tell the labels apart. */
  lemma LabelLength(s: Scheme)
    ensures |LabelOf(s)| == (match s case Ed25519Solana | Secp256k1Tron => 29 case Ed25519Polkadot | Secp256k1Cosmos => 31
                             case Secp256k1Evm | Secp256k1Btc => 28 case X25519Identity => 30 case MlKem768 => 38
                             case MlDsa44 | Ed25519Relay => 37)
  {
  }

  lemma LabelMarks(s: Scheme)
    ensures |LabelOf(s)| > 25
    ensures LabelOf(s)[15] == (match s case Ed25519Solana | Ed25519Polkadot | Ed25519Relay => 0x45
                               case X25519Identity => 0x58 case MlDsa44 | MlKem768 => 0x4d case _ => 0x53)
    ensures s == Secp256k1Evm ==> LabelOf(s)[25] == 0x45
    ensures s == Secp256k1Btc ==> LabelOf(s)[25] == 0x42
  {
    hide AsciiBytes;
    LabelLength(s);
    LabelAt(s, 15);
    LabelAt(s, 25);
  }

  lemma LabelAt(s: Scheme, i: nat)
    requires i < |LabelOf(s)|
    ensures |LabelText(s)| == |LabelOf(s)| && LabelOf(s)[i] == CharByte(LabelText(s)[i])
  {
    hide LabelText;
  }

  lemma LabelsDistinct(s: Scheme, t: Scheme)
    requires LabelOf(s) == LabelOf(t)
    ensures s == t
  {
    hide LabelOf, LabelText;
    LabelLength(s);
    LabelLength(t);
    LabelMarks(s);
    LabelMarks(t);
  }

  /** ML-KEM takes a 64-byte seed, every other scheme 32 bytes. */
  function SeedLength(s: Scheme): nat {
    if s == MlKem768 then 64 else 32
  }

  predicate OnSecp256k1(s: Scheme) {
    s.Secp256k1Evm? || s.Secp256k1Btc? || s.Secp256k1Cosmos? || s.Secp256k1Tron?
  }

  /** The library functions: HKDF-SHA256 from key material, info and output length (it does not fail at these
      lengths), the validity test of secp256k1 scalars, and SHA-256. */
  datatype Kdf = Kdf(hkdf: (Bytes, Bytes, nat) -> Bytes, validScalar: Bytes -> bool, sha256: Bytes -> Bytes) {
    ghost predicate Sized() {
      && (forall ikm, info, n :: |hkdf(ikm, info, n)| == n)
      && (forall x :: |sha256(x)| == 32)
    }
  }

  function NormalizeSecp256k1Key(k: Kdf, raw: Bytes): Bytes {
    if k.validScalar(raw) then raw else k.sha256(raw)
  }

  /** What is done to the HKDF output before it is a seed. */
  function Finished(k: Kdf, s: Scheme, raw: Bytes): Bytes
    requires |raw| == SeedLength(s)
  {
    if s == X25519Identity then Clamped(raw)
    else if OnSecp256k1(s) then NormalizeSecp256k1Key(k, raw)
    else raw
  }

  function RawSeed(k: Kdf, root: Bytes, s: Scheme, context: Bytes): Bytes {
    k.hkdf(root, InfoOf(LabelOf(s), context), SeedLength(s))
  }

  function DeriveSeed(k: Kdf, root: Bytes, s: Scheme, context: Bytes): (seed: Bytes)
    requires k.Sized()
    ensures |seed| == SeedLength(s)
  {
    Finished(k, s, RawSeed(k, root, s, context))
  }

  datatype SchemeSeeds = SchemeSeeds(ed25519Solana: Bytes, ed25519Polkadot: Bytes, secp256k1Evm: Bytes, secp256k1Btc: Bytes,
                                     secp256k1Cosmos: Bytes, secp256k1Tron: Bytes, x25519: Bytes, mlDsa44: Bytes, mlKem768: Bytes)

  /** The seed sizes that the rest of the wallet relies on. */
  type WalletSeeds = s: SchemeSeeds | |s.x25519| == 32 && |s.mlKem768| == 64
    witness SchemeSeeds([], [], [], [], [], [], Zeros(32), [], Zeros(64))

  function DeriveFromRev32WithContext(k: Kdf, root: Bytes, context: Bytes): WalletSeeds
    requires k.Sized()
  {
    SchemeSeeds(DeriveSeed(k, root, Ed25519Solana, context), DeriveSeed(k, root, Ed25519Polkadot, context),
                DeriveSeed(k, root, Secp256k1Evm, context), DeriveSeed(k, root, Secp256k1Btc, context),
                DeriveSeed(k, root, Secp256k1Cosmos, context), DeriveSeed(k, root, Secp256k1Tron, context),
                DeriveSeed(k, root, X25519Identity, context), DeriveSeed(k, root, MlDsa44, context),
                DeriveSeed(k, root, MlKem768, context))
  }

  /** The keys of a vault do not depend on the order in which its segments are given. */
  lemma VaultKeysAreCanonical(k: Kdf, root: Bytes, a: seq<Segment>, b: seq<Segment>)
    requires k.Sized() && multiset(a) == multiset(b)
    ensures DeriveFromRev32WithContext(k, root, BuildVaultContext(a))
         == DeriveFromRev32WithContext(k, root, BuildVaultContext(b))
  {
    hide BuildVaultContext;
    ContextIsCanonical(a, b);
  }

  /** Two pairs of a scheme and a vault share an info string exactly when they are the same pair. */
  lemma VaultInfosAreSeparate(s: Scheme, a: seq<Segment>, t: Scheme, b: seq<Segment>)
    requires AllColonFree(a) && AllColonFree(b)
    ensures InfoOf(LabelOf(s), BuildVaultContext(a)) == InfoOf(LabelOf(t), BuildVaultContext(b))
            <==> s == t && (multiset(a) == multiset(b) || (Blank(a) && Blank(b)))
  {
    hide BuildVaultContext, InfoOf, LabelOf, AllColonFree, ColonFree, Blank;
    LabelsColonFree(s);
    LabelsColonFree(t);
    ContextIsInjective(a, b);
    if InfoOf(LabelOf(s), BuildVaultContext(a)) == InfoOf(LabelOf(t), BuildVaultContext(b)) {
      InfoIsInjective(LabelOf(s), BuildVaultContext(a), LabelOf(t), BuildVaultContext(b));
      LabelsDistinct(s, t);
    }
  }

  predicate SameVault(s: Scheme, a: seq<Segment>, t: Scheme, b: seq<Segment>) {
    s == t && (multiset(a) == multiset(b) || (Blank(a) && Blank(b)))
  }

  /** An HKDF output that is no scalar of its scheme, and is replaced by its hash. */
  predicate Replaced(k: Kdf, s: Scheme, raw: Bytes) {
    OnSecp256k1(s) && !k.validScalar(raw)
  }

  /** The seed before clamping. */
  function Shown(k: Kdf, s: Scheme, raw: Bytes): Bytes {
    if Replaced(k, s, raw) then k.sha256(raw) else raw
  }

  /** When two HKDF outputs finish as one seed: if they are shown as one, up to the clamped bits on the side or
      sides of X25519. */
  predicate FinishAlike(k: Kdf, s: Scheme, x: Bytes, t: Scheme, y: Bytes)
    requires k.Sized() && |x| == SeedLength(s) && |y| == SeedLength(t)
  {
    var u, v := Shown(k, s, x), Shown(k, t, y);
    if s == X25519Identity && t == X25519Identity then EqualUpToClamping(u, v)
    else if s == X25519Identity then |v| == 32 && EqualUpToClamping(u, v) && Clamped(v) == v
    else if t == X25519Identity then |u| == 32 && EqualUpToClamping(u, v) && Clamped(u) == u
    else u == v
  }

  lemma FinishedAlike(k: Kdf, s: Scheme, x: Bytes, t: Scheme, y: Bytes)
    requires k.Sized() && |x| == SeedLength(s) && |y| == SeedLength(t)
    ensures Finished(k, s, x) == Finished(k, t, y) <==> FinishAlike(k, s, x, t, y)
  {
    hide Clamped, EqualUpToClamping;
    var u, v := Shown(k, s, x), Shown(k, t, y);
    if s == X25519Identity && |v| == 32 {
      ClampForgets(u, v);
      ClampIdempotent(u);
    }
    if t == X25519Identity && |u| == 32 {
      ClampForgets(u, v);
      ClampIdempotent(v);
    }
  }

  /** Two seeds of one root are equal exactly when they are of one scheme and one vault, or their HKDF outputs,
      on two different infos, finish alike. */
  lemma SeedsCoincide(k: Kdf, root: Bytes, s: Scheme, a: seq<Segment>, t: Scheme, b: seq<Segment>)
    requires k.Sized() && AllColonFree(a) && AllColonFree(b)
    ensures var c, d := BuildVaultContext(a), BuildVaultContext(b);
            DeriveSeed(k, root, s, c) == DeriveSeed(k, root, t, d)
            <==> SameVault(s, a, t, b)
                 || (InfoOf(LabelOf(s), c) != InfoOf(LabelOf(t), d)
                     && FinishAlike(k, s, RawSeed(k, root, s, c), t, RawSeed(k, root, t, d)))
  {
    hide BuildVaultContext, InfoOf, LabelOf, AllColonFree, Blank, FinishAlike, Finished;
    VaultInfosAreSeparate(s, a, t, b);
    FinishedAlike(k, s, RawSeed(k, root, s, BuildVaultContext(a)), t, RawSeed(k, root, t, BuildVaultContext(b)));
  }

  /** Equal seeds come from one scheme and one vault, from two infos that HKDF confuses, from outputs that differ
      only where an X25519 scalar is clamped, or from an output that was replaced by its hash; two replaced outputs
      are a collision of SHA-256. */
  lemma SeedsAreSeparate(k: Kdf, root: Bytes, s: Scheme, a: seq<Segment>, t: Scheme, b: seq<Segment>)
    requires k.Sized() && AllColonFree(a) && AllColonFree(b)
    requires DeriveSeed(k, root, s, BuildVaultContext(a)) == DeriveSeed(k, root, t, BuildVaultContext(b))
    ensures var c, d := BuildVaultContext(a), BuildVaultContext(b);
            var x, y := RawSeed(k, root, s, c), RawSeed(k, root, t, d);
            || SameVault(s, a, t, b)
            || Collides(info => k.hkdf(root, info, SeedLength(s)), InfoOf(LabelOf(s), c), InfoOf(LabelOf(t), d))
            || ((s == X25519Identity || t == X25519Identity) && |x| == |y| == 32 && x != y && EqualUpToClamping(x, y))
            || (Replaced(k, s, x) && Replaced(k, t, y) && Collides(k.sha256, x, y))
            || (Replaced(k, s, x) != Replaced(k, t, y))
  {
    hide BuildVaultContext, InfoOf, LabelOf, AllColonFree, Blank, Clamped, EqualUpToClamping;
    SeedsCoincide(k, root, s, a, t, b);
  }

  // ----- clamping does lose isolation -----

  /** HKDF outputs that differ in one clamped bit only. */
  function ToyKdf(): Kdf {
    Kdf((ikm, info, n) => if n == 32 && info != [] && info[|info| - 1] == 0x61 then [1] + Zeros(31) else Zeros(n),
        x => true, x => Zeros(32))
  }

  /** Two vaults with one X25519 seed, although HKDF tells their infos apart. */
  lemma ClampedSeedsCoincide(root: Bytes)
    ensures var k := ToyKdf();
            var c, d := BuildVaultContext([[0x61]]), BuildVaultContext([[0x62]]);
            && k.Sized() && c != [] && d != []
            && RawSeed(k, root, X25519Identity, c) != RawSeed(k, root, X25519Identity, d)
            && DeriveSeed(k, root, X25519Identity, c) == DeriveSeed(k, root, X25519Identity, d)
  {
    hide LabelOf, BuildVaultContext, Clamped;
    var k, l := ToyKdf(), LabelOf(X25519Identity);
    OneSegment([0x61]);
    OneSegment([0x62]);
    var x, y := [1] + Zeros(31), Zeros(32);
    assert InfoOf(l, [0x61])[|l| + 1] == 0x61 && InfoOf(l, [0x62])[|l| + 1] == 0x62;
    assert RawSeed(k, root, X25519Identity, [0x61]) == x;
    assert RawSeed(k, root, X25519Identity, [0x62]) == y;
    assert x[0] != y[0];
    ClampForgets(x, y);
  }
}
