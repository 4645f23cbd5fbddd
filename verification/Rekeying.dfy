/** Same root or fail: every run of passphrase changes keeps the identity. */
module Rekeying {
  import opened Bytes
  import opened Crypto
  import opened Text
  import opened VaultContext
  import opened PassphraseSealing

  // ----- combined passphrases -----

  predicate NulFree(s: Bytes) { 0 !in s }

  lemma FirstNul(a: Bytes, s: Bytes)
    requires NulFree(a)
    ensures var x := a + ([0] + s); x[|a|] == 0 && forall i | 0 <= i < |a| :: x[i] != 0
    ensures a + ([0] + s) == a + [0] + s
  {
  }

  lemma NulSplits(a: Bytes, s: Bytes, b: Bytes, t: Bytes)
    requires NulFree(a) && NulFree(b) && a + [0] + s == b + [0] + t
    ensures a == b && s == t
  {
    hide NulFree;
    FirstNul(a, s);
    FirstNul(b, t);
    SplitAt(a, [0] + s, b, [0] + t);
    SplitAt([0], s, [0], t);
  }

  lemma NulsOfFull(c: Credentials)
    ensures NulFree(Full(c)) <==> NulFree(c.primary) && c.secondary == None
  {
    if c.secondary.Some? {
      assert Full(c)[|c.primary|] == 0;
    }
  }

  /** Credentials with NUL-free primaries combine to one passphrase only if they are the same. */
  lemma CombineInjective(c: Credentials, d: Credentials)
    requires NulFree(c.primary) && NulFree(d.primary)
    ensures Full(c) == Full(d) <==> c == d
  {
    hide NulFree;
    NulsOfFull(c);
    NulsOfFull(d);
    if Full(c) == Full(d) && c.secondary.Some? {
      NulSplits(c.primary, c.secondary.value, d.primary, d.secondary.value);
    }
  }

  /** Without that condition: other credentials combine to the same passphrase exactly when it contains a NUL. */
  lemma CombineIsAmbiguous(c: Credentials)
    ensures (exists d: Credentials :: d != c && Full(d) == Full(c)) <==> !NulFree(Full(c))
  {
    if !NulFree(Full(c)) {
      var f := Full(c);
      var i :| 0 <= i < |f| && f[i] == 0;
      assert f == f[..i] + [0] + f[i + 1..];
      var split := Credentials(f[..i], Some(f[i + 1..]));
      assert Full(split) == f && Full(Credentials(f, None)) == f;
      assert split != c || Credentials(f, None) != c;
    } else {
      forall d: Credentials | d != c
        ensures Full(d) != Full(c)
      {
        NulsOfFull(c);
        NulsOfFull(d);
      }
    }
  }

  // ----- material behind a mnemonic -----

  function MaterialOf(p: Primitives, mnemonic: Mnemonic, full: Bytes): Result<Material, SealError> {
    match DecodeMnemonicToSealed(p, mnemonic)
    case Err(e) => Err(e)
    case Ok(sealed) => UnsealIdentityMaterial(p, sealed, full)
  }

  /** The only mnemonic that the wallet makes for given material and passphrase. */
  function MnemonicFor(p: Primitives, material: Material, full: Bytes): Result<Mnemonic, SealError> {
    match SealIdentityMaterial(p, material, full)
    case Err(e) => Err(e)
    case Ok(sealed) => Ok(p.words(sealed))
  }

  /** A mnemonic opens to the material it was made for; making it fails only with Argon2. */
  lemma MnemonicOpens(p: Primitives, material: Material, full: Bytes)
    requires p.Laws()
    ensures MnemonicFor(p, material, full).Ok? <==> p.argon2(full).Some?
    ensures MnemonicFor(p, material, full).Ok? ==>
              MaterialOf(p, MnemonicFor(p, material, full).value, full) == Ok(material)
  {
  }

  /** A mnemonic that opens to some material carries exactly the sealing of that material: what the wallet would
      make for it, up to the spelling of the words. */
  lemma OpenedIsSealed(p: Primitives, mnemonic: Mnemonic, full: Bytes)
    requires p.Laws() && MaterialOf(p, mnemonic, full).Ok?
    ensures DecodeMnemonicToSealed(p, mnemonic) == SealIdentityMaterial(p, MaterialOf(p, mnemonic, full).value, full)
  {
  }

  /** A new wallet, viewed through the credentials it was made for, shows what it showed when it was made. */
  lemma GeneratedWalletOpens(p: Primitives, material: Material, c: Credentials)
    requires p.Laws() && GenerateAce(p, material, c).Ok?
    ensures var (mnemonic, wallet) := GenerateAce(p, material, c).value;
            && mnemonic == MnemonicFor(p, material, Full(c)).value
            && ViewWallet(p, mnemonic, c) == Ok(wallet)
  {
  }

  /** Viewing with the passphrase's base key is viewing with the passphrase. */
  lemma BaseKeyPathAgrees(p: Primitives, mnemonic: Mnemonic, c: Credentials)
    requires p.argon2(Full(c)).Some?
    ensures var key := p.argon2(Full(c)).value;
            ViewWalletWithBaseKey(p, mnemonic, key).Ok? == ViewWallet(p, mnemonic, c).Ok?
            && (ViewWallet(p, mnemonic, c).Ok? ==> ViewWalletWithBaseKey(p, mnemonic, key) == ViewWallet(p, mnemonic, c))
  {
  }

  // ----- one change, and runs of changes -----

  datatype Step =
    | Change(oldPass: Bytes, newPass: Bytes, secondary: Option<Bytes>)
    | AddAdmin(existing: Bytes, newPass: Bytes, admin: Bytes)

  function Before(s: Step): Credentials {
    match s
    case Change(oldPass, _, secondary) => Credentials(oldPass, secondary)
    case AddAdmin(existing, _, _) => Credentials(existing, None)
  }

  function After(s: Step): Credentials {
    match s
    case Change(_, newPass, secondary) => Credentials(newPass, secondary)
    case AddAdmin(_, newPass, admin) => Credentials(newPass, if admin == [] then None else Some(admin))
  }

  function Apply(p: Primitives, mnemonic: Mnemonic, s: Step): Result<Mnemonic, SealError> {
    match s
    case Change(oldPass, newPass, secondary) => ChangePassphrase(p, mnemonic, oldPass, newPass, secondary)
    case AddAdmin(existing, newPass, admin) => ChangePassphraseAddAdmin(p, mnemonic, existing, newPass, admin)
  }

  /** Every operation opens under the old credentials and makes the one mnemonic for the new ones. */
  lemma ApplyIsReseal(p: Primitives, mnemonic: Mnemonic, s: Step)
    ensures Apply(p, mnemonic, s)
         == match MaterialOf(p, mnemonic, Full(Before(s)))
            case Err(e) => Err(e)
            case Ok(material) => MnemonicFor(p, material, Full(After(s)))
  {
  }

  /** Same root or fail, for one operation. */
  lemma StepKeepsMaterial(p: Primitives, mnemonic: Mnemonic, s: Step)
    requires p.Laws()
    ensures Apply(p, mnemonic, s).Ok?
            <==> MaterialOf(p, mnemonic, Full(Before(s))).Ok? && p.argon2(Full(After(s))).Some?
    ensures Apply(p, mnemonic, s).Ok? ==>
              MaterialOf(p, Apply(p, mnemonic, s).value, Full(After(s))) == MaterialOf(p, mnemonic, Full(Before(s)))
  {
    hide Apply, MaterialOf, MnemonicFor;
    ApplyIsReseal(p, mnemonic, s);
    if MaterialOf(p, mnemonic, Full(Before(s))).Ok? {
      MnemonicOpens(p, MaterialOf(p, mnemonic, Full(Before(s))).value, Full(After(s)));
    }
  }

  function Run(p: Primitives, mnemonic: Mnemonic, steps: seq<Step>): Result<Mnemonic, SealError>
    decreases |steps|
  {
    if steps == [] then Ok(mnemonic)
    else
      match Apply(p, mnemonic, steps[0])
      case Err(e) => Err(e)
      case Ok(next) => Run(p, next, steps[1..])
  }

  /** Each step is given the passphrase that the one before it set. */
  predicate Chained(full: Bytes, steps: seq<Step>)
    decreases |steps|
  {
    steps == [] || (Full(Before(steps[0])) == full && Chained(Full(After(steps[0])), steps[1..]))
  }

  function LastPassphrase(full: Bytes, steps: seq<Step>): Bytes {
    if steps == [] then full else Full(After(steps[|steps| - 1]))
  }

  /** Over any run of changes and admin additions the mnemonic opens under the last credentials to the original
      material, and is the one mnemonic for that material and those credentials. */
  lemma {:induction false} RunKeepsMaterial(p: Primitives, mnemonic: Mnemonic, full: Bytes, steps: seq<Step>)
    requires p.Laws() && Chained(full, steps) && MaterialOf(p, mnemonic, full).Ok?
    requires Run(p, mnemonic, steps).Ok?
    ensures var material := MaterialOf(p, mnemonic, full).value;
            var final, last := Run(p, mnemonic, steps).value, LastPassphrase(full, steps);
            && MaterialOf(p, final, last) == Ok(material)
            && (steps != [] ==> MnemonicFor(p, material, last) == Ok(final))
    decreases |steps|
  {
    hide Apply, MaterialOf, MnemonicFor, Full, Before, After;
    if steps != [] {
      var next := Apply(p, mnemonic, steps[0]).value;
      StepKeepsMaterial(p, mnemonic, steps[0]);
      ApplyIsReseal(p, mnemonic, steps[0]);
      RunKeepsMaterial(p, next, Full(After(steps[0])), steps[1..]);
    }
  }

  /** A chained run fails only where Argon2 does. */
  lemma {:induction false} RunSucceeds(p: Primitives, mnemonic: Mnemonic, full: Bytes, steps: seq<Step>)
    requires p.Laws() && Chained(full, steps) && MaterialOf(p, mnemonic, full).Ok?
    ensures Run(p, mnemonic, steps).Ok? <==> forall s | s in steps :: p.argon2(Full(After(s))).Some?
    decreases |steps|
  {
    hide Apply, MaterialOf, MnemonicFor, Full, Before, After;
    if steps != [] {
      StepKeepsMaterial(p, mnemonic, steps[0]);
      assert forall s | s in steps :: s == steps[0] || s in steps[1..];
      if Apply(p, mnemonic, steps[0]).Ok? {
        RunSucceeds(p, Apply(p, mnemonic, steps[0]).value, Full(After(steps[0])), steps[1..]);
      }
    }
  }

  /** The wallet shown after any run is the wallet shown before it, the fingerprint apart. */
  lemma SameRootOverRuns(p: Primitives, mnemonic: Mnemonic, c: Credentials, steps: seq<Step>, d: Credentials)
    requires p.Laws() && Chained(Full(c), steps) && Full(d) == LastPassphrase(Full(c), steps)
    requires ViewWallet(p, mnemonic, c).Ok? && Run(p, mnemonic, steps).Ok?
    ensures ViewWallet(p, Run(p, mnemonic, steps).value, d).Ok?
    ensures ViewWallet(p, Run(p, mnemonic, steps).value, d).value.seeds == ViewWallet(p, mnemonic, c).value.seeds
  {
    hide Run, Chained, LastPassphrase, Full, UnsealIdentityMaterial, DecodeMnemonicToSealed;
    RunKeepsMaterial(p, mnemonic, Full(c), steps);
  }

  /** Rotating away and back restores the mnemonic, word for word. */
  lemma RotateBack(p: Primitives, material: Material, full: Bytes, steps: seq<Step>)
    requires p.Laws() && MnemonicFor(p, material, full).Ok?
    requires Chained(full, steps) && LastPassphrase(full, steps) == full
    requires Run(p, MnemonicFor(p, material, full).value, steps).Ok?
    ensures Run(p, MnemonicFor(p, material, full).value, steps) == MnemonicFor(p, material, full)
  {
    hide MaterialOf, MnemonicFor, Chained, Apply;
    MnemonicOpens(p, material, full);
    RunKeepsMaterial(p, MnemonicFor(p, material, full).value, full, steps);
  }

  // ----- what follows the sealed bytes instead -----

  /** Equal fingerprints come from equal sealed bytes, or SHA3-256 collides on the two strings that are hashed. */
  lemma XidFollowsSealing(p: Primitives, sealed: Sealed, resealed: Sealed)
    ensures ComputeXid(p, sealed) == ComputeXid(p, resealed)
            <==> sealed == resealed || Collides(p.sha3, XidInput(sealed), XidInput(resealed))
  {
    var tag := AsciiBytes("acegf:xid");
    if XidInput(sealed) == XidInput(resealed) {
      SplitAt(sealed, tag, resealed, tag);
    }
  }

  /** The sealed bytes before and after a run: both seal one material. */
  lemma SealedOverRuns(p: Primitives, mnemonic: Mnemonic, full: Bytes, steps: seq<Step>)
    requires p.Laws() && Chained(full, steps) && MaterialOf(p, mnemonic, full).Ok? && Run(p, mnemonic, steps).Ok?
    ensures var material := MaterialOf(p, mnemonic, full).value;
            var last := LastPassphrase(full, steps);
            && SealIdentityMaterial(p, material, full).Ok? && SealIdentityMaterial(p, material, last).Ok?
            && DecodeMnemonicToSealed(p, mnemonic) == SealIdentityMaterial(p, material, full)
            && DecodeMnemonicToSealed(p, Run(p, mnemonic, steps).value) == SealIdentityMaterial(p, material, last)
  {
    hide DecodeMnemonicToSealed, SealIdentityMaterial, UnsealIdentityMaterial, Run, Chained, LastPassphrase;
    RunKeepsMaterial(p, mnemonic, full, steps);
    OpenedIsSealed(p, mnemonic, full);
    OpenedIsSealed(p, Run(p, mnemonic, steps).value, LastPassphrase(full, steps));
  }

  /** Exactly when a run of changes keeps the fingerprint: when the last passphrase seals the material to the same
      bytes as the first, or SHA3-256 collides on the two strings hashed. Coming back to the first keeps it. */
  lemma FingerprintOverRuns(p: Primitives, mnemonic: Mnemonic, c: Credentials, steps: seq<Step>, d: Credentials)
    requires p.Laws() && Chained(Full(c), steps) && Full(d) == LastPassphrase(Full(c), steps)
    requires ViewWallet(p, mnemonic, c).Ok? && Run(p, mnemonic, steps).Ok?
    ensures MaterialOf(p, mnemonic, Full(c)).Ok?
    ensures var material := MaterialOf(p, mnemonic, Full(c)).value;
            var was, now := SealIdentityMaterial(p, material, Full(c)), SealIdentityMaterial(p, material, Full(d));
            var before, after := ViewWallet(p, mnemonic, c), ViewWallet(p, Run(p, mnemonic, steps).value, d);
            && was.Ok? && now.Ok? && after.Ok?
            && (after.value.xid == before.value.xid
                <==> was == now || Collides(p.sha3, XidInput(was.value), XidInput(now.value)))
            && (Full(c) == Full(d) ==> after.value.xid == before.value.xid)
  {
    hide DecodeMnemonicToSealed, SealIdentityMaterial, UnsealIdentityMaterial, Full, Run, Chained, LastPassphrase, XidInput;
    SealedOverRuns(p, mnemonic, Full(c), steps);
    SameRootOverRuns(p, mnemonic, c, steps, d);
    var material := MaterialOf(p, mnemonic, Full(c)).value;
    XidFollowsSealing(p, SealIdentityMaterial(p, material, Full(c)).value, SealIdentityMaterial(p, material, Full(d)).value);
  }

  /** A single change is a run of one step. */
  lemma OneStep(p: Primitives, mnemonic: Mnemonic, s: Step)
    ensures Run(p, mnemonic, [s]) == Apply(p, mnemonic, s)
    ensures Chained(Full(Before(s)), [s]) && LastPassphrase(Full(Before(s)), [s]) == Full(After(s))
  {
    hide Apply, Full, Before, After;
    assert [s][1..] == [];
    if Apply(p, mnemonic, s).Ok? {
      assert Run(p, Apply(p, mnemonic, s).value, [s][1..]) == Apply(p, mnemonic, s);
    }
  }

  /** Two different pairs of arguments with one result. */
  predicate CollidesOnPairs(f: (Bytes, Bytes) -> Option<Bytes>, x: Bytes, y: Bytes, x': Bytes, y': Bytes) {
    (x != x' || y != y') && f(x, y) == f(x', y')
  }

  /** Exactly when a run of changes keeps the root of vault keys: when it comes back to the first passphrase, or the
      derivation gives one result for the two passphrases with their sealed bytes. */
  lemma VaultRootOverRuns(p: Primitives, mnemonic: Mnemonic, c: Credentials, steps: seq<Step>, d: Credentials)
    requires p.Laws() && Chained(Full(c), steps) && Full(d) == LastPassphrase(Full(c), steps)
    requires ViewWallet(p, mnemonic, c).Ok? && Run(p, mnemonic, steps).Ok?
    ensures MaterialOf(p, mnemonic, Full(c)).Ok?
    ensures var material := MaterialOf(p, mnemonic, Full(c)).value;
            var was, now := SealIdentityMaterial(p, material, Full(c)), SealIdentityMaterial(p, material, Full(d));
            && was.Ok? && now.Ok?
            && (VaultRoot(p, Run(p, mnemonic, steps).value, d) == VaultRoot(p, mnemonic, c)
                <==> Full(c) == Full(d) || CollidesOnPairs(p.identityRoot, Full(c), was.value, Full(d), now.value))
  {
    hide DecodeMnemonicToSealed, SealIdentityMaterial, UnsealIdentityMaterial, Full, Run, Chained, LastPassphrase;
    SealedOverRuns(p, mnemonic, Full(c), steps);
  }

  // ----- the operations written out -----

  /** The mnemonic's 32 bytes of entropy open, under the key that Argon2 and HKDF make of the passphrase, to 16 bytes. */
  predicate Opens(p: Primitives, mnemonic: Mnemonic, full: Bytes, material: Bytes) {
    && p.entropy(mnemonic).Some? && |p.entropy(mnemonic).value| == 32
    && p.argon2(full).Some?
    && p.open(p.expand(p.argon2(full).value), p.entropy(mnemonic).value) == Some(material)
    && |material| == 16
  }

  /** The words of the material sealed under that key. */
  predicate Seals(p: Primitives, material: Bytes, full: Bytes, mnemonic: Mnemonic) {
    && p.argon2(full).Some?
    && |p.seal(p.expand(p.argon2(full).value), material)| == 32
    && mnemonic == p.words(p.seal(p.expand(p.argon2(full).value), material))
  }

  /** The first factor, and after a NUL the second if there is one. */
  lemma CombineIs(primary: Bytes, secondary: Bytes)
    ensures CombinePassphrase(primary, None) == primary
    ensures CombinePassphrase(primary, Some(secondary)) == primary + [0] + secondary
  {
  }

  lemma MaterialIs(p: Primitives, mnemonic: Mnemonic, full: Bytes, material: Bytes)
    ensures Opens(p, mnemonic, full, material) <==> |material| == 16 && MaterialOf(p, mnemonic, full) == Ok(material)
  {
  }

  lemma MnemonicIs(p: Primitives, material: Material, full: Bytes, mnemonic: Mnemonic)
    ensures Seals(p, material, full, mnemonic) <==> MnemonicFor(p, material, full) == Ok(mnemonic)
  {
  }

  /** A change opens with the old first factor and seals with the new one; the second factor is the same for both. */
  lemma ChangeIs(p: Primitives, mnemonic: Mnemonic, was: Bytes, will: Bytes, secondary: Bytes, result: Mnemonic)
    ensures ChangePassphrase(p, mnemonic, was, will, None) == Ok(result)
            <==> exists material: Material :: Opens(p, mnemonic, was, material) && Seals(p, material, will, result)
    ensures ChangePassphrase(p, mnemonic, was, will, Some(secondary)) == Ok(result)
            <==> exists material: Material ::
                   Opens(p, mnemonic, was + [0] + secondary, material) && Seals(p, material, will + [0] + secondary, result)
  {
    hide MaterialOf, MnemonicFor, Opens, Seals, ChangePassphrase;
    Resealed(p, mnemonic, Change(was, will, None), was, will, result);
    Resealed(p, mnemonic, Change(was, will, Some(secondary)), was + [0] + secondary, will + [0] + secondary, result);
  }

  /** Adding an admin factor opens without a second factor and seals with the new one; an empty one is none. */
  lemma AddAdminIs(p: Primitives, mnemonic: Mnemonic, was: Bytes, will: Bytes, admin: Bytes, result: Mnemonic)
    ensures ChangePassphraseAddAdmin(p, mnemonic, was, will, admin) == Ok(result)
            <==> exists material: Material ::
                   Opens(p, mnemonic, was, material)
                   && Seals(p, material, if admin == [] then will else will + [0] + admin, result)
  {
    hide MaterialOf, MnemonicFor, Opens, Seals, ChangePassphraseAddAdmin;
    Resealed(p, mnemonic, AddAdmin(was, will, admin), was, if admin == [] then will else will + [0] + admin, result);
  }

  lemma Resealed(p: Primitives, mnemonic: Mnemonic, s: Step, f: Bytes, g: Bytes, result: Mnemonic)
    requires Full(Before(s)) == f && Full(After(s)) == g
    ensures Apply(p, mnemonic, s) == Ok(result)
            <==> exists material: Material :: Opens(p, mnemonic, f, material) && Seals(p, material, g, result)
  {
    hide MaterialOf, MnemonicFor, Opens, Seals, Apply, Full;
    ApplyIsReseal(p, mnemonic, s);
    if MaterialOf(p, mnemonic, f).Ok? {
      var material := MaterialOf(p, mnemonic, f).value;
      MaterialIs(p, mnemonic, f, material);
      MnemonicIs(p, material, g, result);
    }
    forall material: Material | Opens(p, mnemonic, f, material) && Seals(p, material, g, result)
      ensures MaterialOf(p, mnemonic, f) == Ok(material) && MnemonicFor(p, material, g) == Ok(result)
    {
      MaterialIs(p, mnemonic, f, material);
      MnemonicIs(p, material, g, result);
    }
  }

  /** What a wallet shows: the seeds of the material that opens, and SHA3-256 of the sealed bytes and a tag. */
  lemma ViewIs(p: Primitives, mnemonic: Mnemonic, c: Credentials, wallet: Wallet)
    ensures ViewWallet(p, mnemonic, c) == Ok(wallet)
            <==> exists material: Material ::
                   && Opens(p, mnemonic, Full(c), material) && wallet.seeds == p.seedsOf(material)
                   && wallet.xid == p.sha3(p.entropy(mnemonic).value + AsciiBytes("acegf:xid"))
  {
    hide Full, AsciiBytes;
    if ViewWallet(p, mnemonic, c) == Ok(wallet) {
      var material := MaterialOf(p, mnemonic, Full(c)).value;
      assert Opens(p, mnemonic, Full(c), material);
    }
  }

  /** A new wallet: its words seal the material. */
  lemma GenerateIs(p: Primitives, material: Material, c: Credentials, mnemonic: Mnemonic, wallet: Wallet)
    ensures GenerateAce(p, material, c) == Ok((mnemonic, wallet))
            <==> Seals(p, material, Full(c), mnemonic) && wallet.seeds == p.seedsOf(material)
                 && wallet.xid == p.sha3(p.seal(p.expand(p.argon2(Full(c)).value), material) + AsciiBytes("acegf:xid"))
  {
    hide Full, AsciiBytes;
  }

  /** Opening a mnemonic step by step, with the error of each step. */
  lemma OpeningFails(p: Primitives, mnemonic: Mnemonic, full: Bytes)
    ensures MaterialOf(p, mnemonic, full) ==
            if p.entropy(mnemonic).None? then Err(InvalidFormat)
            else if |p.entropy(mnemonic).value| != 32 then Err(InvalidEntropy)
            else if p.argon2(full).None? then Err(KdfError)
            else
              match p.open(p.expand(p.argon2(full).value), p.entropy(mnemonic).value)
              case None => Err(InvalidPassphrase)
              case Some(plain) => if |plain| == 16 then Ok(plain) else Err(Internal)
  {
  }

  /** Viewing reports every undecodable mnemonic alike; otherwise it fails as opening does. */
  lemma ViewFails(p: Primitives, mnemonic: Mnemonic, c: Credentials)
    ensures ViewWallet(p, mnemonic, c).Ok? <==> MaterialOf(p, mnemonic, Full(c)).Ok?
    ensures ViewWallet(p, mnemonic, c).Err? ==>
              var e := MaterialOf(p, mnemonic, Full(c)).error;
              ViewWallet(p, mnemonic, c).error == if e == InvalidEntropy then InvalidFormat else e
  {
  }

  /** The root of vault keys: from the combined passphrase and the entropy of the mnemonic, which stays sealed. */
  lemma VaultRootIs(p: Primitives, mnemonic: Mnemonic, c: Credentials, root: Bytes)
    ensures VaultRoot(p, mnemonic, c) == Ok(root)
            <==> exists e: Bytes ::
                   p.entropy(mnemonic) == Some(e) && |e| == 32 && p.identityRoot(Full(c), e) == Some(root)
  {
    hide Full;
    if VaultRoot(p, mnemonic, c) == Ok(root) {
      var e := p.entropy(mnemonic).value;
      assert p.entropy(mnemonic) == Some(e);
    }
  }

  // ----- a model of the laws, and what they do not give -----

  function Tag(key: Bytes): (t: Bytes)
    ensures |t| == 16
  {
    if |key| >= 16 then key[..16] else key + Zeros(16 - |key|)
  }

  function ToyOpen(key: Bytes, c: Bytes): Option<Bytes> {
    if |c| >= 16 && c[|c| - 16..] == Tag(key) then Some(c[..|c| - 16]) else None
  }

  function NoSeeds(material: Bytes): WalletSeeds {
    SchemeSeeds(material, [], [], [], [], [], Zeros(32), [], Zeros(64))
  }

  /** Sealing that appends the key; good enough for the laws. */
  function Toy(): Primitives {
    Primitives(full => Some(full), key => key, (key, d) => d + Tag(key), (key, c) => ToyOpen(key, c),
               e => e, m => Some(m), m => NoSeeds(m), x => x, (full, sealed) => Some(full + sealed))
  }

  lemma LawsHaveAModel()
    ensures Toy().Laws()
  {
    forall key: Bytes, d: Bytes
      ensures ToyOpen(key, d + Tag(key)) == Some(d)
    {
      assert (d + Tag(key))[|d|..] == Tag(key) && (d + Tag(key))[..|d|] == d;
    }
    forall key: Bytes, c: Bytes | ToyOpen(key, c).Some?
      ensures c == ToyOpen(key, c).value + Tag(key)
    {
      assert c == c[..|c| - 16] + c[|c| - 16..];
    }
  }

  function ToyMnemonic(k: byte): Mnemonic {
    Zeros(16) + Tag([k])
  }

  lemma ToyWallet(k: byte)
    ensures ViewWallet(Toy(), ToyMnemonic(k), Credentials([k], None)).Ok?
    ensures var w := ViewWallet(Toy(), ToyMnemonic(k), Credentials([k], None)).value;
            w.seeds == NoSeeds(Zeros(16)) && |w.xid| == 41 && w.xid[16] == k
    ensures VaultRoot(Toy(), ToyMnemonic(k), Credentials([k], None)).Ok?
    ensures var root := VaultRoot(Toy(), ToyMnemonic(k), Credentials([k], None)).value; root != [] && root[0] == k
    ensures MaterialOf(Toy(), ToyMnemonic(k), [k]) == Ok(Zeros(16))
    ensures MnemonicFor(Toy(), Zeros(16), [k]) == Ok(ToyMnemonic(k))
  {
    var m := ToyMnemonic(k);
    assert m[16..] == Tag([k]) && m[..16] == Zeros(16);
    assert ToyOpen([k], m) == Some(Zeros(16));
  }

  /** A change keeps neither the fingerprint nor the root of vault keys: both are taken from the sealed bytes. */
  lemma FingerprintAndVaultsMove()
    ensures exists p: Primitives, mnemonic: Mnemonic, s: Step :: p.Laws() && Moves(p, mnemonic, s)
  {
    hide ViewWallet, VaultRoot, Apply, Toy, MaterialOf, MnemonicFor;
    LawsHaveAModel();
    var s := Change([1], [2], None);
    ToyWallet(1);
    ToyWallet(2);
    ApplyIsReseal(Toy(), ToyMnemonic(1), s);
    assert Moves(Toy(), ToyMnemonic(1), s);
  }

  /** A successful change after which the seeds are the same, but not the fingerprint or the vault root. */
  predicate Moves(p: Primitives, mnemonic: Mnemonic, s: Step) {
    var result := Apply(p, mnemonic, s);
    && result.Ok?
    && var before, after := ViewWallet(p, mnemonic, Before(s)), ViewWallet(p, result.value, After(s));
       && before.Ok? && after.Ok? && before.value.seeds == after.value.seeds && before.value.xid != after.value.xid
       && VaultRoot(p, mnemonic, Before(s)) != VaultRoot(p, result.value, After(s))
  }
}
