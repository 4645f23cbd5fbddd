/** Sealing 16 bytes of identity material under a passphrase, behind a mnemonic. */
module PassphraseSealing {
  import opened Bytes
  import opened Text
  import opened VaultContext

  type Material = b: Bytes | |b| == 16 witness Zeros(16)
  type Sealed = b: Bytes | |b| == 32 witness Zeros(32)
  /** The text of a mnemonic, in UTF-8. */
  type Mnemonic = Bytes

  datatype SealError = InvalidFormat | InvalidEntropy | KdfError | InvalidPassphrase | Internal

  /** The library functions: Argon2id (which may fail), HKDF, AES-256-GCM-SIV under a fixed nonce, BIP39,
      the nine seeds derived from material, SHA3-256, and the identity root of the context path. */
  datatype Primitives = Primitives(
    argon2: Bytes -> Option<Bytes>,
    expand: Bytes -> Bytes,
    seal: (Bytes, Bytes) -> Bytes,
    open: (Bytes, Bytes) -> Option<Bytes>,
    words: Bytes -> Mnemonic,
    entropy: Mnemonic -> Option<Bytes>,
    seedsOf: Bytes -> WalletSeeds,
    sha3: Bytes -> Bytes,
    identityRoot: (Bytes, Bytes) -> Option<Bytes>
  ) {
    /** Opening inverts sealing; deterministic sealing opens only its own output; a mnemonic spells its entropy. */
    ghost predicate Laws() {
      && (forall k, d :: |seal(k, d)| == |d| + 16)
      && (forall k, d :: open(k, seal(k, d)) == Some(d))
      && (forall k, c :: open(k, c).Some? ==> c == seal(k, open(k, c).value))
      && (forall e :: |e| == 32 ==> entropy(words(e)) == Some(e))
    }
  }

  datatype Credentials = Credentials(primary: Bytes, secondary: Option<Bytes>)

  function CombinePassphrase(primary: Bytes, secondary: Option<Bytes>): Bytes {
    match secondary
    case None => primary
    case Some(s) => primary + [0] + s
  }

  function Full(c: Credentials): Bytes {
    CombinePassphrase(c.primary, c.secondary)
  }

  // ----- sealing and unsealing -----

  function DeriveBaseKey(p: Primitives, passphrase: Bytes): Result<Bytes, SealError> {
    match p.argon2(passphrase)
    case None => Err(KdfError)
    case Some(k) => Ok(k)
  }

  function SealIdentityMaterial(p: Primitives, material: Material, passphrase: Bytes): Result<Sealed, SealError> {
    match DeriveBaseKey(p, passphrase)
    case Err(e) => Err(e)
    case Ok(baseKey) =>
      var ciphertext := p.seal(p.expand(baseKey), material);
      if |ciphertext| == 32 then Ok(ciphertext) else Err(Internal)
  }

  function UnsealWithBaseKey(p: Primitives, sealed: Sealed, baseKey: Bytes): Result<Material, SealError> {
    match p.open(p.expand(baseKey), sealed)
    case None => Err(InvalidPassphrase)
    case Some(plaintext) => if |plaintext| == 16 then Ok(plaintext) else Err(Internal)
  }

  function UnsealIdentityMaterial(p: Primitives, sealed: Sealed, passphrase: Bytes): Result<Material, SealError> {
    match DeriveBaseKey(p, passphrase)
    case Err(e) => Err(e)
    case Ok(baseKey) => UnsealWithBaseKey(p, sealed, baseKey)
  }

  function DecodeMnemonicToSealed(p: Primitives, mnemonic: Mnemonic): Result<Sealed, SealError> {
    match p.entropy(mnemonic)
    case None => Err(InvalidFormat)
    case Some(e) => if |e| == 32 then Ok(e) else Err(InvalidEntropy)
  }

  // ----- wallets -----

  /** What a wallet shows; the addresses are functions of the seeds. */
  datatype Wallet = Wallet(seeds: SchemeSeeds, xid: Bytes)

  /** What is hashed to a fingerprint. */
  function XidInput(sealed: Sealed): Bytes {
    sealed + AsciiBytes("acegf:xid")
  }

  function ComputeXid(p: Primitives, sealed: Sealed): Bytes {
    p.sha3(XidInput(sealed))
  }

  /** A new wallet around fresh random material: its mnemonic and what it shows. */
  function GenerateAce(p: Primitives, material: Material, c: Credentials): Result<(Mnemonic, Wallet), SealError> {
    match SealIdentityMaterial(p, material, Full(c))
    case Err(e) => Err(e)
    case Ok(sealed) => Ok((p.words(sealed), Wallet(p.seedsOf(material), ComputeXid(p, sealed))))
  }

  function UnsealToSeeds(p: Primitives, mnemonic: Mnemonic, c: Credentials): Result<WalletSeeds, SealError> {
    match DecodeMnemonicToSealed(p, mnemonic)
    case Err(_) => Err(InvalidFormat)
    case Ok(sealed) =>
      match UnsealIdentityMaterial(p, sealed, Full(c))
      case Err(e) => Err(e)
      case Ok(material) => Ok(p.seedsOf(material))
  }

  function UnsealToSeedsWithBaseKey(p: Primitives, mnemonic: Mnemonic, baseKey: Bytes): Result<WalletSeeds, SealError> {
    match DecodeMnemonicToSealed(p, mnemonic)
    case Err(e) => Err(e)
    case Ok(sealed) =>
      match UnsealWithBaseKey(p, sealed, baseKey)
      case Err(e) => Err(e)
      case Ok(material) => Ok(p.seedsOf(material))
  }

  function ViewWallet(p: Primitives, mnemonic: Mnemonic, c: Credentials): Result<Wallet, SealError> {
    match DecodeMnemonicToSealed(p, mnemonic)
    case Err(_) => Err(InvalidFormat)
    case Ok(sealed) =>
      match UnsealToSeeds(p, mnemonic, c)
      case Err(e) => Err(e)
      case Ok(seeds) => Ok(Wallet(seeds, ComputeXid(p, sealed)))
  }

  function ViewWalletWithBaseKey(p: Primitives, mnemonic: Mnemonic, baseKey: Bytes): Result<Wallet, SealError> {
    match DecodeMnemonicToSealed(p, mnemonic)
    case Err(e) => Err(e)
    case Ok(sealed) =>
      match UnsealToSeedsWithBaseKey(p, mnemonic, baseKey)
      case Err(e) => Err(e)
      case Ok(seeds) => Ok(Wallet(seeds, ComputeXid(p, sealed)))
  }

  /** The root of the keys of a vault: from the passphrase and the sealed bytes, without unsealing. */
  function VaultRoot(p: Primitives, mnemonic: Mnemonic, c: Credentials): Result<Bytes, SealError> {
    match DecodeMnemonicToSealed(p, mnemonic)
    case Err(e) => Err(InvalidFormat)
    case Ok(sealed) =>
      match p.identityRoot(Full(c), sealed)
      case None => Err(KdfError)
      case Some(root) => Ok(root)
  }

  // ----- changing the passphrase -----

  function ChangePassphrase(p: Primitives, mnemonic: Mnemonic, oldPass: Bytes, newPass: Bytes, secondary: Option<Bytes>)
    : Result<Mnemonic, SealError>
  {
    match DecodeMnemonicToSealed(p, mnemonic)
    case Err(e) => Err(e)
    case Ok(sealed) =>
      match UnsealIdentityMaterial(p, sealed, CombinePassphrase(oldPass, secondary))
      case Err(e) => Err(e)
      case Ok(material) =>
        match SealIdentityMaterial(p, material, CombinePassphrase(newPass, secondary))
        case Err(e) => Err(e)
        case Ok(resealed) => Ok(p.words(resealed))
  }

  function ChangePassphraseMixed(p: Primitives, mnemonic: Mnemonic, from: Credentials, to: Credentials)
    : Result<Mnemonic, SealError>
  {
    match DecodeMnemonicToSealed(p, mnemonic)
    case Err(e) => Err(e)
    case Ok(sealed) =>
      match UnsealIdentityMaterial(p, sealed, CombinePassphrase(from.primary, from.secondary))
      case Err(e) => Err(e)
      case Ok(material) =>
        match SealIdentityMaterial(p, material, CombinePassphrase(to.primary, to.secondary))
        case Err(e) => Err(e)
        case Ok(resealed) => Ok(p.words(resealed))
  }

  function ChangePassphraseAddAdmin(p: Primitives, mnemonic: Mnemonic, existing: Bytes, newPass: Bytes, admin: Bytes)
    : Result<Mnemonic, SealError>
  {
    ChangePassphraseMixed(p, mnemonic, Credentials(existing, None),
                          Credentials(newPass, if admin == [] then None else Some(admin)))
  }
}
