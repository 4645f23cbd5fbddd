/** The hybrid envelope, version 2: a deterministic wrap of the data key and a sealed blob. */
module Envelope {
  import opened Bytes
  import opened Clamping
  import opened Text
  import opened VaultContext
  import opened PassphraseSealing

  type Nonce16 = b: Bytes | |b| == 16 witness Zeros(16)
  type Iv12 = b: Bytes | |b| == 12 witness Zeros(12)

  const VERSION := "acegf-hybrid-kem-v2"
  const EK_BYTES := 1184
  const CT_BYTES := 1088
  const BASE_POINT: Key32 := [9] + Zeros(31)

  datatype EnvelopeError = Decoding | InternalError | Encryption | Unsealing(why: SealError)

  /** The library functions: HKDF-SHA256 (salt, key material, info, length), SHA-256, X25519 scalar
      multiplication without clamping, ML-KEM-768, AES-256-GCM (key, nonce, text) and Base64. */
  datatype Suite = Suite(
    sealing: Primitives,
    hkdf: (Option<Bytes>, Bytes, Bytes, nat) -> Bytes,
    sha256: Bytes -> Bytes,
    mul: (Bytes, Bytes) -> Key32,
    kemKeys: Bytes -> Option<(Bytes, Bytes)>,
    encaps: (Bytes, Bytes) -> Option<(Key32, Bytes)>,
    decaps: (Bytes, Bytes) -> Option<Key32>,
    gcmSeal: (Bytes, Bytes, Bytes) -> Option<Bytes>,
    gcmOpen: (Bytes, Bytes, Bytes) -> Option<Bytes>,
    encode64: Bytes -> string,
    decode64: string -> Option<Bytes>
  ) {
    /** The output lengths of HKDF and SHA-256. */
    ghost predicate Sized() {
      && (forall salt, ikm, info, n :: |hkdf(salt, ikm, info, n)| == n)
      && (forall x :: |sha256(x)| == 32)
    }

    /** Diffie-Hellman commutes on clamped scalars; decapsulation inverts encapsulation; opening inverts sealing;
        decoding inverts encoding. */
    ghost predicate Laws() {
      && Sized()
      && sealing.Laws()
      && (forall a: Key32, b: Key32 :: mul(Clamped(a), mul(Clamped(b), BASE_POINT)) == mul(Clamped(b), mul(Clamped(a), BASE_POINT)))
      && (forall seed, rand :: kemKeys(seed).Some? && encaps(kemKeys(seed).value.0, rand).Some? ==>
            var (shared, ct) := encaps(kemKeys(seed).value.0, rand).value;
            |ct| == CT_BYTES && decaps(kemKeys(seed).value.1, ct) == Some(shared))
      && (forall key, iv, text :: gcmSeal(key, iv, text).Some? ==> gcmOpen(key, iv, gcmSeal(key, iv, text).value) == Some(text))
      && (forall b :: decode64(encode64(b)) == Some(b))
    }
  }

  // ----- keys and secrets -----

  /** The library clamps a secret before it multiplies. */
  function PublicOf(p: Suite, secret: Key32): Key32 {
    p.mul(Clamped(secret), BASE_POINT)
  }

  function SharedWith(p: Suite, secret: Key32, peer: Key32): Key32 {
    p.mul(Clamped(secret), peer)
  }

  /** The X25519 identity that a wallet publishes. */
  function PublishedX25519(p: Suite, seeds: WalletSeeds): string {
    p.encode64(PublicOf(p, seeds.x25519))
  }

  /** The ML-KEM identity that a wallet publishes; key generation may fail. */
  function PublishedKem(p: Suite, seeds: WalletSeeds): Option<string> {
    match p.kemKeys(seeds.mlKem768)
    case None => None
    case Some((ek, _)) => Some(p.encode64(ek))
  }

  function WrapMaster(p: Suite, seeds: WalletSeeds): Bytes {
    p.hkdf(None, seeds.x25519 + seeds.mlKem768, AsciiBytes("wrap-master-v1"), 32)
  }

  function Seed64(p: Suite, master: Bytes, nonce: Nonce16, recipientX: Key32, recipientKem: Bytes): Bytes {
    p.hkdf(Some(nonce + recipientX + p.sha256(recipientKem)), master, AsciiBytes("yallet-wrap-seed-v2"), 64)
  }

  function Expand(p: Suite, seed64: Bytes, info: string, n: nat): Bytes {
    p.hkdf(None, seed64, AsciiBytes(info), n)
  }

  function DkKey(p: Suite, sharedX: Key32, sharedKem: Key32): Bytes {
    p.hkdf(None, sharedX + sharedKem, AsciiBytes("dk-wrap-v2"), 32)
  }

  function DataKey(p: Suite, seed64: Bytes): Bytes {
    Expand(p, seed64, "dk-v2", 32)
  }

  // ----- the envelope -----

  datatype Wrap = Wrap(ephX25519Pub: string, mlKemCt: string, iv: string, wrapCt: string)
  datatype Blob = Blob(iv: string, ciphertext: Bytes)
  datatype Payload = Payload(v: string, nonce: string, senderX25519: string, recipientX25519: string,
                             recipientXkemHash: string, wrap: Wrap, blob: Blob)

  /** Base64 of exactly n bytes. */
  function DecodeExactly(p: Suite, text: string, n: nat): (r: Option<Bytes>)
    ensures r.Some? ==> |r.value| == n
  {
    match p.decode64(text)
    case None => None
    case Some(b) => if |b| == n then Some(b) else None
  }

  /** The wrap for a seed and a recipient, as the construction is specified. */
  function WrapFor(p: Suite, seed64: Bytes, recipientX: Key32, recipientKem: Bytes): Option<Wrap>
    requires p.Sized()
  {
    var secret := Clamped(Expand(p, seed64, "eph-x25519-v2", 32));
    var iv := Expand(p, seed64, "wrap-iv-v2", 12);
    match p.encaps(recipientKem, Expand(p, seed64, "ml-kem-rand-v2", 32))
    case None => None
    case Some((sharedKem, ct)) =>
      match p.gcmSeal(DkKey(p, SharedWith(p, secret, recipientX), sharedKem), iv, DataKey(p, seed64))
      case None => None
      case Some(wrapCt) =>
        Some(Wrap(p.encode64(PublicOf(p, secret)), p.encode64(ct), p.encode64(iv), p.encode64(wrapCt)))
  }

  function Encrypted(p: Suite, mnemonic: Mnemonic, passphrase: Bytes, recipientX64: string, recipientKem64: string,
                     nonce: Nonce16, blobIv: Iv12, plaintext: Bytes): Result<Payload, EnvelopeError>
    requires p.Sized()
  {
    match (DecodeExactly(p, recipientX64, 32), DecodeExactly(p, recipientKem64, EK_BYTES))
    case (Some(rx), Some(rk)) => (
      match UnsealToSeeds(p.sealing, mnemonic, Credentials(passphrase, None))
      case Err(_) => Err(InternalError)
      case Ok(seeds) =>
        var seed64 := Seed64(p, WrapMaster(p, seeds), nonce, rx, rk);
        match (WrapFor(p, seed64, rx, rk), p.gcmSeal(DataKey(p, seed64), blobIv, plaintext))
        case (Some(wrap), Some(blobCt)) =>
          Ok(Payload(VERSION, p.encode64(nonce), PublishedX25519(p, seeds), recipientX64, p.encode64(p.sha256(rk)),
                     wrap, Blob(p.encode64(blobIv), blobCt)))
        case _ => Err(Encryption))
    case _ => Err(Decoding)
  }

  function Regenerated(p: Suite, mnemonic: Mnemonic, passphrase: Bytes, recipientX64: string, recipientKem64: string,
                       nonce64: string): Result<Wrap, EnvelopeError>
    requires p.Sized()
  {
    match (DecodeExactly(p, recipientX64, 32), DecodeExactly(p, recipientKem64, EK_BYTES), DecodeExactly(p, nonce64, 16))
    case (Some(rx), Some(rk), Some(nonce)) => (
      match UnsealToSeeds(p.sealing, mnemonic, Credentials(passphrase, None))
      case Err(_) => Err(InternalError)
      case Ok(seeds) =>
        match WrapFor(p, Seed64(p, WrapMaster(p, seeds), nonce, rx, rk), rx, rk)
        case None => Err(Encryption)
        case Some(wrap) => Ok(wrap))
    case _ => Err(Decoding)
  }

  /** Is this envelope addressed to these seeds? */
  predicate Addressed(p: Suite, payload: Payload, seeds: WalletSeeds) {
    && payload.v == VERSION
    && DecodeExactly(p, payload.recipientX25519, 32) == Some(PublicOf(p, seeds.x25519))
    && p.kemKeys(seeds.mlKem768).Some?
    && DecodeExactly(p, payload.recipientXkemHash, 32) == Some(p.sha256(p.kemKeys(seeds.mlKem768).value.0))
  }

  /** Opening the wrap gives the data key, and opening the blob with it the plaintext. */
  function Opened(p: Suite, payload: Payload, seeds: WalletSeeds, dkKem: Bytes): Result<Bytes, EnvelopeError> {
    match (DecodeExactly(p, payload.wrap.ephX25519Pub, 32), DecodeExactly(p, payload.wrap.mlKemCt, CT_BYTES),
           DecodeExactly(p, payload.wrap.iv, 12), p.decode64(payload.wrap.wrapCt), DecodeExactly(p, payload.blob.iv, 12))
    case (Some(eph), Some(ct), Some(iv), Some(wrapCt), Some(blobIv)) => (
      match p.decaps(dkKem, ct)
      case None => Err(Encryption)
      case Some(sharedKem) =>
        match p.gcmOpen(DkKey(p, SharedWith(p, seeds.x25519, eph), sharedKem), iv, wrapCt)
        case None => Err(Encryption)
        case Some(dk) =>
          if |dk| != 32 then Err(Decoding)
          else
            match p.gcmOpen(dk, blobIv, payload.blob.ciphertext)
            case None => Err(Encryption)
            case Some(plaintext) => Ok(plaintext))
    case _ => Err(Decoding)
  }

  function Decrypted(p: Suite, payload: Payload, seeds: WalletSeeds): Result<Bytes, EnvelopeError> {
    if payload.v != VERSION || DecodeExactly(p, payload.recipientX25519, 32) != Some(PublicOf(p, seeds.x25519)) then Err(Decoding)
    else if p.kemKeys(seeds.mlKem768).None? then Err(InternalError)
    else if !Addressed(p, payload, seeds) then Err(Decoding)
    else Opened(p, payload, seeds, p.kemKeys(seeds.mlKem768).value.1)
  }

  // ----- the operations -----

  method Copy32(s: Key32) returns (raw: array<byte>)
    ensures fresh(raw) && raw.Length == 32 && raw[..] == s
  {
    raw := new byte[32](i requires 0 <= i < 32 => s[i]);
  }

  method DecodeOf(p: Suite, text: string, n: nat) returns (r: Option<Bytes>)
    ensures r == DecodeExactly(p, text, n)
  {
    r := p.decode64(text);
    if r.Some? && |r.value| != n {
      r := None;
    }
  }

  method EncryptForRecipient(p: Suite, mnemonic: Mnemonic, passphrase: Bytes, recipientX64: string, recipientKem64: string,
                             nonceOpt: Option<Nonce16>, freshNonce: Nonce16, freshIv: Iv12, plaintext: Bytes)
    returns (r: Result<Payload, EnvelopeError>)
    requires p.Sized()
    ensures r == Encrypted(p, mnemonic, passphrase, recipientX64, recipientKem64,
                           if nonceOpt.Some? then nonceOpt.value else freshNonce, freshIv, plaintext)
  {
    hide UnsealToSeeds, DecodeExactly;
    var recipientX := DecodeOf(p, recipientX64, 32);
    if recipientX == None {
      return Err(Decoding);
    }
    var recipientKem := DecodeOf(p, recipientKem64, EK_BYTES);
    if recipientKem == None {
      return Err(Decoding);
    }
    var rx: Key32, rk := recipientX.value, recipientKem.value;
    var unsealed := UnsealToSeeds(p.sealing, mnemonic, Credentials(passphrase, None));
    if unsealed.Err? {
      return Err(InternalError);
    }
    var seeds := unsealed.value;
    var wrapMaster := WrapMaster(p, seeds);

    var senderRaw := Copy32(seeds.x25519);
    ClampInPlace(senderRaw);
    var senderPub := PublicOf(p, senderRaw[..]);
    ClampIdempotent(seeds.x25519);
    var senderX64 := p.encode64(senderPub);

    var nonce := freshNonce;
    if nonceOpt.Some? {
      nonce := nonceOpt.value;
    }

    var seed64 := Seed64(p, wrapMaster, nonce, rx, rk);
    var dk := Expand(p, seed64, "dk-v2", 32);
    var ephRaw := Copy32(Expand(p, seed64, "eph-x25519-v2", 32));
    ClampInPlace(ephRaw);
    var kemRand := Expand(p, seed64, "ml-kem-rand-v2", 32);
    var wrapIv := Expand(p, seed64, "wrap-iv-v2", 12);
    var ephPub := PublicOf(p, ephRaw[..]);
    var sharedX := SharedWith(p, ephRaw[..], rx);
    var encapsulated := p.encaps(rk, kemRand);
    if encapsulated == None {
      return Err(Encryption);
    }
    var (sharedKem, kemCt) := encapsulated.value;
    var dkKey := DkKey(p, sharedX, sharedKem);
    var wrapCt := p.gcmSeal(dkKey, wrapIv, dk);
    if wrapCt == None {
      return Err(Encryption);
    }
    var wrap := Wrap(p.encode64(ephPub), p.encode64(kemCt), p.encode64(wrapIv), p.encode64(wrapCt.value));
    assert WrapFor(p, seed64, rx, rk) == Some(wrap);
    var blobCt := p.gcmSeal(dk, freshIv, plaintext);
    if blobCt == None {
      return Err(Encryption);
    }
    var kemHash := p.sha256(rk);
    return Ok(Payload(VERSION, p.encode64(nonce), senderX64, recipientX64, p.encode64(kemHash),
                      wrap, Blob(p.encode64(freshIv), blobCt.value)));
  }

  method RegenerateWrap(p: Suite, mnemonic: Mnemonic, passphrase: Bytes, recipientX64: string, recipientKem64: string,
                        nonce64: string) returns (r: Result<Wrap, EnvelopeError>)
    requires p.Sized()
    ensures r == Regenerated(p, mnemonic, passphrase, recipientX64, recipientKem64, nonce64)
  {
    hide UnsealToSeeds, DecodeExactly;
    var recipientX := DecodeOf(p, recipientX64, 32);
    if recipientX == None {
      return Err(Decoding);
    }
    var recipientKem := DecodeOf(p, recipientKem64, EK_BYTES);
    if recipientKem == None {
      return Err(Decoding);
    }
    var rx: Key32, rk := recipientX.value, recipientKem.value;
    var nonceBytes := DecodeOf(p, nonce64, 16);
    if nonceBytes == None {
      return Err(Decoding);
    }
    var nonce: Nonce16 := nonceBytes.value;
    var unsealed := UnsealToSeeds(p.sealing, mnemonic, Credentials(passphrase, None));
    if unsealed.Err? {
      return Err(InternalError);
    }
    var seeds := unsealed.value;
    var wrapMaster := WrapMaster(p, seeds);

    var seed64 := Seed64(p, wrapMaster, nonce, rx, rk);
    var dk := Expand(p, seed64, "dk-v2", 32);
    var ephRaw := Copy32(Expand(p, seed64, "eph-x25519-v2", 32));
    ClampInPlace(ephRaw);
    var kemRand := Expand(p, seed64, "ml-kem-rand-v2", 32);
    var wrapIv := Expand(p, seed64, "wrap-iv-v2", 12);
    var ephPub := PublicOf(p, ephRaw[..]);
    var sharedX := SharedWith(p, ephRaw[..], rx);
    var encapsulated := p.encaps(rk, kemRand);
    if encapsulated == None {
      return Err(Encryption);
    }
    var (sharedKem, kemCt) := encapsulated.value;
    var dkKey := DkKey(p, sharedX, sharedKem);
    var wrapCt := p.gcmSeal(dkKey, wrapIv, dk);
    if wrapCt == None {
      return Err(Encryption);
    }
    return Ok(Wrap(p.encode64(ephPub), p.encode64(kemCt), p.encode64(wrapIv), p.encode64(wrapCt.value)));
  }

  method DecryptWithSeeds(p: Suite, payload: Payload, seeds: WalletSeeds) returns (r: Result<Bytes, EnvelopeError>)
    ensures r == Decrypted(p, payload, seeds)
  {
    hide DecodeExactly;
    if payload.v != VERSION {
      return Err(Decoding);
    }
    var checkRaw := Copy32(seeds.x25519);
    ClampInPlace(checkRaw);
    ClampIdempotent(seeds.x25519);
    var myX := PublicOf(p, checkRaw[..]);
    var envelopeX := DecodeOf(p, payload.recipientX25519, 32);
    if envelopeX == None || envelopeX.value != myX {
      return Err(Decoding);
    }
    var myKem := p.kemKeys(seeds.mlKem768);
    if myKem == None {
      return Err(InternalError);
    }
    var myKemHash := p.sha256(myKem.value.0);
    var envelopeHash := DecodeOf(p, payload.recipientXkemHash, 32);
    if envelopeHash == None || envelopeHash.value != myKemHash {
      return Err(Decoding);
    }

    var eph := DecodeOf(p, payload.wrap.ephX25519Pub, 32);
    if eph == None {
      return Err(Decoding);
    }
    var kemCt := DecodeOf(p, payload.wrap.mlKemCt, CT_BYTES);
    if kemCt == None {
      return Err(Decoding);
    }
    var wrapIv := DecodeOf(p, payload.wrap.iv, 12);
    if wrapIv == None {
      return Err(Decoding);
    }
    var wrapCt := p.decode64(payload.wrap.wrapCt);
    if wrapCt == None {
      return Err(Decoding);
    }
    var blobIv := DecodeOf(p, payload.blob.iv, 12);
    if blobIv == None {
      return Err(Decoding);
    }

    var raw := Copy32(seeds.x25519);
    ClampInPlace(raw);
    var sharedX := SharedWith(p, raw[..], eph.value);
    var again := p.kemKeys(seeds.mlKem768);
    if again == None {
      return Err(InternalError);
    }
    var sharedKem := p.decaps(again.value.1, kemCt.value);
    if sharedKem == None {
      return Err(Encryption);
    }
    var dkKey := DkKey(p, sharedX, sharedKem.value);
    var dk := p.gcmOpen(dkKey, wrapIv.value, wrapCt.value);
    if dk == None {
      return Err(Encryption);
    }
    if |dk.value| != 32 {
      return Err(Decoding);
    }
    var plaintext := p.gcmOpen(dk.value, blobIv.value, payload.blob.ciphertext);
    if plaintext == None {
      return Err(Encryption);
    }
    return Ok(plaintext.value);
  }

  function DecryptForRecipient(p: Suite, mnemonic: Mnemonic, c: Credentials, payload: Payload): Result<Bytes, EnvelopeError> {
    match UnsealToSeeds(p.sealing, mnemonic, c)
    case Err(_) => Err(InternalError)
    case Ok(seeds) => Decrypted(p, payload, seeds)
  }

  function DecryptWithBaseKey(p: Suite, mnemonic: Mnemonic, baseKey: Bytes, payload: Payload): Result<Bytes, EnvelopeError> {
    match UnsealToSeedsWithBaseKey(p.sealing, mnemonic, baseKey)
    case Err(e) => Err(Unsealing(e))
    case Ok(seeds) => Decrypted(p, payload, seeds)
  }
}
