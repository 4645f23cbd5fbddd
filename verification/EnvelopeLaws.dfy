/** What the envelope promises: it opens for its recipient, and its wrap can be made again. */
module EnvelopeLaws {
  import opened Bytes
  import opened Clamping
  import opened Crypto
  import opened VaultContext
  import opened PassphraseSealing
  import opened Rekeying
  import opened Text
  import opened Envelope

  lemma DecodesWhatItEncoded(p: Suite, b: Bytes, n: nat)
    requires p.Laws()
    ensures DecodeExactly(p, p.encode64(b), n) == if |b| == n then Some(b) else None
  {
  }

  /** Both ends compute one X25519 secret, although the ephemeral scalar is clamped twice. */
  lemma SharedSecretsAgree(p: Suite, raw: Key32, recipient: Key32)
    requires p.Laws()
    ensures SharedWith(p, Clamped(raw), PublicOf(p, recipient)) == SharedWith(p, recipient, PublicOf(p, Clamped(raw)))
  {
    hide Clamped;
    ClampIdempotent(raw);
  }

  /** Both ends compute one KEM secret. */
  lemma KemAgrees(p: Suite, seed: Bytes, rand: Bytes)
    requires p.Laws() && p.kemKeys(seed).Some? && p.encaps(p.kemKeys(seed).value.0, rand).Some?
    ensures var (shared, ct) := p.encaps(p.kemKeys(seed).value.0, rand).value;
            |ct| == CT_BYTES && p.decaps(p.kemKeys(seed).value.1, ct) == Some(shared)
  {
  }

  lemma GcmOpens(p: Suite, key: Bytes, iv: Bytes, text: Bytes)
    requires p.Laws() && p.gcmSeal(key, iv, text).Some?
    ensures p.gcmOpen(key, iv, p.gcmSeal(key, iv, text).value) == Some(text)
    ensures p.decode64(p.encode64(p.gcmSeal(key, iv, text).value)) == p.gcmSeal(key, iv, text)
  {
  }

  lemma ExpandLength(p: Suite, seed64: Bytes, info: string, n: nat)
    requires p.Laws()
    ensures p.Sized() && |Expand(p, seed64, info, n)| == n
  {
  }

  /** A wrap made for a wallet opens, with the blob, for that wallet. */
  lemma WrapOpens(p: Suite, seed64: Bytes, seeds: WalletSeeds, payload: Payload, blobIv: Iv12, plaintext: Bytes)
    requires p.Laws() && p.kemKeys(seeds.mlKem768).Some?
    requires WrapFor(p, seed64, PublicOf(p, seeds.x25519), p.kemKeys(seeds.mlKem768).value.0) == Some(payload.wrap)
    requires p.gcmSeal(DataKey(p, seed64), blobIv, plaintext) == Some(payload.blob.ciphertext)
    requires payload.blob.iv == p.encode64(blobIv)
    ensures Opened(p, payload, seeds, p.kemKeys(seeds.mlKem768).value.1) == Ok(plaintext)
  {
    hide DecodeExactly, Clamped, DkKey, PublicOf, SharedWith, Expand, Suite.Laws, Suite.Sized;
    ExpandLength(p, seed64, "eph-x25519-v2", 32);
    ExpandLength(p, seed64, "wrap-iv-v2", 12);
    ExpandLength(p, seed64, "dk-v2", 32);
    var raw: Key32 := Expand(p, seed64, "eph-x25519-v2", 32);
    var secret := Clamped(raw);
    var iv := Expand(p, seed64, "wrap-iv-v2", 12);
    var (ek, dkKem) := p.kemKeys(seeds.mlKem768).value;
    var rand := Expand(p, seed64, "ml-kem-rand-v2", 32);
    var (sharedKem, ct) := p.encaps(ek, rand).value;
    KemAgrees(p, seeds.mlKem768, rand);
    SharedSecretsAgree(p, raw, seeds.x25519);
    DecodesWhatItEncoded(p, PublicOf(p, secret), 32);
    DecodesWhatItEncoded(p, ct, CT_BYTES);
    DecodesWhatItEncoded(p, iv, 12);
    DecodesWhatItEncoded(p, blobIv, 12);
    GcmOpens(p, DkKey(p, SharedWith(p, secret, PublicOf(p, seeds.x25519)), sharedKem), iv, DataKey(p, seed64));
    GcmOpens(p, DataKey(p, seed64), blobIv, plaintext);
  }

  /** Whatever is encrypted to the published keys of a wallet, that wallet's seeds decrypt. */
  lemma EnvelopeRoundTrip(p: Suite, mnemonic: Mnemonic, passphrase: Bytes, recipient: WalletSeeds,
                          nonce: Nonce16, blobIv: Iv12, plaintext: Bytes)
    requires p.Laws() && p.kemKeys(recipient.mlKem768).Some?
    requires Encrypted(p, mnemonic, passphrase, PublishedX25519(p, recipient), PublishedKem(p, recipient).value,
                       nonce, blobIv, plaintext).Ok?
    ensures var payload := Encrypted(p, mnemonic, passphrase, PublishedX25519(p, recipient),
                                     PublishedKem(p, recipient).value, nonce, blobIv, plaintext).value;
            Decrypted(p, payload, recipient) == Ok(plaintext)
  {
    hide DecodeExactly, UnsealToSeeds, WrapFor, Opened, PublicOf, Seed64, DataKey;
    var (ek, dkKem) := p.kemKeys(recipient.mlKem768).value;
    DecodesWhatItEncoded(p, PublicOf(p, recipient.x25519), 32);
    DecodesWhatItEncoded(p, ek, EK_BYTES);
    DecodesWhatItEncoded(p, p.sha256(ek), 32);
    var payload := Encrypted(p, mnemonic, passphrase, PublishedX25519(p, recipient),
                             PublishedKem(p, recipient).value, nonce, blobIv, plaintext).value;
    var seeds := UnsealToSeeds(p.sealing, mnemonic, Credentials(passphrase, None)).value;
    var seed64 := Seed64(p, WrapMaster(p, seeds), nonce, PublicOf(p, recipient.x25519), ek);
    WrapOpens(p, seed64, recipient, payload, blobIv, plaintext);
  }

  /** Decryption returns the plaintext through the recipient's passphrase, with or without a secondary, and
      through the base key of that passphrase. */
  lemma RecipientDecrypts(p: Suite, mnemonic: Mnemonic, passphrase: Bytes, nonce: Nonce16, blobIv: Iv12, plaintext: Bytes,
                          theirs: Mnemonic, c: Credentials)
    requires p.Laws() && UnsealToSeeds(p.sealing, theirs, c).Ok?
    requires var seeds := UnsealToSeeds(p.sealing, theirs, c).value;
             && p.kemKeys(seeds.mlKem768).Some?
             && Encrypted(p, mnemonic, passphrase, PublishedX25519(p, seeds), PublishedKem(p, seeds).value,
                          nonce, blobIv, plaintext).Ok?
    ensures var seeds := UnsealToSeeds(p.sealing, theirs, c).value;
            var payload := Encrypted(p, mnemonic, passphrase, PublishedX25519(p, seeds), PublishedKem(p, seeds).value,
                                     nonce, blobIv, plaintext).value;
            && DecryptForRecipient(p, theirs, c, payload) == Ok(plaintext)
            && p.sealing.argon2(Full(c)).Some?
            && DecryptWithBaseKey(p, theirs, p.sealing.argon2(Full(c)).value, payload) == Ok(plaintext)
  {
    hide Encrypted, Decrypted, PublishedX25519, PublishedKem;
    EnvelopeRoundTrip(p, mnemonic, passphrase, UnsealToSeeds(p.sealing, theirs, c).value, nonce, blobIv, plaintext);
  }

  /** The wrap is made again, field by field, from the stored nonce: by anyone whose mnemonic and passphrase
      unseal to the sender's seeds. Substituting it changes nothing. */
  lemma WrapRegenerates(p: Suite, mnemonic: Mnemonic, passphrase: Bytes, recipientX64: string, recipientKem64: string,
                        nonce: Nonce16, blobIv: Iv12, plaintext: Bytes, mnemonic': Mnemonic, passphrase': Bytes)
    requires p.Laws()
    requires Encrypted(p, mnemonic, passphrase, recipientX64, recipientKem64, nonce, blobIv, plaintext).Ok?
    requires UnsealToSeeds(p.sealing, mnemonic', Credentials(passphrase', None))
          == UnsealToSeeds(p.sealing, mnemonic, Credentials(passphrase, None))
    ensures var payload := Encrypted(p, mnemonic, passphrase, recipientX64, recipientKem64, nonce, blobIv, plaintext).value;
            var again := Regenerated(p, mnemonic', passphrase', recipientX64, recipientKem64, payload.nonce);
            again == Ok(payload.wrap) && payload.(wrap := again.value) == payload
  {
    hide DecodeExactly, UnsealToSeeds, WrapFor, Seed64, DataKey;
    DecodesWhatItEncoded(p, nonce, 16);
  }

  /** After any run of passphrase changes the sender still makes the same wrap, from the new mnemonic and the last
      passphrase: with an admin factor, the combined one. */
  lemma WrapSurvivesRekeying(p: Suite, mnemonic: Mnemonic, passphrase: Bytes, recipientX64: string, recipientKem64: string,
                             nonce: Nonce16, blobIv: Iv12, plaintext: Bytes, steps: seq<Step>)
    requires p.Laws()
    requires Encrypted(p, mnemonic, passphrase, recipientX64, recipientKem64, nonce, blobIv, plaintext).Ok?
    requires Chained(passphrase, steps) && Run(p.sealing, mnemonic, steps).Ok?
    ensures var payload := Encrypted(p, mnemonic, passphrase, recipientX64, recipientKem64, nonce, blobIv, plaintext).value;
            Regenerated(p, Run(p.sealing, mnemonic, steps).value, LastPassphrase(passphrase, steps),
                        recipientX64, recipientKem64, payload.nonce) == Ok(payload.wrap)
  {
    var last := LastPassphrase(passphrase, steps);
    var rekeyed := Run(p.sealing, mnemonic, steps).value;
    EncryptedUnseals(p, mnemonic, passphrase, recipientX64, recipientKem64, nonce, blobIv, plaintext);
    SeedsAfterRun(p.sealing, mnemonic, passphrase, steps);
    WrapRegenerates(p, mnemonic, passphrase, recipientX64, recipientKem64, nonce, blobIv, plaintext, rekeyed, last);
  }

  lemma EncryptedUnseals(p: Suite, mnemonic: Mnemonic, passphrase: Bytes, recipientX64: string, recipientKem64: string,
                         nonce: Nonce16, blobIv: Iv12, plaintext: Bytes)
    requires p.Sized()
    requires Encrypted(p, mnemonic, passphrase, recipientX64, recipientKem64, nonce, blobIv, plaintext).Ok?
    ensures UnsealToSeeds(p.sealing, mnemonic, Credentials(passphrase, None)).Ok?
  {
    hide DecodeExactly, UnsealToSeeds, WrapFor;
  }

  lemma SeedsAfterRun(p: Primitives, mnemonic: Mnemonic, passphrase: Bytes, steps: seq<Step>)
    requires p.Laws() && UnsealToSeeds(p, mnemonic, Credentials(passphrase, None)).Ok?
    requires Chained(passphrase, steps) && Run(p, mnemonic, steps).Ok?
    ensures UnsealToSeeds(p, Run(p, mnemonic, steps).value, Credentials(LastPassphrase(passphrase, steps), None))
         == UnsealToSeeds(p, mnemonic, Credentials(passphrase, None))
  {
    hide Run, Chained, LastPassphrase, UnsealIdentityMaterial, DecodeMnemonicToSealed;
    RunKeepsMaterial(p, mnemonic, passphrase, steps);
  }

  /** An envelope opens only for wallets with the published identity that it names. */
  lemma OpensForOneIdentity(p: Suite, payload: Payload, s: WalletSeeds, t: WalletSeeds)
    requires Decrypted(p, payload, s).Ok? && Decrypted(p, payload, t).Ok?
    ensures PublishedX25519(p, s) == PublishedX25519(p, t)
    ensures || PublishedKem(p, s) == PublishedKem(p, t)
            || Collides(p.sha256, p.kemKeys(s.mlKem768).value.0, p.kemKeys(t.mlKem768).value.0)
  {
    hide Opened, DecodeExactly, PublicOf;
  }

  /** The salt of a wrap names its nonce and its recipient, up to collisions of SHA-256. */
  lemma SaltNamesRecipient(p: Suite, nonce: Nonce16, rx: Key32, rk: Bytes, nonce': Nonce16, rx': Key32, rk': Bytes)
    requires p.Sized()
    requires nonce + rx + p.sha256(rk) == nonce' + rx' + p.sha256(rk')
    ensures nonce == nonce' && rx == rx' && (rk == rk' || Collides(p.sha256, rk, rk'))
  {
    SplitAt(nonce + rx, p.sha256(rk), nonce' + rx', p.sha256(rk'));
    SplitAt(nonce, rx, nonce', rx');
  }

  /** One seed for two wraps of one sender means one nonce and one recipient, or a collision: of SHA-256 on the two KEM
      keys, or of HKDF on the two salts. */
  lemma SeedNamesRecipient(p: Suite, master: Bytes, nonce: Nonce16, rx: Key32, rk: Bytes, nonce': Nonce16, rx': Key32, rk': Bytes)
    requires p.Sized() && Seed64(p, master, nonce, rx, rk) == Seed64(p, master, nonce', rx', rk')
    ensures || (nonce == nonce' && rx == rx' && (rk == rk' || Collides(p.sha256, rk, rk')))
            || Collides(salt => p.hkdf(Some(salt), master, AsciiBytes("yallet-wrap-seed-v2"), 64),
                        nonce + rx + p.sha256(rk), nonce' + rx' + p.sha256(rk'))
  {
    hide AsciiBytes;
    if nonce + rx + p.sha256(rk) == nonce' + rx' + p.sha256(rk') {
      SaltNamesRecipient(p, nonce, rx, rk, nonce', rx', rk');
    }
  }

  // ----- the construction written out -----

  /** HKDF-SHA256 without salt on a label. */
  function Derived(p: Suite, ikm: Bytes, name: string, n: nat): Bytes {
    p.hkdf(None, ikm, AsciiBytes(name), n)
  }

  /** The base point of X25519 in bytes. */
  function Nine(): Key32 { [9] + Zeros(31) }

  /** Encryption succeeds exactly when the keys have 32 and 1184 bytes, the sender's wallet opens, and the library
      encapsulates and seals. */
  lemma EncryptionSucceeds(p: Suite, mnemonic: Mnemonic, passphrase: Bytes, rx64: string, rk64: string,
                           nonce: Nonce16, blobIv: Iv12, plaintext: Bytes)
    requires p.Sized()
    ensures var rx, rk := p.decode64(rx64), p.decode64(rk64);
            var unsealed := UnsealToSeeds(p.sealing, mnemonic, Credentials(passphrase, None));
            var r := Encrypted(p, mnemonic, passphrase, rx64, rk64, nonce, blobIv, plaintext);
            if rx == None || rk == None || |rx.value| != 32 || |rk.value| != 1184 then r == Err(Decoding)
            else if unsealed.Err? then r == Err(InternalError)
            else
              var seed64 := SeedOf(p, unsealed.value, nonce, rx.value, rk.value);
              if WrapFor(p, seed64, rx.value, rk.value) == None
                 || p.gcmSeal(Derived(p, seed64, "dk-v2", 32), blobIv, plaintext) == None then r == Err(Encryption)
              else r.Ok?
  {
    hide UnsealToSeeds, WrapFor, AsciiBytes;
  }

  /** The seed of a wrap from the sender's seeds, the nonce and the recipient's two keys. */
  function SeedOf(p: Suite, seeds: WalletSeeds, nonce: Nonce16, rx: Key32, rk: Bytes): Bytes {
    p.hkdf(Some(nonce + rx + p.sha256(rk)), Derived(p, seeds.x25519 + seeds.mlKem768, "wrap-master-v1", 32),
           AsciiBytes("yallet-wrap-seed-v2"), 64)
  }

  /** Every field of the wrap as library terms: keys, labels, lengths and the order of what is joined. */
  lemma WrapIs(p: Suite, seed64: Bytes, rx: Key32, rk: Bytes, wrap: Wrap)
    requires p.Sized() && WrapFor(p, seed64, rx, rk) == Some(wrap)
    ensures var eph := Clamped(Derived(p, seed64, "eph-x25519-v2", 32));
            var iv := Derived(p, seed64, "wrap-iv-v2", 12);
            var encapsulated := p.encaps(rk, Derived(p, seed64, "ml-kem-rand-v2", 32));
            && encapsulated.Some?
            && var (shared, ct) := encapsulated.value;
               var wrapCt := p.gcmSeal(Derived(p, p.mul(eph, rx) + shared, "dk-wrap-v2", 32), iv, Derived(p, seed64, "dk-v2", 32));
               && wrapCt.Some?
               && wrap.ephX25519Pub == p.encode64(p.mul(eph, Nine()))
               && wrap.mlKemCt == p.encode64(ct)
               && wrap.iv == p.encode64(iv)
               && wrap.wrapCt == p.encode64(wrapCt.value)
  {
    hide Clamped, AsciiBytes;
    ClampIdempotent(Derived(p, seed64, "eph-x25519-v2", 32));
  }

  /** There is no wrap only where the library does not encapsulate or seal. */
  lemma WrapFails(p: Suite, seed64: Bytes, rx: Key32, rk: Bytes)
    requires p.Sized()
    ensures var eph := Clamped(Derived(p, seed64, "eph-x25519-v2", 32));
            var encapsulated := p.encaps(rk, Derived(p, seed64, "ml-kem-rand-v2", 32));
            WrapFor(p, seed64, rx, rk) == None
            <==> encapsulated == None
                 || p.gcmSeal(Derived(p, p.mul(eph, rx) + encapsulated.value.0, "dk-wrap-v2", 32),
                              Derived(p, seed64, "wrap-iv-v2", 12), Derived(p, seed64, "dk-v2", 32)) == None
  {
    hide Clamped, AsciiBytes;
    ClampIdempotent(Derived(p, seed64, "eph-x25519-v2", 32));
  }

  /** Regeneration: which error, and otherwise the wrap for the seed of the given nonce and keys. */
  lemma RegenerationIs(p: Suite, mnemonic: Mnemonic, passphrase: Bytes, rx64: string, rk64: string, nonce64: string)
    requires p.Sized()
    ensures var rx, rk, nonce := p.decode64(rx64), p.decode64(rk64), p.decode64(nonce64);
            var unsealed := UnsealToSeeds(p.sealing, mnemonic, Credentials(passphrase, None));
            Regenerated(p, mnemonic, passphrase, rx64, rk64, nonce64) ==
            if rx == None || rk == None || nonce == None
               || |rx.value| != 32 || |rk.value| != 1184 || |nonce.value| != 16 then Err(Decoding)
            else if unsealed.Err? then Err(InternalError)
            else
              match WrapFor(p, SeedOf(p, unsealed.value, nonce.value, rx.value, rk.value), rx.value, rk.value)
              case None => Err(Encryption)
              case Some(wrap) => Ok(wrap)
  {
    hide UnsealToSeeds, WrapFor, AsciiBytes;
  }

  /** Every field of the envelope. */
  lemma EnvelopeIs(p: Suite, mnemonic: Mnemonic, passphrase: Bytes, rx64: string, rk64: string,
                   nonce: Nonce16, blobIv: Iv12, plaintext: Bytes)
    requires p.Sized() && Encrypted(p, mnemonic, passphrase, rx64, rk64, nonce, blobIv, plaintext).Ok?
    ensures var payload := Encrypted(p, mnemonic, passphrase, rx64, rk64, nonce, blobIv, plaintext).value;
            var rx, rk := p.decode64(rx64), p.decode64(rk64);
            var unsealed := UnsealToSeeds(p.sealing, mnemonic, Credentials(passphrase, None));
            && rx.Some? && |rx.value| == 32 && rk.Some? && |rk.value| == 1184 && unsealed.Ok?
            && var seed64 := SeedOf(p, unsealed.value, nonce, rx.value, rk.value);
               && payload.v == "acegf-hybrid-kem-v2"
               && payload.nonce == p.encode64(nonce)
               && payload.senderX25519 == p.encode64(p.mul(Clamped(unsealed.value.x25519), Nine()))
               && payload.recipientX25519 == rx64
               && payload.recipientXkemHash == p.encode64(p.sha256(rk.value))
               && WrapFor(p, seed64, rx.value, rk.value) == Some(payload.wrap)
               && payload.blob.iv == p.encode64(blobIv)
               && p.gcmSeal(Derived(p, seed64, "dk-v2", 32), blobIv, plaintext) == Some(payload.blob.ciphertext)
  {
    hide UnsealToSeeds, WrapFor, AsciiBytes, Clamped;
  }

  /** Decryption as library terms: an envelope gives a plaintext exactly when its version and both its bindings are the
      wallet's, every field decodes to its length, and both openings succeed. */
  lemma DecryptionIs(p: Suite, payload: Payload, seeds: WalletSeeds, plaintext: Bytes)
    ensures Decrypted(p, payload, seeds) == Ok(plaintext) <==>
            && payload.v == "acegf-hybrid-kem-v2"
            && p.decode64(payload.recipientX25519) == Some(p.mul(Clamped(seeds.x25519), Nine()))
            && var keys, hash := p.kemKeys(seeds.mlKem768), p.decode64(payload.recipientXkemHash);
               var eph, ct, iv := p.decode64(payload.wrap.ephX25519Pub), p.decode64(payload.wrap.mlKemCt), p.decode64(payload.wrap.iv);
               var wrapCt, blobIv := p.decode64(payload.wrap.wrapCt), p.decode64(payload.blob.iv);
               && keys.Some? && hash == Some(p.sha256(keys.value.0)) && |hash.value| == 32
               && eph.Some? && |eph.value| == 32 && ct.Some? && |ct.value| == 1088 && iv.Some? && |iv.value| == 12
               && wrapCt.Some? && blobIv.Some? && |blobIv.value| == 12
               && var shared := p.decaps(keys.value.1, ct.value);
                  && shared.Some?
                  && var dk := p.gcmOpen(Derived(p, p.mul(Clamped(seeds.x25519), eph.value) + shared.value, "dk-wrap-v2", 32),
                                         iv.value, wrapCt.value);
                     && dk.Some? && |dk.value| == 32
                     && p.gcmOpen(dk.value, blobIv.value, payload.blob.ciphertext) == Some(plaintext)
  {
    hide AsciiBytes, Clamped;
  }

  /** Why decryption fails: a foreign envelope or a field that does not decode, a library that makes no keys, or an
      opening that fails; a data key of another length counts as a field that does not decode. */
  lemma DecryptionFails(p: Suite, payload: Payload, seeds: WalletSeeds)
    requires Decrypted(p, payload, seeds).Err?
    ensures var keys, hash := p.kemKeys(seeds.mlKem768), p.decode64(payload.recipientXkemHash);
            var eph, ct, iv := p.decode64(payload.wrap.ephX25519Pub), p.decode64(payload.wrap.mlKemCt), p.decode64(payload.wrap.iv);
            var wrapCt, blobIv := p.decode64(payload.wrap.wrapCt), p.decode64(payload.blob.iv);
            Decrypted(p, payload, seeds).error ==
            if payload.v != "acegf-hybrid-kem-v2"
               || p.decode64(payload.recipientX25519) != Some(p.mul(Clamped(seeds.x25519), Nine())) then Decoding
            else if keys == None then InternalError
            else if hash != Some(p.sha256(keys.value.0)) || |hash.value| != 32 then Decoding
            else if eph == None || ct == None || iv == None || wrapCt == None || blobIv == None
                    || |eph.value| != 32 || |ct.value| != 1088 || |iv.value| != 12 || |blobIv.value| != 12 then Decoding
            else
              var shared := p.decaps(keys.value.1, ct.value);
              if shared == None then Encryption
              else
                var dk := p.gcmOpen(Derived(p, p.mul(Clamped(seeds.x25519), eph.value) + shared.value, "dk-wrap-v2", 32),
                                    iv.value, wrapCt.value);
                if dk != None && |dk.value| != 32 then Decoding else Encryption
  {
    hide AsciiBytes, Clamped;
  }

  /** A wallet that does not open: the passphrase path reports one error for all reasons, the base-key path the reason. */
  lemma UnopenedWallet(p: Suite, theirs: Mnemonic, c: Credentials, key: Bytes, payload: Payload)
    ensures MaterialOf(p.sealing, theirs, Full(c)).Err? ==> DecryptForRecipient(p, theirs, c, payload) == Err(InternalError)
    ensures var e := p.sealing.entropy(theirs);
            && (e == None ==> DecryptWithBaseKey(p, theirs, key, payload) == Err(Unsealing(InvalidFormat)))
            && (e != None && |e.value| != 32 ==> DecryptWithBaseKey(p, theirs, key, payload) == Err(Unsealing(InvalidEntropy)))
            && (e != None && |e.value| == 32 && p.sealing.open(p.sealing.expand(key), e.value) == None ==>
                  DecryptWithBaseKey(p, theirs, key, payload) == Err(Unsealing(InvalidPassphrase)))
  {
    hide Full, Decrypted;
  }

  // ----- a model of the laws -----

  function Text64(b: Bytes): string {
    seq(|b|, i requires 0 <= i < |b| => b[i] as char)
  }

  function Bytes64(s: string): Option<Bytes> {
    if forall i | 0 <= i < |s| :: s[i] < 256 as char then
      var bs: Bytes := seq(|s|, i requires 0 <= i < |s| => s[i] as int);
      Some(bs)
    else None
  }

  function ToySuite(): Suite {
    Suite(Toy(), (salt, ikm, info, n) => Zeros(n), x => Zeros(32), (a, b) => Zeros(32),
          seed => Some((Zeros(EK_BYTES), [])), (ek, rand) => Some((Zeros(32), Zeros(CT_BYTES))), (dk, ct) => Some(Zeros(32)),
          (key, iv, text) => Some(text), (key, iv, ct) => Some(ct), b => Text64(b), s => Bytes64(s))
  }

  lemma SuiteLawsHaveAModel()
    ensures ToySuite().Laws()
  {
    hide Toy;
    LawsHaveAModel();
    forall b: Bytes
      ensures Bytes64(Text64(b)) == Some(b)
    {
      assert Bytes64(Text64(b)).value == b;
    }
  }
}
