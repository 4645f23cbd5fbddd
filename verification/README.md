# Verified models of the ACE-GF wallet codecs

Dafny models of the hand-written codecs, wire formats and key-handling flows of the ACE-GF
wallet library, and proofs about them: address codecs and transaction formats for Bitcoin,
EVM chains and Solana, vault contexts, passphrase rotation and the version-2 envelope.
`dafny verify dfyconfig.toml` checks everything.

Code that grows buffers or updates accumulators is a method with the source's loops, proved
equal to a specification function; what the source or a standard promises is then proved about
that function. Cryptographic primitives are parameters. Where a property rests on a hash, it
says "the fields agree, or here are two different strings with one hash". The specification functions
themselves are tied down by laws in literals and library terms only: value strings index by index,
generator words by arithmetic in GF(32), messages byte by byte, digests and keys as nested library calls.

| component | files |
|---|---|
| machine arithmetic, bytes, texts | `MachineBits`, `Positional`, `Bytes`, `LittleEndian`, `Text`, `Records`, `Crypto` |
| Bitcoin addresses | `BitRegrouping`, `Bech32Checksum`, `Bech32Generator`, `Bech32`, `Bech32Values`, `Bech32Laws`, `WasmTaproot`, `Base58`, `AddressScripts` |
| Bitcoin transactions | `BitcoinTx`, `BitcoinTxLaws`, `SighashBinding` |
| EVM transactions | `Rlp`, `EvmHex`, `EvmTx`, `EvmTxLaws`, `EvmTexts`, `EvmAccepted` |
| Solana | `ShortVec`, `SolanaMessages`, `SolanaLaws`, `SolanaResign`, `SolanaLayouts` |
| key hierarchy and envelope | `Clamping`, `VaultContext`, `VaultSeeds`, `PassphraseSealing`, `Rekeying`, `Envelope`, `EnvelopeLaws` |

Modelling choices:

- The bitwise operators of u32, u64 and usize are defined bit by bit on naturals in `MachineBits`, a
  32-bit left shift drops bit 31 step by step, and `u64` arithmetic that can wrap (the EIP-155 `v`)
  is written out with the wrap of a release build.
- Laws assumed of primitives: AES-GCM and AES-GCM-SIV opening inverts sealing, deterministic sealing
  opens only its own output, X25519 commutes on clamped scalars (section 5 of RFC 7748), ML-KEM
  decapsulation inverts encapsulation (FIPS 203), a mnemonic spells its entropy, Base64 decoding inverts
  encoding, and result lengths. `Rekeying.LawsHaveAModel` and `EnvelopeLaws.SuiteLawsHaveAModel` show
  that these laws are consistent. Nothing is assumed to be injective that has fixed-length output.
- Randomness (nonces, initialization vectors, fresh identity material) is a parameter.

Where the code and its own comments or the standards disagree, the code is modelled:

- The comment on `compute_xid` calls the fingerprint permanent, and the comment on
  `change_passphrase_add_admin_internal` says that no code path gives other addresses after a change.
  The fingerprint and the roots of vault keys are computed from the sealed bytes, which a change
  replaces. `Rekeying.FingerprintOverRuns` and `Rekeying.VaultRootOverRuns` say exactly when they
  stay, and `Rekeying.FingerprintAndVaultsMove` gives a change after which they do not. The identity
  material and the seeds of the personal wallet do stay: `Rekeying.SameRootOverRuns`.
- The length prefix that the BIP143 code writes by hand is a CompactSize only below 2^32:
  `SighashBinding.InlineLengthExact`. From scripts of 2^32 + 2^16 bytes on the digest no longer determines
  the outputs, and not before: `SighashBinding.HashedFormBindsExactly`, `SighashBinding.SegwitBindingFails`.
- EIP-155 means v to name the chain. In 64 bits the chain 2^63 away has the same v, so the broadcast bytes of
  a Type-0 transaction always leave two chains open: `EvmTxLaws.BroadcastIsAmbiguous`.
- BIP173 refuses mixed case and more than 90 characters. The bech32 decoder lower-cases first
  (`AddressScripts.CaseDoesNotMatter`) and takes any length and any human-readable part
  (`Bech32Laws.DecodeEncode`).
- The Solana builders do not refuse a request that names one account twice, which a validator does:
  `SolanaLaws.BuildersMeanRequests`, `SolanaLaws.SelfTransferIsBuilt`.
- The Base58Check decoder takes one byte for the number zero, so the 25 '1's of the all-zero payload
  decode to 26 bytes: `Base58.CheckRoundTrip`, `Base58.AllZeroPayload`. It also pads short numbers to
  25 bytes, so an address may lose some of its leading '1's and still be accepted:
  `Base58.AcceptedTexts`, `Base58.AcceptedIsEncoding`.
- The Solana re-signer always writes exactly one signature, also when the header asks for more:
  `SolanaResign.SignsForTheFirstAccount`.
- The test for the segwit path looks at three characters, so it also takes human-readable parts such as
  `bc1x`: `AddressScripts.SegwitAccepted`.
- `build_vault_context` promises isolation. Lists of colon-free segments have it; in general a list shares
  its context with another exactly under the condition of `VaultContext.ContextIsShared`.
- The comment on `derive_from_rev32_with_context` speaks of isolated keys for each vault. The X25519 seed
  is clamped after HKDF, so outputs that differ in clamped bits only give one seed:
  `VaultContext.SeedsCoincide`, `VaultContext.ClampedSeedsCoincide`.

## Model

| member | source | states |
|---|---|---|
| `BitRegrouping.ConvertBits` | src/signer/bitcoin_signer.rs:1011-1044 | the u32 loop that silently drops high bits regroups the unbounded bit string, for inputs of any length, and reports oversized values, excess padding and non-zero padding as BIP173 does |
| `BitRegrouping.UnpadAfterPad` | src/signer/bitcoin_signer.rs:1011-1044 | unpadded regrouping undoes padded regrouping |
| `BitRegrouping.PadAfterUnpad` | src/signer/bitcoin_signer.rs:1011-1044 | padded regrouping restores everything that unpadded regrouping accepts |
| `BitRegrouping.UnpadAcceptsExactlyImages` | src/signer/bitcoin_signer.rs:1011-1044 | the unpadded direction accepts exactly the images of the padded one |
| `BitRegrouping.PaddedIsChangeOfBase` | src/signer/bitcoin_signer.rs:1011-1044 | padded regrouping rewrites one number: the new digits have the value of the old ones times the power of two that fills the last group, which takes less than a group |
| `Bech32Checksum.Polymod` | src/signer/bitcoin_signer.rs:1078-1093 | the two nested loops compute the residue, which stays in 30 bits |
| `Bech32Checksum.FoldLinear` | src/signer/bitcoin_signer.rs:1078-1093 | residues are linear over GF(2): the residue of a difference is the difference of the residues, for strings of any length |
| `Bech32Checksum.StepKeepsNonZero` | src/signer/bitcoin_signer.rs:1078-1093 | a round with a zero symbol sends no non-zero state to zero |
| `Bech32Checksum.BurstChangesResidue` | src/signer/bitcoin_signer.rs:1078-1093 | two strings that differ only within six consecutive symbols, at any place in strings of any length, have different residues |
| `Bech32Checksum.ChecksumCloses` | src/signer/bitcoin_signer.rs:1052-1067 | the six checksum symbols bring any state to the required constant |
| `Bech32Checksum.ChecksumUnique` | src/signer/bitcoin_signer.rs:1052-1067 | no other six symbols do |
| `Bech32Generator.WordsAreRows` | src/signer/bitcoin_signer.rs:1079-1081 | the five generator words pack the coefficients 29, 22, 20, 21, 29, 18 of the BCH generator times 1, a, a^2, a^3 and a^4 in GF(32) |
| `Bech32Generator.StepIsRemainder` | src/signer/bitcoin_signer.rs:1083-1091 | a polymod round is one step of polynomial division over GF(32): shift the six coefficients, bring in the symbol, and subtract the generator times the coefficient shifted out |
| `Bech32.CreateChecksum` | src/signer/bitcoin_signer.rs:1052-1067 | the encoder's checksum is that one, with constant 1 for version 0 and the BIP350 constant otherwise |
| `Bech32.EncodeBech32` | src/signer/bitcoin_signer.rs:926-948 | human-readable part, separator, version, regrouped program and checksum, as text |
| `Bech32.DecodeBech32` | src/signer/bitcoin_signer.rs:951-1008 | lower-casing, the last separator, the symbols and the residue decide between bech32, bech32m and each error |
| `Bech32.InlineResidue` | src/signer/bitcoin_signer.rs:971-994 | the decoder's own expansion and polymod copy compute the residue that the encoder's pair computes |
| `Bech32.DecodeBech32Address` | src/signer/bitcoin_signer.rs:198-251 | version, variant, regrouping and program-length rules of BIP141 and BIP350, error by error |
| `Bech32Values.EncodedResidue` | src/signer/bitcoin_signer.rs:926-948 | of an encoding: for the values given index by index (high bits of the prefix, a zero, its low bits, the symbols) the residue is 1 for version 0 and 0x2bc830a3 otherwise; the symbols are the version, the regrouped program and six more |
| `Bech32Values.DecodedByResidue` | src/signer/bitcoin_signer.rs:951-1008 | of a text: for the values given in the same way the residue alone decides between bech32, bech32m and a bad checksum, and fewer than six symbols are too short |
| `Bech32Values.NotBech32` | src/signer/bitcoin_signer.rs:951-969 | a text without separator, or with a foreign character behind the last one, is refused as such, and no other is |
| `Bech32Values.ForeignVariant` | src/signer/bitcoin_signer.rs:198-226 | with a correct residue: nothing but a checksum is empty data, a version above 16 is a bad version, and the residue that belongs to other versions is the wrong variant, each exactly then |
| `Bech32Values.EncodingsThatDecode` | src/signer/bitcoin_signer.rs:198-251 | an encoding decodes to its own version and program, or fails for its version or its program length, exactly by the rules written out: 20 or 32 bytes for version 0, 32 for version 1, 2 to 40 for the others up to 16 |
| `Bech32Values.CharacterTable` | src/signer/bitcoin_signer.rs:913-914 | the alphabet is the table of BIP173 |
| `Bech32Laws.DecodeEncode` | src/signer/bitcoin_signer.rs:926-948 | decoding an encoded address gives back version and program, for every lower-case ASCII prefix, version up to 16 and legal program length |
| `Bech32Laws.EncodeDecode` | src/signer/bitcoin_signer.rs:198-251 | every accepted ASCII address re-encodes, under its own prefix, to exactly its lower-cased text |
| `Bech32Laws.AddressUnique` | src/signer/bitcoin_signer.rs:198-251 | one payload under one prefix has one address, up to case |
| `Bech32Laws.BurstRejected` | src/signer/bitcoin_signer.rs:951-1008 | any change within six consecutive symbols of an accepted address of any length is rejected, if the version symbol stays zero or stays non-zero |
| `Bech32Laws.OneTextPerClass` | src/signer/bitcoin_signer.rs:951-1008 | of all changes of one text within a window of six symbols, at most one is accepted for each class of the version symbol, so a burst that changes the class goes unnoticed for one text at most |
| `WasmTaproot.ConvertBitsInternal` | src/acegf_core.rs:492-518 | the WASM copy of the regrouping agrees with the signer's on bytes |
| `WasmTaproot.PolymodInternal` | src/acegf_core.rs:543-558 | the WASM copy of the polymod computes the same residue |
| `WasmTaproot.Bech32mCreateChecksum` | src/acegf_core.rs:521-532 | the WASM checksum is the signer's bech32m checksum |
| `WasmTaproot.TaprootAddress` | src/acegf_core.rs:472-489 | the WASM string assembly is the signer's encoding of a version-1 program, on both networks |
| `Base58.EncodeBase58` | src/signer/bitcoin_signer.rs:1111-1139 | leading zero bytes become '1's, and the division loop writes the base-58 digits of the rest |
| `Base58.AlphabetIs` | src/signer/bitcoin_signer.rs:1095-1096 | the alphabet is the digits and letters without 0, O, I and l |
| `Base58.AlphabetRuns` | src/signer/bitcoin_signer.rs:1095-1096 | and in their order |
| `Base58.EncodeBase58Check` | src/signer/bitcoin_signer.rs:1099-1108 | version, data and the first four bytes of SHA-256 of SHA-256 of them, encoded |
| `Base58.DecodeBase58CheckAddress` | src/signer/bitcoin_signer.rs:257-313 | the decoder's number, padding, length, checksum and version checks |
| `Base58.DecodedBytes` | src/signer/bitcoin_signer.rs:257-313 | any 25 bytes reach the checks unchanged, except the all-zero string |
| `Base58.ForeignRefused` | src/signer/bitcoin_signer.rs:257-268 | a foreign character is the error exactly when there is one |
| `Base58.CheckRoundTrip` | src/signer/bitcoin_signer.rs:257-313 | with the checksum written as SHA-256 of SHA-256, for the four versions and any 20-byte hash the round trip holds exactly when the checksummed payload is not all zero |
| `Base58.AllZeroPayload` | src/signer/bitcoin_signer.rs:275-280 | the payload that fails, and how |
| `AddressScripts.AddressToScript` | src/signer/bitcoin_signer.rs:323-359 | trimming, the choice between the two decoders, and the script of each kind of address |
| `AddressScripts.PrefixRoutes` | src/signer/bitcoin_signer.rs:323-329 | which human-readable parts send an encoded address to the segwit decoder, exactly |
| `AddressScripts.CaseDoesNotMatter` | src/signer/bitcoin_signer.rs:951-956 | an address decodes as its lower-cased text does, so mixed case is accepted |
| `AddressScripts.SegwitScript` | src/signer/bitcoin_signer.rs:323-343 | every legal segwit output under any of those parts, with any surrounding blanks, becomes its version opcode, the length of its program and the program |
| `AddressScripts.SegwitAccepted` | src/signer/bitcoin_signer.rs:323-343 | an address on the segwit path gives a script exactly when, up to case and blanks, it is the encoding of that script's version and program under a part that passes |
| `AddressScripts.ScriptNamesProgram` | src/signer/bitcoin_signer.rs:331-343 | a witness script determines its version and program |
| `Base58.AcceptedTexts` | src/signer/bitcoin_signer.rs:257-313 | with the checksum written out, the texts that decode to a version and a hash are exactly those that spell the payload's number behind at most as many '1's as it has zero bytes (and fewer than 25) |
| `Base58.AcceptedIsEncoding` | src/signer/bitcoin_signer.rs:270-284 | an accepted text is its own re-encoding exactly when its '1's are as many as the payload's zero bytes |
| `AddressScripts.LegacyScript` | src/signer/bitcoin_signer.rs:345-359 | every legacy address of the four versions, with any surrounding blanks, is never taken for a segwit one and becomes the P2PKH or P2SH script in its opcodes |
| `BitcoinTx.WriteVarint` | src/signer/bitcoin_signer.rs:898-911 | appends the CompactSize of a number |
| `BitcoinTxLaws.CompactForms` | src/signer/bitcoin_signer.rs:898-911 | the four forms: the number itself below 0xfd, otherwise 0xfd, 0xfe or 0xff and its base-256 digits, lowest first, in two, four or eight bytes |
| `BitcoinTx.ComputeSegwitSighash` | src/signer/bitcoin_signer.rs:438-511 | the buffers grown field by field hash to the BIP143 digest with the hand-written output prefixes |
| `BitcoinTx.ComputeTaprootSighash` | src/signer/bitcoin_signer.rs:665-752 | the BIP341 key-path digest, or the error for a missing script |
| `BitcoinTx.SerializeSignedSegwitTx` | src/signer/bitcoin_signer.rs:514-567 | the BIP144 serialization with a two-item witness per input |
| `BitcoinTx.SerializeSignedTaprootTx` | src/signer/bitcoin_signer.rs:829-881 | the BIP144 serialization with a one-item witness per input, or the error for a wrong signature count |
| `BitcoinTx.SignSegwitTxWithKey` | src/signer/bitcoin_signer.rs:400-435 | one signature per input over its own digest, each with the SIGHASH_ALL byte, or the first failure |
| `BitcoinTx.SignTaprootTxWithKey` | src/signer/bitcoin_signer.rs:763-823 | one signature per input over its own digest, or the first failure |
| `BitcoinTxLaws.ReadSerialized` | src/signer/bitcoin_signer.rs:514-567 | a BIP144 reader recovers version, inputs, outputs, witness stacks and locktime with nothing left over, for any number of each and any script length |
| `BitcoinTxLaws.SerializedFrame` | src/signer/bitcoin_signer.rs:514-567 | version, marker 0, flag 1, the counted inputs and outputs, the witnesses and the locktime, at their offsets |
| `BitcoinTxLaws.RecordsAre` | src/signer/bitcoin_signer.rs:524-560 | each input, output and witness record as its fields in order |
| `BitcoinTxLaws.SignedSegwitReads` | src/signer/bitcoin_signer.rs:400-435 | what is broadcast is the unsigned transaction with, on each input, the signature of that input's own digest and the public key |
| `BitcoinTxLaws.SignedTaprootReads` | src/signer/bitcoin_signer.rs:763-823 | the same for Taproot |
| `SighashBinding.InlineLengthExact` | src/signer/bitcoin_signer.rs:483-500 | the hand-written prefix is the CompactSize exactly below 2^32 |
| `SighashBinding.HashedOutputsAreBroadcast` | src/signer/bitcoin_signer.rs:483-500 | the outputs that are hashed are byte for byte the outputs broadcast, exactly when every script is shorter than 2^32 |
| `SighashBinding.HashedFormBindsExactly` | src/signer/bitcoin_signer.rs:483-500 | the hashed form determines the outputs exactly as long as every script is shorter than 2^32 + 2^16 bytes |
| `SighashBinding.LongScriptsAmbiguous` | src/signer/bitcoin_signer.rs:483-500 | with a script of exactly that length, two different output lists have one hashed form |
| `SighashBinding.Bip143Layout` | src/signer/bitcoin_signer.rs:438-511 | each BIP143 field at its offset in the 182-byte message, with the three digests as SHA-256 of SHA-256 and the script code with RIPEMD-160 of SHA-256 of the key |
| `SighashBinding.DigestsAre` | src/signer/bitcoin_signer.rs:438-752 | the BIP143 digest is SHA-256 twice over the message; the BIP341 digest is SHA-256 over the hashed tag TapSighash twice and the message, unless the index or a script is missing |
| `SighashBinding.SegwitSigns` | src/signer/bitcoin_signer.rs:400-435 | signing fails for an output of value zero, then for an input whose digest the signer refuses, and succeeds otherwise |
| `SighashBinding.TaprootSigns` | src/signer/bitcoin_signer.rs:763-823 | the same, with a missing script in between |
| `SighashBinding.SegwitBinding` | src/signer/bitcoin_signer.rs:438-511 | for scripts below 2^32 + 2^16 bytes, equal digests agree on version, all outpoints and sequences, all outputs, locktime, and the signed input's outpoint, value and sequence, or an explicit SHA-256 collision is among the named pairs |
| `SighashBinding.SegwitBindingFails` | src/signer/bitcoin_signer.rs:438-511 | with one byte more, any transaction has one digest with two different output lists |
| `SighashBinding.Bip341Layout` | src/signer/bitcoin_signer.rs:665-752 | each BIP341 field at its offset in the 175-byte message |
| `SighashBinding.TaprootBinding` | src/signer/bitcoin_signer.rs:665-752 | equal digests agree on all of that and on all input amounts, all input scripts and the input index (as an index for at most 2^32 inputs), or a collision is exhibited |
| `Rlp.EncodeList` | src/signer/evm_signer.rs:268-285 | the list prefix of the payload's length, and the items end to end |
| `Rlp.LengthIsMinimal` | src/signer/evm_signer.rs:288-295 | lengths are written in minimal big-endian form |
| `Rlp.IntegersAreMinimal` | src/signer/evm_signer.rs:298-314 | both integer encoders emit the item of the minimal big-endian form, zero as the empty string |
| `Rlp.ItemIsString` | src/signer/evm_signer.rs:237-261 | the item encoder writes the string leaf of Appendix B of the Yellow Paper, in its single-byte, short and long forms |
| `Rlp.WireForms` | src/signer/evm_signer.rs:237-295 | the prefix bytes of strings and lists in every form, with long lengths in big-endian digits without leading zero |
| `Rlp.ItemsInOrder` | src/signer/evm_signer.rs:268-285 | list items follow each other in order; the empty string is 0x80 and the empty list 0xc0 |
| `Rlp.DecodeEncode` | src/signer/evm_signer.rs:237-285 | a strict decoder inverts the encoding of every tree, leaving what follows untouched |
| `Rlp.EncodeDecode` | src/signer/evm_signer.rs:237-285 | and accepts nothing but encodings |
| `Rlp.PrefixFree` | src/signer/evm_signer.rs:237-285 | encodings are uniquely decodable in front of any continuation |
| `EvmHex.HexToBytesValue` | src/signer/evm_signer.rs:318-329 | hex of odd or even length, with or without prefix, denotes the same number as its bytes |
| `EvmHex.U256Fidelity` | src/signer/evm_signer.rs:332-340 | a hex string fits exactly up to 64 digits, and the emitted item decodes to the minimal form of its number |
| `EvmHex.U64Fidelity` | src/signer/evm_signer.rs:343-349 | a hex string is accepted exactly when its number fits 64 bits, and the emitted item decodes to it |
| `EvmAccepted.U64Accepts` | src/signer/evm_signer.rs:343-349 | a text is read as n exactly when it spells n: hexadecimal digits after an optional prefix and, if there are any, an optional plus sign |
| `EvmAccepted.BytesAccepts` | src/signer/evm_signer.rs:318-329 | a text is read as bytes exactly when it is hexadecimal between blanks after an optional prefix; the bytes are the digits of its number, an odd digit completed |
| `EvmTx.SignType0TransactionWithKey` | src/signer/evm_signer.rs:408-477 | the first parse error, or the EIP-155 transaction of the parsed fields |
| `EvmTx.SignEip1559TransactionWithKey` | src/signer/evm_signer.rs:600-679 | the first parse error, or the EIP-1559 transaction of the parsed fields |
| `EvmAccepted.FailsFirst0` | src/signer/evm_signer.rs:408-425 | the error of a Type-0 call is that of the first parameter that has one |
| `EvmAccepted.FailsFirst2` | src/signer/evm_signer.rs:600-619 | the same for Type 2 |
| `EvmTexts.TextsToType0` | src/signer/evm_signer.rs:408-477 | end to end for Type 0: texts that write digits are accepted exactly when the numbers fit, the hash is over the six numbers, chain id and two empty strings, and the broadcast bytes decode to the six numbers in minimal form, v, r and s with nothing left over |
| `EvmTexts.TextsToType2` | src/signer/evm_signer.rs:600-679 | end to end for Type 2: behind 0x02 the broadcast bytes decode to chain id, nonce, priority fee, maximum fee, gas limit, address, value, data and the empty access list, each from its own text, then recovery id, r and s |
| `EvmTx.BuildType0` | src/signer/evm_signer.rs:427-477 | the item vectors encode the nine-field unsigned and signed lists |
| `EvmTx.BuildType2` | src/signer/evm_signer.rs:622-679 | the item vectors encode the nine- and twelve-field lists behind the type byte |
| `EvmTxLaws.RebuildsType0` | src/signer/evm_signer.rs:426-477 | from the broadcast bytes, chain id (v - 35) / 2 and two empty strings rebuild the hashed bytes, exactly when the recovery id is 0 or 1 and v did not wrap |
| `EvmTxLaws.RebuildsType2` | src/signer/evm_signer.rs:620-679 | dropping the last three fields of a Type-2 transaction always gives the hashed bytes |
| `EvmTxLaws.SigningBytesInjective` | src/signer/evm_signer.rs:426-679 | one string of signing bytes spells one transaction of one format on one chain |
| `EvmTxLaws.HashBinds` | src/signer/evm_signer.rs:426-679 | equal Keccak hashes come from one transaction, or from two strings that collide |
| `EvmTxLaws.BroadcastsCoincide` | src/signer/evm_signer.rs:426-679 | broadcast bytes coincide exactly for one signed transaction, or for Type-0 ones with equal fields, r, s and v |
| `EvmTxLaws.VCoincides` | src/signer/evm_signer.rs:454-455 | with recovery ids 0 and 1 two chains share v exactly when they are one chain or 2^63 apart |
| `EvmTxLaws.BroadcastIsAmbiguous` | src/signer/evm_signer.rs:426-679 | another transaction has the same broadcast bytes exactly for Type 0, where the chain 2^63 away does |
| `EvmTxLaws.BroadcastDetermines` | src/signer/evm_signer.rs:426-679 | among transactions whose v did not wrap the broadcast bytes determine transaction and signature |
| `ShortVec.EncodeShortLen` | src/signer/solana_signer.rs:63-78 | the loop writes the shortest seven-bit groups of a length |
| `ShortVec.SpelledForms` | src/signer/solana_signer.rs:63-78 | the spelling of every length up to four groups by its base-128 digits |
| `ShortVec.DecodeShortVec` | src/signer/solana_signer.rs:750-778 | the OR-accumulation is the positional sum of the groups; four continuation bytes overflow |
| `ShortVec.DecodeEncode` | src/signer/solana_signer.rs:63-78 | in front of any tail a length comes back with its exact size exactly below 2^28, and overflows otherwise |
| `ShortVec.Accepted` | src/signer/solana_signer.rs:750-778 | what is accepted is below 2^28, does not depend on the tail, and is the encoder's spelling exactly when its last group is not a padding zero |
| `SolanaMessages.BuildSystemTransferMessage` | src/signer/solana_signer.rs:256-300 | the pushed bytes are the legacy message of a system transfer |
| `SolanaMessages.BuildSplTransferMessage` | src/signer/solana_signer.rs:452-501 | the same for a token transfer |
| `SolanaMessages.BuildSplTransferWithCreateAtaMessage` | src/signer/solana_signer.rs:548-614 | the same for a token transfer that creates the account |
| `SolanaLayouts.SystemTransferBytes` | src/signer/solana_signer.rs:256-300 | the system transfer byte by byte: header, account table, blockhash, instruction, and the lamports as eight base-256 digits, lowest first |
| `SolanaLayouts.SplTransferBytes` | src/signer/solana_signer.rs:452-501 | the token transfer byte by byte |
| `SolanaLayouts.SplTransferCreatingBytes` | src/signer/solana_signer.rs:548-614 | the token transfer that creates the account, byte by byte |
| `SolanaMessages.SignSystemTransferWithKey` | src/signer/solana_signer.rs:327-349 | the first error in decoding recipient or blockhash, or one signature in front of the message for them |
| `SolanaLaws.ReadSerialized` | src/signer/solana_signer.rs:256-300 | a legacy-message reader recovers header, account table, blockhash and instructions of any message, with nothing left over |
| `SolanaLaws.BuildersMeanRequests` | src/signer/solana_signer.rs:443-614 | each builder's bytes have all indices in range and mean exactly the requested calls, each account with its documented signer and writable privileges; a validator takes them exactly when the request's keys and program ids are distinct |
| `SolanaLaws.SelfTransferIsBuilt` | src/signer/solana_signer.rs:256-300 | a transfer to oneself is built and not taken |
| `SolanaLaws.RequestsAreDistinct` | src/signer/solana_signer.rs:256-614 | one message serves one request, whichever builder wrote it |
| `SolanaResign.SignSerializedTransactionWithKey` | src/signer/solana_signer.rs:678-746 | offsets stay inside the buffer and 64 bits; the Base64 error, every refusal in order, or the text of one signature in front of the same message |
| `SolanaLayouts.RefusalByOffsets` | src/signer/solana_signer.rs:678-746 | the checks of the re-signer by offsets into the buffer, in their order, and the message that is signed as the rest of the buffer behind the old signatures |
| `SolanaResign.ResigningKeepsMessage` | src/signer/solana_signer.rs:678-746 | the output parses to the input's message with one signature over it, and signing it again changes nothing |
| `SolanaResign.SignsForTheFirstAccount` | src/signer/solana_signer.rs:678-746 | any readable message, with any signatures, is signed exactly when its first account is the signer; the output has exactly one signature, over that message |
| `SolanaResign.OwnTransactionsUnchanged` | src/signer/solana_signer.rs:678-746 | the wallet's own transactions are fixed points for their payer |
| `VaultContext.ContextIsCanonical` | src/acegf_core.rs:780-787 | a context does not depend on the order of its segments |
| `VaultContext.ContextIsInjective` | src/acegf_core.rs:780-787 | colon-free segment lists share a context exactly when they are permutations of one another, or both spell no context |
| `VaultContext.ContextIsShared` | src/acegf_core.rs:780-787 | for any list of segments, another vault has its context exactly unless it is a single non-empty segment that cannot be cut at a colon into two that sort as they stand |
| `VaultSeeds.ContextSpelled` | src/acegf_core.rs:780-787 | a context is the segments in ascending byte order with a colon after each but the last |
| `VaultSeeds.OrderIsLexicographic` | src/acegf_core.rs:784-785 | the order is the lexicographic one: a prefix, or a smaller byte where two segments first differ |
| `VaultSeeds.DocumentedExample` | src/acegf_core.rs:776-779 | the documented example, in both orders of its segments |
| `VaultContext.ColonsCollide` | src/acegf_core.rs:780-787 | two vaults that share a context |
| `VaultContext.InfoIsInjective` | src/acegf_core.rs:744-763 | one HKDF info comes from one colon-free label and one context |
| `VaultContext.LabelsDistinct` | src/acegf_core.rs:789-802 | the ten labels differ |
| `VaultContext.VaultKeysAreCanonical` | src/acegf_core.rs:813-846 | all nine seeds of a vault, clamped and normalized, do not depend on the order of its segments |
| `VaultSeeds.SeedsByLabel` | src/acegf_core.rs:744-846 | each of the nine seeds is HKDF of the root on its own label text, with colon and context if there is one: clamped for X25519, replaced by its SHA-256 for an invalid secp256k1 scalar, 64 bytes for ML-KEM and 32 for the others |
| `VaultSeeds.RelaySeedByLabel` | src/acegf_core.rs:789-802 | the relay seed likewise |
| `VaultContext.VaultInfosAreSeparate` | src/acegf_core.rs:744-802 | pairs of a scheme and a vault share an info string exactly when they are the same pair |
| `VaultContext.SeedsCoincide` | src/acegf_core.rs:902-1138 | for all ten schemes, two seeds of one root are equal exactly when they are of the same pair of a scheme and a vault, or their HKDF outputs on two different infos become one by clamping or scalar replacement |
| `VaultContext.SeedsAreSeparate` | src/acegf_core.rs:902-1138 | equal seeds come from one pair, from two infos that HKDF confuses, from outputs that differ in clamped bits only, or from an output replaced by its SHA-256 (from two, with a collision) |
| `VaultContext.ClampedSeedsCoincide` | src/acegf_core.rs:1072-1083 | two contexts with one X25519 seed although HKDF tells them apart |
| `Rekeying.CombineInjective` | src/utils/passphrase_sealing_util.rs:131-136 | with NUL-free primaries one combined passphrase comes from one pair of factors |
| `Rekeying.CombineIsAmbiguous` | src/utils/passphrase_sealing_util.rs:131-136 | in general other factors give the same passphrase exactly when it contains a NUL |
| `Rekeying.CombineIs` | src/utils/passphrase_sealing_util.rs:131-136 | the first factor, then a NUL and the second if there is one |
| `Rekeying.MnemonicOpens` | src/utils/passphrase_sealing_util.rs:106-121 | a sealed mnemonic opens to its material; sealing fails only with Argon2 |
| `Rekeying.OpenedIsSealed` | src/utils/passphrase_sealing_util.rs:115-129 | a mnemonic that opens carries exactly the sealing of what it opens to |
| `Rekeying.OpeningFails` | src/utils/passphrase_sealing_util.rs:106-129 | opening step by step in library terms, with the error of each step |
| `Rekeying.GeneratedWalletOpens` | src/acegf_core.rs:123-146 | a new wallet viewed through its credentials shows what it showed when it was made |
| `Rekeying.GenerateIs` | src/acegf_core.rs:123-146 | a new wallet in library terms: its words spell the sealing of the material, its seeds are those of the material, its fingerprint is SHA3-256 of the sealed bytes and the tag |
| `Rekeying.ViewIs` | src/acegf_core.rs:679-698 | what a wallet shows in library terms, exactly |
| `Rekeying.ViewFails` | src/acegf_core.rs:679-698 | viewing fails as opening does, but reports every undecodable mnemonic alike |
| `Rekeying.BaseKeyPathAgrees` | src/acegf_core.rs:701-718 | viewing with the base key of a passphrase is viewing with the passphrase |
| `Rekeying.ApplyIsReseal` | src/acegf_core.rs:576-654 | the duplicated change functions all open under the old factors and make the one mnemonic for the new ones; an empty admin factor counts as none |
| `Rekeying.ChangeIs` | src/acegf_core.rs:576-611 | a change succeeds with a result exactly when some material opens under the old first factor and the result spells its sealing under the new one, with the same second factor on both sides |
| `Rekeying.AddAdminIs` | src/acegf_core.rs:612-654 | the same for adding an admin factor, which opens without one |
| `Rekeying.StepKeepsMaterial` | src/acegf_core.rs:576-654 | one change succeeds exactly when the old factors open and Argon2 does not fail, and keeps the material |
| `Rekeying.RunKeepsMaterial` | src/acegf_core.rs:576-654 | after any finite run of changes and admin additions the mnemonic opens under the last factors to the original material and is a function of the two |
| `Rekeying.RunSucceeds` | src/acegf_core.rs:576-654 | such a run fails only where Argon2 does |
| `Rekeying.SameRootOverRuns` | src/acegf_core.rs:679-698 | the wallet viewed after any run has the seeds of the wallet viewed before it |
| `Rekeying.RotateBack` | src/acegf_core.rs:576-654 | rotating away and back restores the mnemonic |
| `Rekeying.XidFollowsSealing` | src/acegf_core.rs:114-121 | fingerprints are equal exactly for equal sealed bytes, or when SHA3-256 collides on the two strings hashed |
| `Rekeying.FingerprintOverRuns` | src/acegf_core.rs:114-121 | a run of changes keeps the fingerprint exactly when the last passphrase seals the material to the same bytes as the first, or SHA3-256 collides on the two strings hashed; coming back to the first passphrase keeps it |
| `Rekeying.VaultRootOverRuns` | src/acegf_core.rs:859-888 | a run of changes keeps the root of vault keys exactly when it comes back to the first passphrase, or the derivation gives one result for the two passphrases with their sealed bytes |
| `Rekeying.VaultRootIs` | src/acegf_core.rs:859-888 | the root of vault keys is derived from the combined passphrase and the entropy of the mnemonic |
| `Rekeying.FingerprintAndVaultsMove` | src/acegf_core.rs:859-888 | a change that keeps the seeds and moves the fingerprint and the root of vault keys |
| `Clamping.ClampForgets` | src/acegf.rs:1303-1306 | two scalars clamp to one exactly when they are equal but for the five bits that clamping overwrites |
| `Clamping.ClampInPlace` | src/acegf.rs:1303-1306 | the three byte operations clamp a scalar as RFC 7748 defines it |
| `Clamping.ClampedBits` | src/acegf.rs:1303-1306 | a clamped scalar bit by bit: three low bits clear, bit 254 set, bit 255 clear, everything else kept |
| `Clamping.ClampIdempotent` | src/acegf.rs:1303-1306 | clamping twice, as the wallet and the library do, is clamping once |
| `Envelope.EncryptForRecipient` | src/acegf.rs:1213-1399 | key decoding, unsealing, wrap and blob, error by error, as the documented construction |
| `Envelope.RegenerateWrap` | src/acegf.rs:1421-1561 | the separate regeneration code follows the same construction |
| `Envelope.DecryptWithSeeds` | src/acegf.rs:1565-1784 | version and recipient checks, field decoding, and the two openings, error by error |
| `EnvelopeLaws.WrapIs` | src/acegf.rs:1292-1360 | each field of a wrap in library terms: keys, labels, lengths and the order of what is joined |
| `EnvelopeLaws.WrapFails` | src/acegf.rs:1292-1360 | there is none only where the library does not encapsulate or seal |
| `EnvelopeLaws.EnvelopeIs` | src/acegf.rs:1213-1399 | each field of an envelope in library terms, with the salt as nonce, X25519 key and SHA-256 of the ML-KEM key |
| `EnvelopeLaws.EncryptionSucceeds` | src/acegf.rs:1213-1399 | when encryption succeeds, and with which error it fails |
| `EnvelopeLaws.RegenerationIs` | src/acegf.rs:1421-1561 | regeneration in library terms, error by error |
| `EnvelopeLaws.DecryptionIs` | src/acegf.rs:1565-1784 | decryption gives a plaintext exactly when version and bindings are the wallet's, every field decodes to its length and both openings succeed, in library terms |
| `EnvelopeLaws.DecryptionFails` | src/acegf.rs:1565-1784 | and otherwise which error |
| `EnvelopeLaws.EnvelopeRoundTrip` | src/acegf.rs:1565-1784 | what is encrypted to a wallet's published keys, that wallet's seeds decrypt |
| `EnvelopeLaws.RecipientDecrypts` | src/acegf.rs:1788-1821 | through the passphrase, with or without a secondary one, and through its base key |
| `EnvelopeLaws.UnopenedWallet` | src/acegf.rs:1788-1821 | a wallet that does not open: one error through the passphrase, the reason through the base key |
| `EnvelopeLaws.WrapRegenerates` | src/acegf.rs:1421-1561 | the regenerated wrap equals the original field by field, so substituting it changes nothing |
| `EnvelopeLaws.WrapSurvivesRekeying` | src/acegf.rs:1421-1561 | also after any run of passphrase changes by the sender |
| `EnvelopeLaws.OpensForOneIdentity` | src/acegf.rs:1583-1645 | two wallets that open one envelope have the same published X25519 key and the same ML-KEM key, or a SHA-256 collision |
| `EnvelopeLaws.SaltNamesRecipient` | src/acegf.rs:1132-1157 | the salt determines nonce, X25519 key and, up to a collision, ML-KEM key |
| `EnvelopeLaws.SeedNamesRecipient` | src/acegf.rs:1132-1157 | under one wrap master equal seeds come from one nonce and one X25519 key and, up to a SHA-256 collision, one ML-KEM key, or HKDF confuses two different salts |

## Left out

- BitRegrouping.ConvertBits: group widths from 1 to 8, the callers' being 5 and 8
- WasmTaproot.ConvertBitsInternal: from bytes only, as its one caller uses it; narrower groups are not range-checked there
- Bech32.DecodeBech32: over ASCII texts, as the source lower-cases by Unicode rules
- Bech32.DecodeBech32Address: over ASCII texts, for the same reason
- AddressScripts.AddressToScript: over ASCII texts, for the same reason
- Bech32Laws.DecodeEncode: over ASCII prefixes, for the same reason
- Bech32Laws.BurstRejected: says nothing of a substitution that writes a separator, which splits the text elsewhere, or that turns a version-0 address into another version's or back, which changes the checksum constant that applies (for that see `Bech32Laws.OneTextPerClass`)
- BitcoinTx.SignTaprootTxWithKey: takes the signer with the key already chosen; the key tweak, its errors and the choice between tweaked and raw key are curve arithmetic
- SighashBinding.SegwitBinding: asks for output scripts shorter than 2^32 + 2^16 bytes, the exact bound by `SighashBinding.HashedFormBindsExactly`
- SighashBinding.TaprootBinding: past 2^32 inputs the input index agrees only modulo 2^32, the width of the field that is hashed
- EvmTxLaws.BroadcastDetermines: asks for recovery id 0 or 1 and a v that does not wrap; without that the exact statement is `EvmTxLaws.BroadcastsCoincide`
- Insides of hashes, curves, ML-KEM, AEAD, HKDF, Argon2, BIP39, Base64 and the Solana signer's Base58 library; secrecy, unforgeability, and failure under wrong passphrases
- The derivation of keys from mnemonics in each signer
- Mnemonics with errors that BIP39 would correct or normalize: the words library is a function from texts to entropy
- `find_program_address`, message and typed-data signing, hexadecimal output texts
- The labels, clamping and scalar normalization of the nine seeds derived from sealed material: one function of the material
- Tron context keys
- ERC-20 and TRC-20 call data, `vadar` and `hfi_pay` framing: concatenations without further structure
- EIP-55 address checksums
- The version-1 envelope
- The C, WASM and session interfaces, zero-knowledge modules, zeroization and error texts
