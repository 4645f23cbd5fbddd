/** The hash functions of the wallet, left uninterpreted. */
module Crypto {
  import opened Bytes

  /** Deterministic functions on byte strings; nothing is assumed beyond the lengths of their results. */
  datatype Hashes = Hashes(sha256: Bytes -> Bytes, ripemd160: Bytes -> Bytes) {
    ghost predicate Sized() {
      && (forall x :: |sha256(x)| == 32)
      && (forall x :: |ripemd160(x)| == 20)
    }
  }

  function DoubleSha256(h: Hashes, data: Bytes): Bytes {
    h.sha256(h.sha256(data))
  }

  function Hash160(h: Hashes, data: Bytes): Bytes {
    h.ripemd160(h.sha256(data))
  }

  /** Two different strings with one hash. */
  predicate Collides(f: Bytes -> Bytes, x: Bytes, y: Bytes) {
    x != y && f(x) == f(y)
  }
}
