/** The foreign cryptographic primitives. Nothing is assumed of the functions themselves
    beyond the digest lengths and that CFB decryption undoes CFB encryption. */
module CryptoModel {
  import opened Bytes

  datatype Crypto = Crypto(
    hash: (nat, ByteVec) -> ByteVec,
    hashLen: nat -> nat,
    hmac: (nat, ByteVec, ByteVec) -> ByteVec,
    kdfa: (nat, ByteVec, string, ByteVec, ByteVec, nat) -> ByteVec,
    cfbEncrypt: (ByteVec, ByteVec, ByteVec) -> ByteVec,
    cfbDecrypt: (ByteVec, ByteVec, ByteVec) -> ByteVec)
  {
    ghost predicate Valid() {
      && (forall alg: nat :: hashLen(alg) <= 64)
      && (forall alg: nat, data: ByteVec :: |hash(alg, data)| == hashLen(alg))
      && (forall alg: nat, key: ByteVec, data: ByteVec :: |hmac(alg, key, data)| == hashLen(alg))
      && (forall key: ByteVec, iv: ByteVec, data: ByteVec ::
            |cfbEncrypt(key, iv, data)| == |data| && cfbDecrypt(key, iv, cfbEncrypt(key, iv, data)) == data)
      && (forall key: ByteVec, iv: ByteVec, data: ByteVec :: |cfbDecrypt(key, iv, data)| == |data|)
    }

    /** The starting value of a running digest: all zeros. */
    function Zero(alg: nat): ByteVec {
      Zeros(hashLen(alg))
    }

    /** One extend step of a running digest. */
    function Extend(alg: nat, digest: ByteVec, data: ByteVec): ByteVec {
      hash(alg, digest + data)
    }
  }
}
