/**
  The collaborators that the memo module imports and that are not modelled: key derivation,
  the shared-secret cipher, the envelope serializer, base-58 and UTF-8.  Each is injected as a
  value holding total functions; a `Lawful` predicate states the only facts about it that
  the memo protocol relies on.
*/
module Primitives {
  import opened BoundedInts
  import opened Wrappers

  /** Opaque key material; keys are compared only through their canonical text. */
  datatype PrivateKey = PrivateKey(secret: seq<uint8>)
  datatype PublicKey = PublicKey(point: seq<uint8>)

  /** `toPublicKey()` on a private key and `toString()` on a public key. */
  datatype KeyOps = KeyOps(toPublicKey: PrivateKey -> PublicKey, toText: PublicKey -> string)

  /** What `Aes.encrypt` returns: `{nonce, checksum, message}`. */
  datatype Sealed = Sealed(nonce: uint64, checksum: uint32, message: seq<uint8>)

  /**
    `Aes.encrypt(private_key, public_key, message, testNonce)` and
    `Aes.decrypt(private_key, public_key_text, nonce, message, check)`; decrypt yields None
    when the checksum derived from the shared secret does not match.
  */
  datatype Cipher = Cipher(
    encrypt: (PrivateKey, PublicKey, seq<uint8>, Option<uint64>) -> Sealed,
    decrypt: (PrivateKey, string, uint64, seq<uint8>, uint32) -> Option<seq<uint8>>)
  {
    /**
      Decrypting with the same key pair, or with the roles swapped (the shared secret of
      elliptic-curve Diffie-Hellman is symmetric), recovers the message; an explicit nonce
      is used as given.
    */
    ghost predicate Lawful(keys: KeyOps) {
      && (forall sk, pk, m, n ::
            decrypt(sk, keys.toText(pk), encrypt(sk, pk, m, n).nonce,
                    encrypt(sk, pk, m, n).message, encrypt(sk, pk, m, n).checksum) == Some(m))
      && (forall skA, skB, m, n ::
            decrypt(skB, keys.toText(keys.toPublicKey(skA)),
                    encrypt(skA, keys.toPublicKey(skB), m, n).nonce,
                    encrypt(skA, keys.toPublicKey(skB), m, n).message,
                    encrypt(skA, keys.toPublicKey(skB), m, n).checksum) == Some(m))
      && (forall sk, pk, m, n: uint64 :: encrypt(sk, pk, m, Some(n)).nonce == n)
    }
  }

  /** The `encrypted_memo` record, fields in wire order. */
  datatype Envelope = Envelope(from: PublicKey, to: PublicKey, nonce: uint64, check: uint32,
                               encrypted: seq<uint8>)

  /** `encMemo.toBuffer` and `encMemo.fromBuffer` (None: the bytes do not parse). */
  datatype EnvelopeSerializer = EnvelopeSerializer(
    toBuffer: Envelope -> seq<uint8>,
    fromBuffer: seq<uint8> -> Option<Envelope>)
  {
    ghost predicate Lawful() {
      forall e :: fromBuffer(toBuffer(e)) == Some(e)
    }
  }

  /** `base58.encode` and `base58.decode` (None: a character outside the alphabet). */
  datatype Base58 = Base58(encode: seq<uint8> -> string, decode: string -> Option<seq<uint8>>) {
    ghost predicate Lawful() {
      forall b :: decode(encode(b)) == Some(b)
    }
  }

  /**
    UTF-8: the encoder used by `writeVString`, the strict decoder of `readVString`
    (None: an invalid sequence) and the replacing decoder of `Buffer.toString('utf-8')`.
  */
  datatype Utf8 = Utf8(
    encode: string -> seq<uint8>,
    decodeStrict: seq<uint8> -> Option<string>,
    decodeLenient: seq<uint8> -> string)
  {
    /** Strict decoding undoes encoding. */
    ghost predicate RoundTrips() {
      forall s :: decodeStrict(encode(s)) == Some(s)
    }

    /** The replacing decoder agrees with the strict one wherever the strict one succeeds. */
    ghost predicate LenientAgrees() {
      forall b :: decodeStrict(b).Some? ==> decodeLenient(b) == decodeStrict(b).value
    }

    ghost predicate Lawful() {
      RoundTrips() && LenientAgrees()
    }
  }

  datatype Capabilities = Capabilities(
    keys: KeyOps,
    cipher: Cipher,
    serializer: EnvelopeSerializer,
    base58: Base58,
    utf8: Utf8)
  {
    /** The laws the end-to-end round trips need: every collaborator undoes its inverse. */
    ghost predicate RoundTrips() {
      cipher.Lawful(keys) && serializer.Lawful() && base58.Lawful() && utf8.RoundTrips()
    }

    ghost predicate Lawful() {
      RoundTrips() && utf8.LenientAgrees()
    }
  }
}
