/**
 * The cryptographic and encoding collaborators the signature request relies on.
 * Their implementations are outside this model, so each is a field of arrow type in
 * `Crypto`; every operation takes the bundle as a parameter and every lemma holds for
 * any choice of them.
 */
module Collaborators {
  import opened Wrappers
  import opened Wire

  /** An error value produced by a collaborator, carried unchanged where Go passes `err` on. */
  datatype Cause = Cause(message: Bytes)

  /** The voter's public key (Go's `PublicKey`); its zero value holds no bytes. */
  datatype PublicKey = PublicKey(bytes: Bytes)

  /** A signature (Go's `Signature`); its zero value holds no bytes. */
  datatype Signature = Signature(bytes: Bytes)

  /** The authority's RSA private key, opaque here. */
  datatype PrivateKey = PrivateKey(material: Bytes)

  const ZeroPublicKey := PublicKey([])
  const ZeroSignature := Signature([])

  datatype Crypto = Crypto(
    /** `NewPublicKey`: parse a public key from its text. */
    newPublicKey: Bytes -> Result<PublicKey, Cause>,
    /** `PublicKey.GetSHA512`: the hex text of the SHA-512 of the key. */
    publicKeySHA512: PublicKey -> Bytes,
    /** `PublicKey.String`: the key's canonical text. */
    publicKeyString: PublicKey -> Bytes,
    /** `NewSignature`: parse a signature from its text. */
    newSignature: Bytes -> Result<Signature, Cause>,
    /** `Signature.String`: the signature's canonical text. */
    signatureString: Signature -> Bytes,
    /** `Signature.VerifySignature(key, message)`: `None` when the signature is good. */
    verify: (Signature, PublicKey, Bytes) -> Option<Cause>,
    /** `base64.StdEncoding.Decode`: the bytes it writes, or its error. */
    base64Decode: Bytes -> Result<Bytes, Cause>,
    /** `sha512.New`, `Write`, `Sum(nil)`: the 64-byte digest. */
    sha512: Bytes -> Bytes,
    /** `rsa.SignPKCS1v15(rand.Reader, key, crypto.SHA512, digest)`. */
    signPKCS1v15: (PrivateKey, Bytes) -> Result<Bytes, Cause>,
    /** `NewSignatureFromBytes`: wrap raw signature bytes. */
    newSignatureFromBytes: Bytes -> Result<Signature, Cause>
  )

  /** `base64.StdEncoding.DecodedLen(n)` for the padded standard encoding. */
  function DecodedLen(n: nat): nat {
    n / 4 * 3
  }

  /** The ballot text decodes as standard base64. */
  predicate IsBase64(c: Crypto, text: Bytes) {
    c.base64Decode(text).Success?
  }

  /**
   * What Go's decoder guarantees and the callers rely on when sizing the buffer:
   * it never writes more than `DecodedLen` bytes.
   */
  ghost predicate Base64Sound(c: Crypto) {
    forall text :: c.base64Decode(text).Success? ==> |c.base64Decode(text).value| <= DecodedLen(|text|)
  }
}
