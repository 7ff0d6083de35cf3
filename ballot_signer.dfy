/**
 * The authority side: `SignBallot` decodes the request's base64 ballot into a
 * buffer, hashes the buffer with SHA-512, signs the digest with RSA PKCS#1 v1.5 and
 * wraps the raw signature. Every step can fail and its error is returned unchanged.
 */
module BallotSigner {
  import opened Wrappers
  import opened Wire
  import opened Collaborators
  import opened SignatureRequests

  function Zeros(n: nat): (z: Bytes)
    ensures |z| == n && forall k :: 0 <= k < n ==> z[k] == 0
  {
    seq(n, _ => 0)
  }

  /**
   * What the `DecodedLen`-sized buffer holds once Go's decoder has written into it:
   * the decoded bytes, then the zeros it was allocated with.
   */
  function DecodedBuffer(c: Crypto, ballot: Bytes): (r: Result<Bytes, Cause>)
    requires Base64Sound(c)
    ensures r.Success? <==> IsBase64(c, ballot)
    ensures r.Failure? ==> r.error == c.base64Decode(ballot).error
    ensures r.Success? ==>
      var decoded := c.base64Decode(ballot).value;
      && |r.value| == DecodedLen(|ballot|)
      && r.value[..|decoded|] == decoded
      && forall k :: |decoded| <= k < |r.value| ==> r.value[k] == 0
  {
    match c.base64Decode(ballot)
    case Failure(e) => Failure(e)
    case Success(decoded) => Success(decoded + Zeros(DecodedLen(|ballot|) - |decoded|))
  }

  /**
   * Sign `digest` and wrap the result. The signer's error is returned unchanged when it
   * fails, otherwise the wrapper's; an empty signature accompanies either.
   */
  function SignDigest(digest: Bytes, key: PrivateKey, c: Crypto): (r: ValueAndError<Signature, Cause>)
    ensures r.err.Some? ==> r.value == ZeroSignature
    ensures c.signPKCS1v15(key, digest).Failure? ==> r.err == Some(c.signPKCS1v15(key, digest).error)
    ensures c.signPKCS1v15(key, digest).Success? ==>
      var wrapped := c.newSignatureFromBytes(c.signPKCS1v15(key, digest).value);
      && (wrapped.Failure? ==> r.err == Some(wrapped.error))
      && (wrapped.Success? ==> r == ValueAndError(wrapped.value, None))
  {
    match c.signPKCS1v15(key, digest)
    case Failure(e) => ValueAndError(ZeroSignature, Some(e))
    case Success(raw) =>
      match c.newSignatureFromBytes(raw)
      case Failure(e) => ValueAndError(ZeroSignature, Some(e))
      case Success(sig) => ValueAndError(sig, None)
  }

  /**
   * The result of `SignBallot` as written: the decoder's error when the ballot is not
   * base64, otherwise the signature over SHA-512 of the decoded bytes followed by zeros
   * up to `DecodedLen`; an empty signature accompanies every error.
   */
  function SignedBallot(req: SignatureRequest, key: PrivateKey, c: Crypto): (r: ValueAndError<Signature, Cause>)
    requires Base64Sound(c)
    ensures r.err.Some? ==> r.value == ZeroSignature
    ensures !IsBase64(c, req.ballot) ==> r.err == Some(c.base64Decode(req.ballot).error)
    ensures IsBase64(c, req.ballot) ==>
      var decoded := c.base64Decode(req.ballot).value;
      r == SignDigest(c.sha512(decoded + Zeros(DecodedLen(|req.ballot|) - |decoded|)), key, c)
  {
    match DecodedBuffer(c, req.ballot)
    case Failure(e) => ValueAndError(ZeroSignature, Some(e))
    case Success(buffer) => SignDigest(c.sha512(buffer), key, c)
  }

  /**
   * `base64.StdEncoding.Decode(dst, src)`: write the decoded bytes to the front of `dst`
   * and return how many were written, or the decoder's error.
   */
  method Decode(dst: array<byte>, src: Bytes, c: Crypto) returns (n: nat, err: Option<Cause>)
    requires Base64Sound(c)
    requires DecodedLen(|src|) <= dst.Length
    modifies dst
    ensures err.Some? <==> !IsBase64(c, src)
    ensures err.Some? ==> err.value == c.base64Decode(src).error && n == 0
    ensures err.None? ==> n == |c.base64Decode(src).value| && dst[..n] == c.base64Decode(src).value
    ensures forall k :: n <= k < dst.Length ==> dst[k] == old(dst[k])
  {
    match c.base64Decode(src)
    case Failure(e) =>
      return 0, Some(e);
    case Success(decoded) =>
      n := 0;
      while n < |decoded|
        invariant n <= |decoded| <= dst.Length
        invariant dst[..n] == decoded[..n]
        invariant forall k :: n <= k < dst.Length ==> dst[k] == old(dst[k])
      {
        dst[n] := decoded[n];
        n := n + 1;
      }
      err := None;
  }

  /** `SignBallot`, as written. */
  method SignBallot(req: SignatureRequest, key: PrivateKey, c: Crypto) returns (r: ValueAndError<Signature, Cause>)
    requires Base64Sound(c)
    ensures r == SignedBallot(req, key, c)
  {
    var rawBytes := new byte[DecodedLen(|req.ballot|)](_ => 0);
    var _, err := Decode(rawBytes, req.ballot, c);
    if err.Some? {
      return ValueAndError(ZeroSignature, err);
    }
    assert rawBytes[..] == DecodedBuffer(c, req.ballot).value;
    var digest := c.sha512(rawBytes[..]);
    r := SignDigest(digest, key, c);
  }

  /** A ballot that is not base64 is never handed to the signer: the signer's behaviour cannot change the result. */
  lemma BadBallotNeverSigned(req: SignatureRequest, key: PrivateKey, c: Crypto,
                             signer: (PrivateKey, Bytes) -> Result<Bytes, Cause>)
    requires Base64Sound(c) && !IsBase64(c, req.ballot)
    ensures SignedBallot(req, key, c.(signPKCS1v15 := signer)) == SignedBallot(req, key, c)
  {
  }

  /** The authority looks only at the ballot's bytes, never at the other fields of the request. */
  lemma SigningSeesOnlyTheBallot(a: SignatureRequest, b: SignatureRequest, key: PrivateKey, c: Crypto)
    requires Base64Sound(c) && a.ballot == b.ballot
    ensures SignedBallot(a, key, c) == SignedBallot(b, key, c)
  {
  }

  /**
   * As written, a ballot that decodes to fewer than `DecodedLen` bytes (one with `=`
   * padding, or with line breaks the decoder skips) is hashed with trailing zeros: the
   * hashed buffer is not the decoded ballot.
   */
  lemma ShortDecodeHashesTrailingZeros(ballot: Bytes, c: Crypto)
    requires Base64Sound(c) && IsBase64(c, ballot)
    requires |c.base64Decode(ballot).value| < DecodedLen(|ballot|)
    ensures var decoded := c.base64Decode(ballot).value;
      && DecodedBuffer(c, ballot).value != decoded
      && DecodedBuffer(c, ballot).value == decoded + Zeros(DecodedLen(|ballot|) - |decoded|)
  {
  }

  /** "dm90ZQ==" in ASCII: the base64 text of "vote", with two padding characters. */
  const PaddedVoteText: Bytes := [100, 109, 57, 48, 90, 81, 61, 61]

  /** "vote" in ASCII. */
  const Vote: Bytes := [118, 111, 116, 101]

  /** The concrete case: the padded text of "vote" is hashed as "vote" followed by two zero bytes. */
  lemma PaddedVoteIsHashedWithZeros(c: Crypto)
    requires Base64Sound(c)
    requires c.base64Decode(PaddedVoteText) == Success(Vote)
    ensures DecodedLen(|PaddedVoteText|) == 6
    ensures DecodedBuffer(c, PaddedVoteText) == Success(Vote + [0, 0])
    ensures DecodedBuffer(c, PaddedVoteText) != Success(Vote)
  {
    ShortDecodeHashesTrailingZeros(PaddedVoteText, c);
    assert Zeros(2) == [0, 0];
  }

  /** The intended result: the digest covers exactly the bytes the decoder produced. */
  function SignedDecodedBallot(req: SignatureRequest, key: PrivateKey, c: Crypto): ValueAndError<Signature, Cause> {
    match c.base64Decode(req.ballot)
    case Failure(e) => ValueAndError(ZeroSignature, Some(e))
    case Success(decoded) => SignDigest(c.sha512(decoded), key, c)
  }

  /** `SignBallot` with the decoded count honoured: only `rawBytes[..n]` is hashed. */
  method SignBallotDecodedOnly(req: SignatureRequest, key: PrivateKey, c: Crypto) returns (r: ValueAndError<Signature, Cause>)
    requires Base64Sound(c)
    ensures r == SignedDecodedBallot(req, key, c)
  {
    var rawBytes := new byte[DecodedLen(|req.ballot|)](_ => 0);
    var n, err := Decode(rawBytes, req.ballot, c);
    if err.Some? {
      return ValueAndError(ZeroSignature, err);
    }
    var digest := c.sha512(rawBytes[..n]);
    r := SignDigest(digest, key, c);
  }

  /**
   * The corrected signer signs SHA-512 of the decoded ballot itself, and differs from
   * the code as written only on ballots whose decoding falls short of `DecodedLen`.
   */
  lemma DecodedOnlySignsTheBallotBytes(req: SignatureRequest, key: PrivateKey, c: Crypto)
    requires Base64Sound(c)
    ensures IsBase64(c, req.ballot) ==>
      SignedDecodedBallot(req, key, c) == SignDigest(c.sha512(c.base64Decode(req.ballot).value), key, c)
    ensures !IsBase64(c, req.ballot) ==> SignedDecodedBallot(req, key, c) == SignedBallot(req, key, c)
    ensures IsBase64(c, req.ballot) && |c.base64Decode(req.ballot).value| == DecodedLen(|req.ballot|) ==>
      SignedDecodedBallot(req, key, c) == SignedBallot(req, key, c)
  {
    if IsBase64(c, req.ballot) && |c.base64Decode(req.ballot).value| == DecodedLen(|req.ballot|) {
      var decoded := c.base64Decode(req.ballot).value;
      assert DecodedBuffer(c, req.ballot).value == decoded;
    }
  }
}
