/**
 * The signature request record of the blind-signature voting scheme: its wire
 * decoder and validator, the transcript the voter signs, and its wire encoding.
 */
module SignatureRequests {
  import opened Wrappers
  import opened Wire
  import opened Collaborators

  datatype SignatureRequest = SignatureRequest(
    electionID: Bytes,
    /** Hex text of the SHA-512 of the public key. */
    requestID: Bytes,
    publicKey: PublicKey,
    /** Base64 text of the (possibly blinded) ballot. */
    ballot: Bytes,
    /** The voter's signature over the other four fields. */
    signature: Signature
  )

  /** Go's `&SignatureRequest{}`, returned beside every error. */
  const EmptyRequest := SignatureRequest([], [], ZeroPublicKey, [], ZeroSignature)

  /** The decoder's failures, in the order its checks run. */
  datatype Error =
    | InvalidFormat              // the input does not split into five parts
    | PublicKeyError(cause: Cause)   // NewPublicKey's own error, returned as is
    | InvalidRequestID           // the request id is not the key's SHA-512
    | BallotNotBase64            // the ballot does not decode as base64
    | SignatureError(cause: Cause)   // NewSignature's own error, returned as is
    | InvalidSignature(cause: Cause) // verification failed; its error is appended

  function Fail(e: Error): ValueAndError<SignatureRequest, Error> {
    ValueAndError(EmptyRequest, Some(e))
  }

  /** The four fields the voter signs, rendered as text, in wire order. */
  function TranscriptFields(req: SignatureRequest, c: Crypto): seq<Bytes> {
    [req.electionID, req.requestID, c.publicKeyString(req.publicKey), req.ballot]
  }

  /** All five rendered fields, in wire order. */
  function WireFields(req: SignatureRequest, c: Crypto): seq<Bytes> {
    TranscriptFields(req, c) + [c.signatureString(req.signature)]
  }

  /** The message the voter's signature must cover; the signature itself is left out. */
  function Transcript(req: SignatureRequest, c: Crypto): (t: Bytes)
    ensures t == req.electionID + Sep + req.requestID + Sep + c.publicKeyString(req.publicKey) + Sep + req.ballot
  {
    var key := c.publicKeyString(req.publicKey);
    var e, i, b := req.electionID, req.requestID, req.ballot;
    JoinSnoc([e], i);
    assert [e] + [i] == [e, i];
    JoinSnoc([e, i], key);
    assert [e, i] + [key] == [e, i, key];
    JoinSnoc([e, i, key], b);
    assert [e, i, key] + [b] == TranscriptFields(req, c);
    Join(TranscriptFields(req, c))
  }

  /** `VerifySignature`: `None` when the signature covers the transcript under the request's key. */
  function VerifySignature(req: SignatureRequest, c: Crypto): (r: Option<Cause>)
    ensures r == c.verify(req.signature, req.publicKey,
      req.electionID + Sep + req.requestID + Sep + c.publicKeyString(req.publicKey) + Sep + req.ballot)
  {
    c.verify(req.signature, req.publicKey, Transcript(req, c))
  }

  /** `String`: the wire form, which is the signed transcript followed by the signature's text. */
  function String(req: SignatureRequest, c: Crypto): (w: Bytes)
    ensures w == Transcript(req, c) + Sep + c.signatureString(req.signature)
  {
    JoinSnoc(TranscriptFields(req, c), c.signatureString(req.signature));
    Join(WireFields(req, c))
  }

  /** What every request the decoder accepts satisfies; a non-empty election id is not required. */
  predicate Valid(req: SignatureRequest, c: Crypto) {
    && req.requestID == c.publicKeySHA512(req.publicKey)
    && IsBase64(c, req.ballot)
    && VerifySignature(req, c).None?
  }

  /**
   * `NewSignatureRequest`: split the raw bytes into five parts, then run the checks
   * in order (key parse, request id, ballot encoding, signature parse, verification),
   * stopping at the first that fails.
   */
  function NewSignatureRequest(raw: Bytes, c: Crypto): (r: ValueAndError<SignatureRequest, Error>)
    ensures r.err.Some? ==> r.value == EmptyRequest
    ensures r.err == Some(InvalidFormat) <==> CountSeparators(raw) != 4
    ensures r.err.None? ==> Valid(r.value, c)
  {
    SplitCount(raw);
    var parts := Split(raw);
    if |parts| != 5 then Fail(InvalidFormat)
    else
      var electionID := parts[0];
      match c.newPublicKey(parts[2])
      case Failure(e) => Fail(PublicKeyError(e))
      case Success(publicKey) =>
        var requestID := parts[1];
        if requestID != c.publicKeySHA512(publicKey) then Fail(InvalidRequestID)
        else
          var ballot := parts[3];
          if !IsBase64(c, ballot) then Fail(BallotNotBase64)
          else
            match c.newSignature(parts[4])
            case Failure(e) => Fail(SignatureError(e))
            case Success(signature) =>
              var req := SignatureRequest(electionID, requestID, publicKey, ballot, signature);
              match VerifySignature(req, c)
              case Some(e) => Fail(InvalidSignature(e))
              case None => ValueAndError(req, None)
  }

  /** An accepted request holds parts 0, 1 and 3 verbatim and the key and signature parsed from parts 2 and 4. */
  lemma DecodedFields(raw: Bytes, c: Crypto)
    requires NewSignatureRequest(raw, c).err.None?
    ensures var parts, req := Split(raw), NewSignatureRequest(raw, c).value;
      && |parts| == 5
      && req.electionID == parts[0]
      && req.requestID == parts[1]
      && c.newPublicKey(parts[2]) == Success(req.publicKey)
      && req.ballot == parts[3]
      && c.newSignature(parts[4]) == Success(req.signature)
      && req.requestID == c.publicKeySHA512(req.publicKey)
  {
  }

  /**
   * The first failing check decides the error: each error kind arises exactly when
   * every earlier check passed and its own check failed.
   */
  lemma ErrorPrecedence(raw: Bytes, c: Crypto)
    ensures var parts, err := Split(raw), NewSignatureRequest(raw, c).err;
      && (err == Some(InvalidFormat) <==> |parts| != 5)
      && (forall e :: err == Some(PublicKeyError(e)) <==>
            |parts| == 5 && c.newPublicKey(parts[2]) == Failure(e))
      && (err == Some(InvalidRequestID) <==>
            |parts| == 5 && c.newPublicKey(parts[2]).Success?
            && parts[1] != c.publicKeySHA512(c.newPublicKey(parts[2]).value))
      && (err == Some(BallotNotBase64) <==>
            |parts| == 5 && c.newPublicKey(parts[2]).Success?
            && parts[1] == c.publicKeySHA512(c.newPublicKey(parts[2]).value)
            && !IsBase64(c, parts[3]))
      && (forall e :: err == Some(SignatureError(e)) <==>
            |parts| == 5 && c.newPublicKey(parts[2]).Success?
            && parts[1] == c.publicKeySHA512(c.newPublicKey(parts[2]).value)
            && IsBase64(c, parts[3])
            && c.newSignature(parts[4]) == Failure(e))
      && (forall e :: err == Some(InvalidSignature(e)) <==>
            |parts| == 5 && c.newPublicKey(parts[2]).Success?
            && parts[1] == c.publicKeySHA512(c.newPublicKey(parts[2]).value)
            && IsBase64(c, parts[3])
            && c.newSignature(parts[4]).Success?
            && VerifySignature(SignatureRequest(parts[0], parts[1], c.newPublicKey(parts[2]).value,
                 parts[3], c.newSignature(parts[4]).value), c) == Some(e))
  {
  }

  /** The signature is not part of what it signs: changing it leaves the transcript alone. */
  lemma TranscriptExcludesSignature(req: SignatureRequest, sig: Signature, c: Crypto)
    ensures Transcript(req.(signature := sig), c) == Transcript(req, c)
    ensures String(req.(signature := sig), c)[..|Transcript(req, c)|] == Transcript(req, c)
  {
  }

  /**
   * With splittable rendered fields, the transcript determines the four signed fields:
   * two such requests with equal transcripts agree on election id, request id, key text
   * and ballot, so altering any of them alters the message the signature must cover.
   */
  lemma TranscriptDeterminesFields(a: SignatureRequest, b: SignatureRequest, c: Crypto)
    requires Splittable(TranscriptFields(a, c)) && Splittable(TranscriptFields(b, c))
    requires Transcript(a, c) == Transcript(b, c)
    ensures a.electionID == b.electionID && a.requestID == b.requestID
    ensures c.publicKeyString(a.publicKey) == c.publicKeyString(b.publicKey)
    ensures a.ballot == b.ballot
  {
    SplitJoin(TranscriptFields(a, c));
    SplitJoin(TranscriptFields(b, c));
  }

  /** Splitting the wire form gives back the five rendered fields exactly when they are splittable. */
  lemma WireSplitsBack(req: SignatureRequest, c: Crypto)
    ensures Split(String(req, c)) == WireFields(req, c) <==> Splittable(WireFields(req, c))
  {
    SplitJoinIff(WireFields(req, c));
  }

  /** An election id ending in LF is enough to break the round trip, although it holds no separator. */
  lemma TrailingLFBreaksRoundTrip(req: SignatureRequest, c: Crypto)
    requires EndsWithLF(req.electionID)
    ensures Split(String(req, c)) != WireFields(req, c)
  {
    WireSplitsBack(req, c);
    assert WireFields(req, c)[0] == req.electionID;
  }

  /**
   * Round trip: a valid request whose rendered fields are splittable, and whose key and
   * signature parse back from their own text, decodes from its wire form to itself.
   */
  lemma DecodeString(req: SignatureRequest, c: Crypto)
    requires Splittable(WireFields(req, c))
    requires c.newPublicKey(c.publicKeyString(req.publicKey)) == Success(req.publicKey)
    requires c.newSignature(c.signatureString(req.signature)) == Success(req.signature)
    requires Valid(req, c)
    ensures NewSignatureRequest(String(req, c), c) == ValueAndError(req, None)
  {
    WireSplitsBack(req, c);
    var parts := Split(String(req, c));
    assert parts == WireFields(req, c);
    assert parts[0] == req.electionID && parts[1] == req.requestID && parts[3] == req.ballot;
  }

  /**
   * The other direction: an accepted input is the wire form of what it decoded to,
   * whenever the key and signature render back to the text they were parsed from.
   */
  lemma StringOfDecoded(raw: Bytes, c: Crypto)
    requires NewSignatureRequest(raw, c).err.None?
    requires var parts, req := Split(raw), NewSignatureRequest(raw, c).value;
      |parts| == 5
      && c.publicKeyString(req.publicKey) == parts[2]
      && c.signatureString(req.signature) == parts[4]
    ensures String(NewSignatureRequest(raw, c).value, c) == raw
  {
    var parts, req := Split(raw), NewSignatureRequest(raw, c).value;
    DecodedFields(raw, c);
    assert WireFields(req, c) == parts;
    JoinSplit(raw);
  }
}
