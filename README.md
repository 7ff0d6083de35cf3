# Signature requests of cryptoballot, in Dafny

This project models the signature request of cryptoballot's blind-signature voting
scheme (`cryptoballot/SignatureRequest.go`). A voter sends five text fields separated by
the two bytes LF LF: the election id, the request id (hex SHA-512 of the voter's public
key), the public key, the base64 ballot, and the voter's signature over the first four.
The model covers four operations:

- `NewSignatureRequest` splits the raw bytes with Go's `bytes.Split` semantics and
  requires exactly five parts. It then runs its checks in a fixed order and stops at the
  first one that fails: key parse, request id equal to the key's SHA-512, ballot base64,
  signature parse, then signature verification. Every error comes with the empty record.
- `VerifySignature` builds the transcript (four fields joined by LF LF, with the signature
  left out) and hands it to the signature collaborator.
- `String` joins the same four fields and the signature's text. The result is the wire
  form, and the transcript is a prefix of it.
- `SignBallot` decodes the ballot into a zeroed buffer of `DecodedLen(len(ballot))`
  bytes, which is an array filled in place. It hashes the whole buffer, signs the digest
  and wraps the result. The first error is returned unchanged, with an empty signature.

Modules:

- `Wire` (`wire.dfy`): split, join and count over bytes.
- `Collaborators` (`collaborators.dfy`): the abstract crypto and encoding collaborators.
- `SignatureRequests` (`signature_request.dfy`): the record, the decoder, the transcript
  and the encoder.
- `BallotSigner` (`ballot_signer.dfy`): the authority's signing operation.
- `Wrappers` (`wrappers.dfy`): `Option`, `Result`, and `ValueAndError`, Go's value-plus-error pair.

The collaborators are the fields of a `Crypto` value passed to every operation, so every
lemma holds for any choice of them:

- `NewPublicKey`, `GetSHA512`, `PublicKey.String`
- `NewSignature`, `Signature.String`, `Signature.VerifySignature`
- the base64 decoder, SHA-512, `rsa.SignPKCS1v15` and `NewSignatureFromBytes`

`DecodedLen` is written out as `n / 4 * 3`, which is the padded standard encoding's rule.
Go strings and byte slices are both modelled as byte sequences.

The round trip is narrower than "no field contains the separator". `bytes.Split` takes the
leftmost match, so a field other than the last that ends in LF also breaks it: its final
LF pairs with the separator's first byte. The model follows the code. `Splittable` states
the exact condition, and `Wire.SplitJoinIff` proves that it is both necessary and sufficient.

## Model

| member | source | states |
|---|---|---|
| `Wire.IndexOfSep` | cryptoballot/SignatureRequest.go:35 | the position found holds a separator and no earlier position does; when none is found the input holds no separator |
| `Wire.Split` | cryptoballot/SignatureRequest.go:35 | a split always yields at least one part |
| `Wire.SplitCount` | cryptoballot/SignatureRequest.go:35-39 | the split yields exactly one part more than the count of non-overlapping separators (`bytes.Count`), so five parts means exactly four separators |
| `Wire.JoinSplit` | cryptoballot/SignatureRequest.go:35 | joining the parts of any split with LF LF restores the input |
| `Wire.SplitIsSplittable` | cryptoballot/SignatureRequest.go:35 | every part of a split is free of the separator, and no part but the last ends in LF |
| `Wire.SplitJoin` | cryptoballot/SignatureRequest.go:35 | splitting a join of one or more splittable fields gives back exactly those fields |
| `Wire.SplitJoinIff` | cryptoballot/SignatureRequest.go:35 | a join followed by a split is the identity if and only if the fields are splittable |
| `Wire.JoinSnoc` | cryptoballot/SignatureRequest.go:101 | joining one more field appends LF LF and that field |
| `SignatureRequests.NewSignatureRequest` | cryptoballot/SignatureRequest.go:25-78 | every error comes with the empty record; the format error occurs exactly when the input does not hold exactly four separators; an accepted record has request id equal to its key's SHA-512, a base64 ballot and a signature that verifies |
| `SignatureRequests.DecodedFields` | cryptoballot/SignatureRequest.go:41-69 | an accepted record holds parts 0, 1 and 3 verbatim, the key parsed from part 2 and the signature parsed from part 4, and its request id equals the key's SHA-512 |
| `SignatureRequests.ErrorPrecedence` | cryptoballot/SignatureRequest.go:37-74 | each error kind occurs exactly when all earlier checks pass and its own check fails, so a bad key together with a bad request id reports the key error |
| `SignatureRequests.Transcript` | cryptoballot/SignatureRequest.go:81-90 | the signed message is election id, request id, key text and ballot, separated by LF LF, with no signature |
| `SignatureRequests.VerifySignature` | cryptoballot/SignatureRequest.go:81-90 | the request's own signature is checked by the collaborator, under the request's own key, over exactly election id, request id, key text and ballot joined by LF LF |
| `SignatureRequests.String` | cryptoballot/SignatureRequest.go:92-102 | the wire form is the signed transcript, then LF LF, then the signature's text |
| `SignatureRequests.TranscriptExcludesSignature` | cryptoballot/SignatureRequest.go:81-102 | replacing the signature leaves the transcript unchanged, and the transcript remains a prefix of the wire form |
| `SignatureRequests.TranscriptDeterminesFields` | cryptoballot/SignatureRequest.go:81-89 | two requests with splittable fields and equal transcripts agree on all four signed fields, so altering any of them alters the signed message |
| `SignatureRequests.WireSplitsBack` | cryptoballot/SignatureRequest.go:92-102 | splitting the wire form gives the five rendered fields, in order, if and only if they are splittable |
| `SignatureRequests.TrailingLFBreaksRoundTrip` | cryptoballot/SignatureRequest.go:92-102 | an election id ending in LF makes the split of the wire form differ from its fields |
| `SignatureRequests.DecodeString` | cryptoballot/SignatureRequest.go:25-102 | decoding the wire form of a valid request gives that request back, with no error, when its fields are splittable and its key and signature parse back from their own text |
| `SignatureRequests.StringOfDecoded` | cryptoballot/SignatureRequest.go:25-102 | the wire form of an accepted record equals the raw input, when its key and signature render back to the text they were parsed from |
| `BallotSigner.DecodedBuffer` | cryptoballot/SignatureRequest.go:106-107 | the buffer exists exactly when the ballot is base64, and otherwise the decoder's error is kept; the buffer is `DecodedLen` long and holds the decoded bytes, then zeros |
| `BallotSigner.Decode` | cryptoballot/SignatureRequest.go:107 | on success the decoded bytes are written to the front of the buffer and their count is returned, with the rest of the buffer untouched; on failure the decoder's error is returned |
| `BallotSigner.SignDigest` | cryptoballot/SignatureRequest.go:115-124 | the signer's error is returned unchanged when signing fails, and the wrapper's error when wrapping fails, each with an empty signature; success yields the wrapped signature |
| `BallotSigner.SignedBallot` | cryptoballot/SignatureRequest.go:105-124 | a ballot that is not base64 returns the decoder's error; otherwise the result signs SHA-512 of the decoded bytes padded with zeros to `len/4*3`; every error comes with an empty signature |
| `BallotSigner.SignBallot` | cryptoballot/SignatureRequest.go:105-125 | the method over the in-place buffer returns exactly the specified result `SignedBallot` |
| `BallotSigner.BadBallotNeverSigned` | cryptoballot/SignatureRequest.go:107-110 | for a ballot that is not base64, the result does not depend on the signer at all |
| `BallotSigner.SigningSeesOnlyTheBallot` | cryptoballot/SignatureRequest.go:105-113 | the signature depends on the ballot's bytes alone, and on no other field of the request |
| `BallotSigner.ShortDecodeHashesTrailingZeros` | cryptoballot/SignatureRequest.go:106-113 | when decoding yields fewer than `DecodedLen` bytes, the hashed buffer is the decoded bytes plus zeros, which is not the decoded ballot |
| `BallotSigner.PaddedVoteIsHashedWithZeros` | cryptoballot/SignatureRequest.go:106-113 | the ballot "dm90ZQ==" (base64 of "vote") is hashed as "vote" followed by two zero bytes |
| `BallotSigner.SignBallotDecodedOnly` | cryptoballot/SignatureRequest.go:105-125 | the corrected signer, which hashes only the bytes the decoder wrote, returns exactly `SignedDecodedBallot` |
| `BallotSigner.DecodedOnlySignsTheBallotBytes` | cryptoballot/SignatureRequest.go:106-113 | the corrected signer signs SHA-512 of the decoded ballot itself; it agrees with the code as written whenever decoding fails or fills the whole buffer |

## Findings

| source | as written | input that shows it | evidently intended | confidence | as-written member | corrected member |
|---|---|---|---|---|---|---|
| cryptoballot/SignatureRequest.go:106-113 | the count that `Decode` returns is discarded, and the whole `DecodedLen(len(Ballot))` buffer is hashed | ballot "dm90ZQ==" decodes to the 4 bytes "vote", but the 6-byte buffer "vote" + 0x00 0x00 is hashed and signed | sign the SHA-512 digest of the decoded ballot bytes, `rawBytes[:n]` | medium, not executed | `BallotSigner.ShortDecodeHashesTrailingZeros` | `BallotSigner.SignBallotDecodedOnly` |

## Left out

- RSA PKCS#1 v1.5 signing (section 8.2 of RFC 8017), SHA-512 (FIPS 180-4) and base64 decoding (section 4 of RFC 4648) are abstract collaborators. Only the order of the calls and the propagation of their errors is modelled.
- `crypto/rand` is not modelled. PKCS#1 v1.5 signatures do not depend on it: Go uses it only to blind the RSA computation.
- `PublicKey`, `Signature` and their constructors, renderers and verifier are not part of this model. They appear only as abstract collaborators with a possible error result.
- The base64 decoder is assumed never to write more than `DecodedLen` bytes (`Base64Sound`), because Go's decoder guarantees it.
- BallotSigner.Decode: states more than Go's `Decode` promises, in two ways. On error it returns a count of 0 and writes nothing, while Go returns the number of bytes written before the error. On success it leaves the bytes past the count untouched, while Go's fast paths may write zero bytes there. Neither difference is observable here: the buffer is freshly zeroed, and both callers discard the buffer and the count on error.
- Error message texts are not modelled. `Error` carries the check that failed, together with the collaborator's error wherever the code passes one on. In Go, the key-parse and signature-parse errors are the collaborators' own values and are not tagged.
- Go's pointer return `*SignatureRequest` is modelled as a value, because the record is never updated after it is built. Aliasing is not captured. `bytes.Split` returns subslices, so an accepted record's `RequestID` and `Ballot` share memory with the caller's input. A caller that reuses that buffer changes a record that already passed validation, and the value model cannot express this.
- The HTTP POST transport, election storage and signing policy are not part of this model.
