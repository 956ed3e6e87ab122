# roughstamp client core, in Dafny

A model of the client side of roughstamp, a Roughtime time-stamping tool. The client
turns a 32-byte content digest into a 64-byte nonce, sends a Roughtime request padded
to the minimum frame size, and verifies the server's reply: the trust anchor's
signature over the delegation (DELE), the delegated key's signature over the signed
response (SREP), the Merkle inclusion of the nonce under SREP's ROOT, and the midpoint
lying inside the delegation's window [MINT, MAXT]. Without a public key the reply's
midpoint and radius are reported unverified and no check runs.

Files:

- `wrappers.dfy` — `Option` and `Result`.
- `bytes.dfy` — bytes, u32/u64, and the little-endian reads `read_u32`/`read_u64`, with
  the encoding they invert.
- `message.dfy` — tags (declared in their ascending wire order), fields, decoded tag
  maps, the in-place `RtMessage` builder (`add_field`, `clear`), and the roughenough
  wire codec as a collaborator (`Codec`: encode, decode, padding length).
- `stamp.dfy` — `make_request`, `ResponseHandler::new`, `extract_time` and the
  `validate_*` helpers, `validate_sig` over a `Verifier` object.
- `stamp_properties.dfy` — what the request and the pipeline guarantee, against
  independent descriptions of a well-formed request and an authentic response.
- `client.dfy` — `expand_digest`, `hex_digest_to_digest64`, public-key decoding,
  `verify_timestamp`, and the seconds/nanoseconds split in `main`.

Every panic in the modelled code (`unwrap`, `expect`, `assert!`, `assert_eq!`, indexing a
`HashMap` with an absent tag) is a distinct failure value (`Stamp.Panic`,
`Client.ClientError`), so "aborts with its own message" becomes "returns its own failure".

Collaborators that the source calls but that are not part of this model are
parameters given by their functions: `Codec` (roughenough's `RtMessage` encoding,
`from_bytes(..).into_hash_map()` and `calculate_padding_length`), `Crypto` (Ed25519
verification, section 5.1.7 of RFC 8032, and `MerkleTree::root_from_paths`, indexed by
the hash the version selects: Classic uses SHA-512, Rfc SHA-512/256) and `TextCodecs`
(hex and base64 decoding from `data_encoding`). Results that depend on what the
library does take it as an explicit hypothesis: `Message.Frames` (encoded size is a
u32 count, u32 offsets and tags, then the values; the padding length brings a message
of two or more fields to 1024 bytes) and `Message.DecodeInvertsEncode`. The two context
strings (`RoughTime v1 delegation signature--\0` and `RoughTime v1 response
signature\0`) and the strictly-increasing-tag rule of `add_field` are taken from the
roughenough library, which is not part of this model.

## Model

| member | source | states |
|---|---|---|
| `Message.RtMessage.constructor` | roughstamp/src/stamp.rs:39 | a new message has no fields |
| `Message.RtMessage.AddField` | roughstamp/src/stamp.rs:41-42 | appends the field when its tag is above the last one, else fails with TagNotStrictlyIncreasing and leaves the message unchanged; tags stay strictly increasing |
| `Message.RtMessage.Clear` | roughstamp/src/stamp.rs:47 | the message is empty afterwards |
| `Stamp.MakeRequest` | roughstamp/src/stamp.rs:38-56 | the result is the encoding of exactly [NONC = nonce, PAD_CLASSIC = zero bytes], the padding length being the one measured on the first pass with an empty PAD_CLASSIC; the add_field unwraps cannot panic; an encoder failure is EncodeFailed |
| `StampProperties.RequestFieldsOrdered` | roughstamp/src/stamp.rs:41-49 | NONC precedes PAD_CLASSIC in wire order, so both passes add fields legally |
| `StampProperties.RequestDecodes` | roughstamp/src/stamp.rs:47-49 | given a decoder that inverts the encoder, the request decodes to exactly two entries: NONC equal to the nonce and PAD_CLASSIC all zeros, of the first-pass length |
| `StampProperties.RequestFillsFrame` | roughstamp/src/stamp.rs:41-49 | given the wire framing, the request is never below 1024 bytes and is exactly 1024 bytes when the nonce leaves room, because the first pass already counts the padding tag's overhead |
| `Bytes.ReadLe` | roughstamp/src/stamp.rs:106-113 | reading fails exactly when fewer than width bytes are there; otherwise the value fits width bytes and its encoding is the first width bytes |
| `Bytes.ReadU32` | roughstamp/src/stamp.rs:110-113 | `read_u32::<LittleEndian>`: defined iff at least 4 bytes, value encodes to the first 4 |
| `Bytes.ReadU64` | roughstamp/src/stamp.rs:106-109 | `read_u64::<LittleEndian>`: defined iff at least 8 bytes, value encodes to the first 8 |
| `Bytes.LeValueBound` | roughstamp/src/stamp.rs:106-113 | an n-byte little-endian value is below 256^n, so u64/u32 reads cannot overflow |
| `Bytes.LeValueOfBytes` | roughstamp/src/stamp.rs:106-113 | decoding the n-byte encoding of a value that fits gives the value back |
| `Bytes.LeBytesOfValue` | roughstamp/src/stamp.rs:106-113 | encoding a decoded value gives the original bytes back |
| `Bytes.ReadLeIgnoresTrailing` | roughstamp/src/stamp.rs:106-113 | bytes after the first width never change what is read |
| `Bytes.ReadLeUnique` | roughstamp/src/stamp.rs:106-113 | the value read is the only one whose encoding is the first width bytes |
| `Stamp.Get` | roughstamp/src/stamp.rs:84-92 | indexing a tag map yields the value iff the tag is present, else panics naming the map and the tag |
| `Stamp.DecodeNested` | roughstamp/src/stamp.rs:84-92 | `from_bytes(..).unwrap().into_hash_map()`: the decoded map iff the bytes decode, else Undecodable naming the nested message |
| `Stamp.New` | roughstamp/src/stamp.rs:77-103 | succeeds iff SREP and CERT are present and decodable and CERT holds a decodable DELE; the handler keeps the top-level map, key, nonce and version and holds the decodings |
| `StampProperties.NewFailures` | roughstamp/src/stamp.rs:84-92 | each of the six cases (SREP, CERT or DELE missing; SREP, CERT or DELE undecodable) aborts with its own failure, checked in the order SREP, CERT, DELE |
| `Stamp.GetU64` | roughstamp/src/stamp.rs:106-109 | a missing tag and a short value are distinct failures; on success the value's 8-byte little-endian encoding is the field's first 8 bytes |
| `Stamp.GetU32` | roughstamp/src/stamp.rs:110-113 | as GetU64 for 4-byte fields |
| `Stamp.Verifier.constructor` | roughstamp/src/stamp.rs:206 | a verifier starts for the given key with nothing fed |
| `Stamp.Verifier.Update` | roughstamp/src/stamp.rs:207 | update appends the data to what the verifier has been fed |
| `Stamp.Verifier.Verify` | roughstamp/src/stamp.rs:208 | the verdict is the Ed25519 check of the signature over exactly the bytes fed so far, under the verifier's key |
| `Stamp.ValidateSig` | roughstamp/src/stamp.rs:205-209 | a verifier fed the data once accepts exactly the signatures that are valid over that data under that key |
| `Stamp.ValidateDele` | roughstamp/src/stamp.rs:132-144 | passes iff CERT's SIG is a valid signature by the trust anchor over CERTIFICATE_CONTEXT followed by CERT's DELE bytes; otherwise the first of: DELE missing, SIG missing (each MissingTag), bad signature (InvalidDeleSignature), in the source's order |
| `Stamp.ValidateSrep` | roughstamp/src/stamp.rs:146-154 | passes iff the top-level SIG is a valid signature by DELE's PUBK over SIGNED_RESPONSE_CONTEXT followed by the SREP bytes; otherwise the first of: SREP missing, PUBK missing, SIG missing (each MissingTag), bad signature (InvalidSrepSignature), in the source's order |
| `Stamp.MerkleHash` | roughstamp/src/stamp.rs:166-169 | Classic selects SHA-512 and Rfc selects SHA-512/256, one to one |
| `Stamp.ValidateMerkle` | roughstamp/src/stamp.rs:156-177 | passes iff the root recomputed with the version's hash from the INDX leaf index, the nonce and PATH equals SREP's ROOT exactly; otherwise the first of, in the source's order: SREP missing, SREP undecodable, INDX missing, INDX short, PATH missing, ROOT missing (each its own failure), root mismatch (NonceNotInTree) |
| `Stamp.ValidateMidpoint` | roughstamp/src/stamp.rs:179-203 | passes iff DELE's MINT and MAXT are readable u64s with MINT <= midpoint <= MAXT (inclusive); a missing or short MINT/MAXT is its own failure; below MINT is MidpointBeforeSpan and above MAXT is MidpointAfterSpan, each carrying the midpoint and the decoded MINT and MAXT |
| `Stamp.ExtractTime` | roughstamp/src/stamp.rs:105-130 | reads MIDP first and RADI second, a missing or short field failing with its own MissingTag/TooShort before anything else runs; on success the midpoint and radius are SREP's MIDP and RADI read little-endian, and verified holds exactly when a key was given; without a key it succeeds iff MIDP and RADI are readable |
| `StampProperties.KeyedVerifiedIff` | roughstamp/src/stamp.rs:115-120 | with a key, extract_time succeeds iff the time fields are readable, both signatures hold, the nonce is in the tree and the midpoint is in the window, and then returns them as verified |
| `StampProperties.FirstFailingCheck` | roughstamp/src/stamp.rs:115-120 | with a key, checks run delegation, response, Merkle, midpoint: a failure of any of them, whether a missing or short tag or a failed signature, Merkle or window assertion, is exactly what extract_time returns, and each assertion failure is also stated outright in terms of the response's fields |
| `StampProperties.ObservationSameTime` | roughstamp/src/stamp.rs:115-129 | dropping the key never changes the reported midpoint and radius, only the verified flag |
| `StampProperties.NoKeyNoChecks` | roughstamp/src/stamp.rs:115-123 | without a key the result depends on SREP alone: no signature, Merkle or window input is consulted |
| `StampProperties.DecodedHandlerFailures` | roughstamp/src/stamp.rs:156-176 | on a handler New built, extract_time never fails for a reason New already excluded, and the Merkle check's fresh decoding of SREP compares against the handler's own SREP ROOT |
| `StampProperties.DomainSeparated` | roughstamp/src/stamp.rs:132-154 | the delegation payload and the response payload can never be the same bytes, whatever DELE and SREP hold |
| `Client.ExpandDigest` | roughstamp/src/main.rs:90-97 | the 64-byte result starts with the digest and byte 63-i is digest byte i: the digest followed by its reverse |
| `Client.ExpandedPalindrome` | roughstamp/src/main.rs:90-97 | the expanded nonce is a palindrome |
| `Client.ExpandedInjective` | roughstamp/src/main.rs:90-97 | distinct digests expand to distinct nonces |
| `Client.HexDigestToDigest64` | roughstamp/src/main.rs:99-103 | succeeds iff the hex decodes to exactly 32 bytes, returning their expansion; bad hex is a returned error, a wrong length a panic |
| `Client.DecodePublicKey` | roughstamp/src/main.rs:165-169 | no key stays no key; hex is tried first, base64 second; the call panics iff a key is given and neither decodes |
| `Client.VerifyTimestamp` | roughstamp/src/main.rs:164-175 | gives the result exactly, in the source's order: an unparseable key panics first, then an undecodable response, then New's failure, then extract_time's; otherwise it is extract_time's result, unchanged, on the handler built with the Classic version and the given digest as nonce; verified iff a key was supplied |
| `Client.SplitMidpoint` | roughstamp/src/main.rs:142-143 | nanoseconds are below 10^9 and a multiple of 1000, seconds*10^6 + nsecs/1000 is the midpoint, no u64 step overflows, and the casts to i64 and u32 lose nothing |

## Left out

- Network I/O in `main` (socket bind, one-second read timeout, send and receive): the
  received bytes are the `raw` parameter of `Client.VerifyTimestamp`.
- File I/O in `main` (`create_new` on the stamp file, `fs::read`): the stamp is only
  written after `verify_timestamp` has returned successfully, so with a public key a
  stamp file never holds a reply that failed verification; without a key no check runs
  and the reply is written unchecked. The write itself is not modelled.
- Argument parsing with clap, chrono formatting of the split time, and `eprintln!`
  output (including `make_request`'s `text_dump` option, which only prints).
- The encoding, decoding and padding computation of roughenough's `RtMessage`, Ed25519
  and the Merkle hashing are uninterpreted collaborators; properties that need their
  behaviour take it as a hypothesis predicate.
- Tags the client never reads are absent from `Message.Tag`; a decoded map in the model
  holds only tags the core can look up, which changes no lookup the source makes.
- `Stamp.ValidateDele`: `pub_key.as_ref().unwrap()` is a precondition rather than a
  failure value, because the source only calls it after `pub_key.is_some()`.
- The commented-out `main` at the end of stamp.rs: dead code, not modelled.
