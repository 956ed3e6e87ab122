/**
 * The client core of roughstamp's `stamp` module: building a padded request around a
 * nonce, decoding a response into its nested messages, and the verification pipeline
 * (delegation signature, response signature, Merkle inclusion, validity window).
 */
module Stamp {
  import opened Wrappers
  import opened Bytes
  import opened Message

  // ---------------------------------------------------------------- collaborators

  /** Protocol version chosen by the caller; it selects the Merkle hash. */
  datatype Version = Classic | Rfc

  datatype HashAlg = Sha512 | Sha512Trunc256

  /** Classic Roughtime hashes its Merkle tree with SHA-512, the RFC draft with SHA-512/256. */
  function MerkleHash(version: Version): (alg: HashAlg)
    ensures version == Classic <==> alg == Sha512
    ensures version == Rfc <==> alg == Sha512Trunc256
  {
    match version
    case Classic => Sha512
    case Rfc => Sha512Trunc256
  }

  /**
   * The cryptographic primitives, uninterpreted: Ed25519 verification of a signature
   * over some data under a public key (section 5.1.7 of RFC 8032), and the Merkle root
   * recomputed from a leaf index, a leaf and the concatenated sibling hashes.
   */
  datatype Crypto = Crypto(
    verify: (seq<byte>, seq<byte>, seq<byte>) -> bool,
    rootFromPaths: (HashAlg, nat, seq<byte>, seq<byte>) -> seq<byte>)

  /** The bytes of an ASCII string. */
  function AsciiBytes(s: string): (b: seq<byte>)
    requires forall i :: 0 <= i < |s| ==> s[i] as int < 256
    ensures |b| == |s|
  {
    seq(|s|, i requires 0 <= i < |s| => s[i] as int)
  }

  /** Prefixed to the delegation bytes before their signature is checked. */
  const CertificateContext: seq<byte> := AsciiBytes("RoughTime v1 delegation signature--\0")

  /** Prefixed to the signed-response bytes before their signature is checked. */
  const SignedResponseContext: seq<byte> := AsciiBytes("RoughTime v1 response signature\0")

  // ---------------------------------------------------------------- failures

  /** The four maps of a response: the top level and the three nested messages. */
  datatype Part = Response | SignedResponse | Certificate | Delegation

  /** Each way the client aborts; in the source each is a panic. */
  datatype Panic =
    | MissingTag(part: Part, tag: Tag)          // indexing a HashMap with an absent tag
    | Undecodable(part: Part)                   // RtMessage::from_bytes(..).unwrap()
    | TooShort(part: Part, tag: Tag)            // read_u32 / read_u64 (..).unwrap()
    | EncodeFailed                              // encode().unwrap()
    | InvalidDeleSignature                      // "Invalid signature on DELE tag"
    | InvalidSrepSignature                      // "Invalid signature on SREP tag"
    | NonceNotInTree                            // "Nonce is not present in the response's merkle tree"
    | MidpointBeforeSpan(midpoint: u64, mint: u64, maxt: u64)
    | MidpointAfterSpan(midpoint: u64, mint: u64, maxt: u64)

  // ---------------------------------------------------------------- request builder

  function Zeros(n: nat): seq<byte>
  {
    seq(n, _ => 0)
  }

  /** The fields of a request: the nonce, then the classic padding tag. */
  function RequestFields(nonce: seq<byte>, padding: seq<byte>): seq<Field>
  {
    [Field(NONC, nonce), Field(PAD_CLASSIC, padding)]
  }

  /** Padding length measured on the first pass, with the padding tag present but empty. */
  function RequestPadding(codec: Codec, nonce: seq<byte>): nat
  {
    codec.paddingLength(RequestFields(nonce, []))
  }

  /**
   * `make_request`: adds NONC and an empty PAD_CLASSIC, measures the padding needed,
   * clears the message, adds NONC and that many zero bytes under PAD_CLASSIC, and
   * encodes. The result is the encoding of the second-pass fields.
   */
  method MakeRequest(codec: Codec, nonce: seq<byte>) returns (r: Result<seq<byte>, Panic>)
    ensures var fields := RequestFields(nonce, Zeros(RequestPadding(codec, nonce)));
            && (r.Success? <==> codec.encode(fields).Some?)
            && (r.Success? ==> codec.encode(fields) == Some(r.value))
            && (r.Failure? ==> r.error == EncodeFailed)
  {
    var msg := new RtMessage();
    var added := msg.AddField(NONC, nonce);
    assert added.Success?;
    added := msg.AddField(PAD_CLASSIC, []);
    assert added.Success?;
    assert msg.fields == RequestFields(nonce, []);

    var paddingNeeded := codec.paddingLength(msg.fields);
    var padding := Zeros(paddingNeeded);

    msg.Clear();
    added := msg.AddField(NONC, nonce);
    assert added.Success?;
    added := msg.AddField(PAD_CLASSIC, padding);
    assert added.Success?;
    assert msg.fields == RequestFields(nonce, padding);

    var encoded := codec.encode(msg.fields);
    if encoded.None? {
      return Failure(EncodeFailed);
    }
    return Success(encoded.value);
  }

  // ---------------------------------------------------------------- response decoder

  /** The state kept for one response; set once by New and only read afterwards. */
  datatype ResponseHandler = ResponseHandler(
    pubKey: Option<seq<byte>>,
    msg: TagMap,
    srep: TagMap,
    cert: TagMap,
    dele: TagMap,
    nonce: seq<byte>,
    version: Version)

  /** `m[&tag]`: the value under tag, or a panic naming the map and the tag. */
  function Get(m: TagMap, part: Part, tag: Tag): (r: Result<seq<byte>, Panic>)
    ensures r.Success? <==> tag in m
    ensures r.Success? ==> r.value == m[tag]
    ensures r.Failure? ==> r.error == MissingTag(part, tag)
  {
    if tag in m then Success(m[tag]) else Failure(MissingTag(part, tag))
  }

  /** `RtMessage::from_bytes(bytes).unwrap().into_hash_map()`. */
  function DecodeNested(codec: Codec, bytes: seq<byte>, part: Part): (r: Result<TagMap, Panic>)
    ensures r.Success? <==> codec.decode(bytes).Some?
    ensures r.Success? ==> r.value == codec.decode(bytes).value
    ensures r.Failure? ==> r.error == Undecodable(part)
  {
    match codec.decode(bytes)
    case Some(m) => Success(m)
    case None => Failure(Undecodable(part))
  }

  /** The three nested messages are present and decodable, each inside the one before. */
  ghost predicate WellNested(codec: Codec, msg: TagMap)
  {
    && SREP in msg && codec.decode(msg[SREP]).Some?
    && CERT in msg && codec.decode(msg[CERT]).Some?
    && DELE in codec.decode(msg[CERT]).value
    && codec.decode(codec.decode(msg[CERT]).value[DELE]).Some?
  }

  /** What a constructed handler satisfies: each nested map is the decoding of its bytes. */
  ghost predicate Decoded(codec: Codec, h: ResponseHandler)
  {
    && SREP in h.msg && codec.decode(h.msg[SREP]) == Some(h.srep)
    && CERT in h.msg && codec.decode(h.msg[CERT]) == Some(h.cert)
    && DELE in h.cert && codec.decode(h.cert[DELE]) == Some(h.dele)
  }

  /**
   * `ResponseHandler::new`: decodes SREP and CERT from the top level and DELE from
   * inside CERT, in that order; the first missing tag or undecodable value aborts.
   */
  function New(codec: Codec, version: Version, pubKey: Option<seq<byte>>, response: TagMap, nonce: seq<byte>)
    : (r: Result<ResponseHandler, Panic>)
    ensures r.Success? <==> WellNested(codec, response)
    ensures r.Success? ==> && Decoded(codec, r.value) && r.value.msg == response
                           && r.value.pubKey == pubKey && r.value.nonce == nonce && r.value.version == version
  {
    var srepBytes :- Get(response, Response, SREP);
    var srep :- DecodeNested(codec, srepBytes, SignedResponse);
    var certBytes :- Get(response, Response, CERT);
    var cert :- DecodeNested(codec, certBytes, Certificate);
    var deleBytes :- Get(cert, Certificate, DELE);
    var dele :- DecodeNested(codec, deleBytes, Delegation);
    Success(ResponseHandler(pubKey, response, srep, cert, dele, nonce, version))
  }

  // ---------------------------------------------------------------- verification pipeline

  /** The outcome of a verification: the server's midpoint and radius, and whether they were attested. */
  datatype ParsedResponse = ParsedResponse(verified: bool, midpoint: u64, radius: u32)

  /** `m[&tag].as_slice().read_u64::<LittleEndian>().unwrap()`. */
  function GetU64(m: TagMap, part: Part, tag: Tag): (r: Result<u64, Panic>)
    ensures r.Success? <==> tag in m && |m[tag]| >= 8
    ensures r.Success? ==> LeBytes(r.value, 8) == m[tag][..8]
    ensures tag !in m ==> r == Failure(MissingTag(part, tag))
    ensures tag in m && |m[tag]| < 8 ==> r == Failure(TooShort(part, tag))
  {
    var bytes :- Get(m, part, tag);
    match ReadU64(bytes)
    case Some(v) => Success(v)
    case None => Failure(TooShort(part, tag))
  }

  /** `m[&tag].as_slice().read_u32::<LittleEndian>().unwrap()`. */
  function GetU32(m: TagMap, part: Part, tag: Tag): (r: Result<u32, Panic>)
    ensures r.Success? <==> tag in m && |m[tag]| >= 4
    ensures r.Success? ==> LeBytes(r.value, 4) == m[tag][..4]
    ensures tag !in m ==> r == Failure(MissingTag(part, tag))
    ensures tag in m && |m[tag]| < 4 ==> r == Failure(TooShort(part, tag))
  {
    var bytes :- Get(m, part, tag);
    match ReadU32(bytes)
    case Some(v) => Success(v)
    case None => Failure(TooShort(part, tag))
  }

  /**
   * `roughenough::sign::Verifier`: created for a public key, fed data with `update`,
   * and asked at the end whether a signature covers everything fed.
   */
  class Verifier {
    const publicKey: seq<byte>
    var buffer: seq<byte>

    constructor (publicKey: seq<byte>)
      ensures this.publicKey == publicKey && buffer == []
    {
      this.publicKey := publicKey;
      buffer := [];
    }

    method Update(data: seq<byte>)
      modifies this
      ensures buffer == old(buffer) + data
    {
      buffer := buffer + data;
    }

    /** `verify`: the Ed25519 verdict on sig over exactly the bytes fed so far, under the verifier's key. */
    function Verify(crypto: Crypto, sig: seq<byte>): (ok: bool)
      reads this
      ensures ok <==> crypto.verify(publicKey, sig, buffer)
    {
      crypto.verify(publicKey, sig, buffer)
    }
  }

  /** `validate_sig`: a fresh verifier fed the data once accepts exactly the valid signatures over it. */
  method ValidateSig(crypto: Crypto, publicKey: seq<byte>, sig: seq<byte>, data: seq<byte>) returns (ok: bool)
    ensures ok == crypto.verify(publicKey, sig, data)
  {
    var verifier := new Verifier(publicKey);
    verifier.Update(data);
    assert verifier.buffer == data;
    ok := verifier.Verify(crypto, sig);
  }

  /**
   * `validate_dele`: the trust anchor signs CERTIFICATE_CONTEXT followed by the DELE
   * bytes; the signature is CERT's SIG. Only reached when a public key was given.
   */
  function ValidateDele(crypto: Crypto, h: ResponseHandler): (r: Result<(), Panic>)
    requires h.pubKey.Some?
    ensures r.Success? <==> DELE in h.cert && SIG in h.cert
                            && crypto.verify(h.pubKey.value, h.cert[SIG], CertificateContext + h.cert[DELE])
    ensures DELE !in h.cert ==> r == Failure(MissingTag(Certificate, DELE))
    ensures DELE in h.cert && SIG !in h.cert ==> r == Failure(MissingTag(Certificate, SIG))
    ensures DELE in h.cert && SIG in h.cert
            && !crypto.verify(h.pubKey.value, h.cert[SIG], CertificateContext + h.cert[DELE]) ==>
              r == Failure(InvalidDeleSignature)
  {
    var dele :- Get(h.cert, Certificate, DELE);
    var sig :- Get(h.cert, Certificate, SIG);
    if crypto.verify(h.pubKey.value, sig, CertificateContext + dele) then Success(())
    else Failure(InvalidDeleSignature)
  }

  /**
   * `validate_srep`: the delegated key DELE's PUBK signs SIGNED_RESPONSE_CONTEXT followed
   * by the SREP bytes; the signature is the top level's SIG.
   */
  function ValidateSrep(crypto: Crypto, h: ResponseHandler): (r: Result<(), Panic>)
    ensures r.Success? <==> SREP in h.msg && PUBK in h.dele && SIG in h.msg
                            && crypto.verify(h.dele[PUBK], h.msg[SIG], SignedResponseContext + h.msg[SREP])
    ensures SREP !in h.msg ==> r == Failure(MissingTag(Response, SREP))
    ensures SREP in h.msg && PUBK !in h.dele ==> r == Failure(MissingTag(Delegation, PUBK))
    ensures SREP in h.msg && PUBK in h.dele && SIG !in h.msg ==> r == Failure(MissingTag(Response, SIG))
    ensures SREP in h.msg && PUBK in h.dele && SIG in h.msg
            && !crypto.verify(h.dele[PUBK], h.msg[SIG], SignedResponseContext + h.msg[SREP]) ==>
              r == Failure(InvalidSrepSignature)
  {
    var srep :- Get(h.msg, Response, SREP);
    var pubk :- Get(h.dele, Delegation, PUBK);
    var sig :- Get(h.msg, Response, SIG);
    if crypto.verify(pubk, sig, SignedResponseContext + srep) then Success(())
    else Failure(InvalidSrepSignature)
  }

  /**
   * `validate_merkle`: decodes SREP again, reads the leaf index from INDX, recomputes the
   * root from the nonce and PATH with the version's hash, and compares it with SREP's ROOT.
   */
  function ValidateMerkle(codec: Codec, crypto: Crypto, h: ResponseHandler): (r: Result<(), Panic>)
    ensures r.Success? ==> && SREP in h.msg && codec.decode(h.msg[SREP]).Some? && ROOT in codec.decode(h.msg[SREP]).value
                           && INDX in h.msg && |h.msg[INDX]| >= 4 && PATH in h.msg
                           && exists index: u32 :: LeBytes(index, 4) == h.msg[INDX][..4]
                                && crypto.rootFromPaths(MerkleHash(h.version), index, h.nonce, h.msg[PATH])
                                   == codec.decode(h.msg[SREP]).value[ROOT]
    ensures SREP !in h.msg ==> r == Failure(MissingTag(Response, SREP))
    ensures SREP in h.msg && codec.decode(h.msg[SREP]).None? ==> r == Failure(Undecodable(SignedResponse))
    ensures SREP in h.msg && codec.decode(h.msg[SREP]).Some? ==>
              var srep := codec.decode(h.msg[SREP]).value;
              && (INDX !in h.msg ==> r == Failure(MissingTag(Response, INDX)))
              && (INDX in h.msg && |h.msg[INDX]| < 4 ==> r == Failure(TooShort(Response, INDX)))
              && (INDX in h.msg && |h.msg[INDX]| >= 4 && PATH !in h.msg ==> r == Failure(MissingTag(Response, PATH)))
              && (INDX in h.msg && |h.msg[INDX]| >= 4 && PATH in h.msg && ROOT !in srep ==>
                    r == Failure(MissingTag(SignedResponse, ROOT)))
              && (INDX in h.msg && |h.msg[INDX]| >= 4 && PATH in h.msg && ROOT in srep ==>
                    (r == Success(()) <==>
                       crypto.rootFromPaths(MerkleHash(h.version), ReadU32(h.msg[INDX]).value, h.nonce, h.msg[PATH]) == srep[ROOT])
                    && (r.Failure? ==> r.error == NonceNotInTree))
  {
    var srepBytes :- Get(h.msg, Response, SREP);
    var srep :- DecodeNested(codec, srepBytes, SignedResponse);
    var index :- GetU32(h.msg, Response, INDX);
    var paths :- Get(h.msg, Response, PATH);
    var hash := crypto.rootFromPaths(MerkleHash(h.version), index, h.nonce, paths);
    var root :- Get(srep, SignedResponse, ROOT);
    if hash == root then Success(()) else Failure(NonceNotInTree)
  }

  /** `validate_midpoint`: the midpoint lies in DELE's inclusive window [MINT, MAXT]. */
  function ValidateMidpoint(h: ResponseHandler, midpoint: u64): (r: Result<(), Panic>)
    ensures r.Success? <==> && MINT in h.dele && ReadU64(h.dele[MINT]).Some?
                            && MAXT in h.dele && ReadU64(h.dele[MAXT]).Some?
                            && ReadU64(h.dele[MINT]).value <= midpoint <= ReadU64(h.dele[MAXT]).value
    ensures MINT !in h.dele ==> r == Failure(MissingTag(Delegation, MINT))
    ensures MINT in h.dele && ReadU64(h.dele[MINT]).None? ==> r == Failure(TooShort(Delegation, MINT))
    ensures MINT in h.dele && ReadU64(h.dele[MINT]).Some? && MAXT !in h.dele ==> r == Failure(MissingTag(Delegation, MAXT))
    ensures MINT in h.dele && ReadU64(h.dele[MINT]).Some? && MAXT in h.dele && ReadU64(h.dele[MAXT]).None? ==>
              r == Failure(TooShort(Delegation, MAXT))
    ensures MINT in h.dele && ReadU64(h.dele[MINT]).Some? && MAXT in h.dele && ReadU64(h.dele[MAXT]).Some? ==>
              var mint, maxt := ReadU64(h.dele[MINT]).value, ReadU64(h.dele[MAXT]).value;
              && (midpoint < mint ==> r == Failure(MidpointBeforeSpan(midpoint, mint, maxt)))
              && (mint <= midpoint && maxt < midpoint ==> r == Failure(MidpointAfterSpan(midpoint, mint, maxt)))
  {
    var mint :- GetU64(h.dele, Delegation, MINT);
    var maxt :- GetU64(h.dele, Delegation, MAXT);
    if midpoint < mint then Failure(MidpointBeforeSpan(midpoint, mint, maxt))
    else if midpoint > maxt then Failure(MidpointAfterSpan(midpoint, mint, maxt))
    else Success(())
  }

  /**
   * `extract_time`: reads MIDP and RADI from SREP; without a public key returns them
   * unverified; with one runs the four checks in order and returns them verified.
   */
  function ExtractTime(codec: Codec, crypto: Crypto, h: ResponseHandler): (r: Result<ParsedResponse, Panic>)
    ensures r.Success? ==> r.value.verified == h.pubKey.Some?
    ensures r.Success? ==> && MIDP in h.srep && |h.srep[MIDP]| >= 8 && LeBytes(r.value.midpoint, 8) == h.srep[MIDP][..8]
                           && RADI in h.srep && |h.srep[RADI]| >= 4 && LeBytes(r.value.radius, 4) == h.srep[RADI][..4]
    ensures h.pubKey.None? ==> (r.Success? <==> MIDP in h.srep && |h.srep[MIDP]| >= 8 && RADI in h.srep && |h.srep[RADI]| >= 4)
    ensures GetU64(h.srep, SignedResponse, MIDP).Failure? ==> r == Failure(GetU64(h.srep, SignedResponse, MIDP).error)
    ensures GetU64(h.srep, SignedResponse, MIDP).Success? && GetU32(h.srep, SignedResponse, RADI).Failure? ==>
              r == Failure(GetU32(h.srep, SignedResponse, RADI).error)
  {
    var midpoint :- GetU64(h.srep, SignedResponse, MIDP);
    var radius :- GetU32(h.srep, SignedResponse, RADI);
    if h.pubKey.None? then
      Success(ParsedResponse(false, midpoint, radius))
    else
      var _ :- ValidateDele(crypto, h);
      var _ :- ValidateSrep(crypto, h);
      var _ :- ValidateMerkle(codec, crypto, h);
      var _ :- ValidateMidpoint(h, midpoint);
      Success(ParsedResponse(true, midpoint, radius))
  }
}
