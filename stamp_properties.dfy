/**
 * What the request builder and the verification pipeline guarantee, stated against
 * independent descriptions of a well-formed request and an authentic response.
 */
module StampProperties {
  import opened Wrappers
  import opened Bytes
  import opened Message
  import opened Stamp

  // ---------------------------------------------------------------- request

  /** The request's tags go in increasing order, so neither add_field can fail. */
  lemma RequestFieldsOrdered(nonce: seq<byte>, padding: seq<byte>)
    ensures StrictlyIncreasing(RequestFields(nonce, padding))
  {
  }

  /**
   * Decoding a request gives back exactly two entries: NONC holding the nonce byte for
   * byte, and PAD_CLASSIC holding zero bytes, as many as the first pass measured.
   */
  lemma RequestDecodes(codec: Codec, nonce: seq<byte>, request: seq<byte>)
    requires DecodeInvertsEncode(codec)
    requires codec.encode(RequestFields(nonce, Zeros(RequestPadding(codec, nonce)))) == Some(request)
    ensures codec.decode(request).Some?
    ensures var m := codec.decode(request).value;
            && m.Keys == {NONC, PAD_CLASSIC}
            && m[NONC] == nonce
            && |m[PAD_CLASSIC]| == codec.paddingLength([Field(NONC, nonce), Field(PAD_CLASSIC, [])])
            && forall i :: 0 <= i < |m[PAD_CLASSIC]| ==> m[PAD_CLASSIC][i] == 0
  {
    var fields := RequestFields(nonce, Zeros(RequestPadding(codec, nonce)));
    RequestFieldsOrdered(nonce, Zeros(RequestPadding(codec, nonce)));
    var first := [Field(NONC, nonce)];
    assert fields[..1] == first && first[..0] == [];
    assert AsMap(first) == map[NONC := nonce];
    assert AsMap(fields) == map[NONC := nonce, PAD_CLASSIC := Zeros(RequestPadding(codec, nonce))];
  }

  lemma RequestSize(nonce: seq<byte>, padding: seq<byte>)
    ensures EncodedSize(RequestFields(nonce, padding)) == 16 + |nonce| + |padding|
  {
    var fields := RequestFields(nonce, padding);
    var first := [Field(NONC, nonce)];
    assert fields[..1] == first && first[..0] == [];
    assert ValueBytes(first) == |nonce|;
    assert ValueBytes(fields) == |nonce| + |padding|;
  }

  /**
   * Because the first pass already carries the (empty) padding tag, its header overhead is
   * measured, and the final request is exactly MinRequestSize bytes whenever the nonce
   * leaves room for padding, and never smaller than MinRequestSize.
   */
  lemma RequestFillsFrame(codec: Codec, nonce: seq<byte>, request: seq<byte>)
    requires Frames(codec)
    requires codec.encode(RequestFields(nonce, Zeros(RequestPadding(codec, nonce)))) == Some(request)
    ensures |request| >= MinRequestSize
    ensures 16 + |nonce| <= MinRequestSize ==> |request| == MinRequestSize
    ensures 16 + |nonce| > MinRequestSize ==> |request| == 16 + |nonce|
  {
    RequestSize(nonce, []);
    var p := RequestPadding(codec, nonce);
    assert |RequestFields(nonce, [])| == 2;
    RequestSize(nonce, Zeros(p));
  }

  // ---------------------------------------------------------------- domain separation

  /** A delegation payload and a response payload can never be the same bytes. */
  lemma DomainSeparated(dele: seq<byte>, srep: seq<byte>)
    ensures CertificateContext + dele != SignedResponseContext + srep
  {
    assert (CertificateContext + dele)[13] == 'd' as int;
    assert (SignedResponseContext + srep)[13] == 'r' as int;
  }

  // ---------------------------------------------------------------- response decoder

  /** Each way ResponseHandler::new fails, with the failure it reports. */
  lemma NewFailures(codec: Codec, version: Version, pubKey: Option<seq<byte>>, msg: TagMap, nonce: seq<byte>)
    ensures SREP !in msg ==>
              New(codec, version, pubKey, msg, nonce) == Failure(MissingTag(Response, SREP))
    ensures SREP in msg && codec.decode(msg[SREP]).None? ==>
              New(codec, version, pubKey, msg, nonce) == Failure(Undecodable(SignedResponse))
    ensures SREP in msg && codec.decode(msg[SREP]).Some? && CERT !in msg ==>
              New(codec, version, pubKey, msg, nonce) == Failure(MissingTag(Response, CERT))
    ensures SREP in msg && codec.decode(msg[SREP]).Some? && CERT in msg && codec.decode(msg[CERT]).None? ==>
              New(codec, version, pubKey, msg, nonce) == Failure(Undecodable(Certificate))
    ensures SREP in msg && codec.decode(msg[SREP]).Some? && CERT in msg && codec.decode(msg[CERT]).Some?
            && DELE !in codec.decode(msg[CERT]).value ==>
              New(codec, version, pubKey, msg, nonce) == Failure(MissingTag(Certificate, DELE))
    ensures SREP in msg && codec.decode(msg[SREP]).Some? && CERT in msg && codec.decode(msg[CERT]).Some?
            && DELE in codec.decode(msg[CERT]).value && codec.decode(codec.decode(msg[CERT]).value[DELE]).None? ==>
              New(codec, version, pubKey, msg, nonce) == Failure(Undecodable(Delegation))
  {
  }

  // ---------------------------------------------------------------- verification pipeline

  /** The little-endian integer in the first width bytes of a field. */
  ghost function FieldValue(m: TagMap, tag: Tag, width: nat): (v: nat)
    requires tag in m && |m[tag]| >= width
    ensures v < Pow256(width)
    ensures width == 4 ==> v < 0x1_0000_0000
    ensures width == 8 ==> v < 0x1_0000_0000_0000_0000
  {
    Pow256Widths();
    LeValueBound(m[tag][..width]);
    LeValue(m[tag][..width])
  }

  /** SREP carries a midpoint of at least 8 bytes and a radius of at least 4. */
  ghost predicate TimeReadable(h: ResponseHandler)
  {
    MIDP in h.srep && |h.srep[MIDP]| >= 8 && RADI in h.srep && |h.srep[RADI]| >= 4
  }

  /** The trust anchor signed the delegation, prefixed by its context string. */
  ghost predicate DeleSigned(crypto: Crypto, h: ResponseHandler)
    requires h.pubKey.Some?
  {
    DELE in h.cert && SIG in h.cert
    && crypto.verify(h.pubKey.value, h.cert[SIG], CertificateContext + h.cert[DELE])
  }

  /** The delegated key signed the response, prefixed by its context string. */
  ghost predicate SrepSigned(crypto: Crypto, h: ResponseHandler)
  {
    SREP in h.msg && PUBK in h.dele && SIG in h.msg
    && crypto.verify(h.dele[PUBK], h.msg[SIG], SignedResponseContext + h.msg[SREP])
  }

  /** Everything the Merkle check reads is there. */
  ghost predicate MerkleReadable(codec: Codec, h: ResponseHandler)
  {
    SREP in h.msg && codec.decode(h.msg[SREP]).Some? && ROOT in codec.decode(h.msg[SREP]).value
    && INDX in h.msg && |h.msg[INDX]| >= 4 && PATH in h.msg
  }

  /** The root recomputed from the nonce, the leaf index and the path. */
  ghost function ComputedRoot(crypto: Crypto, h: ResponseHandler): seq<byte>
    requires INDX in h.msg && |h.msg[INDX]| >= 4 && PATH in h.msg
  {
    crypto.rootFromPaths(MerkleHash(h.version), FieldValue(h.msg, INDX, 4), h.nonce, h.msg[PATH])
  }

  /** The nonce is proved to be a leaf of the tree whose root the server signed. */
  ghost predicate NonceIncluded(codec: Codec, crypto: Crypto, h: ResponseHandler)
  {
    MerkleReadable(codec, h) && ComputedRoot(crypto, h) == codec.decode(h.msg[SREP]).value[ROOT]
  }

  ghost predicate WindowReadable(h: ResponseHandler)
  {
    MINT in h.dele && |h.dele[MINT]| >= 8 && MAXT in h.dele && |h.dele[MAXT]| >= 8
  }

  /** The midpoint lies in the delegation's inclusive validity window. */
  ghost predicate InWindow(h: ResponseHandler, midpoint: nat)
  {
    WindowReadable(h) && FieldValue(h.dele, MINT, 8) <= midpoint <= FieldValue(h.dele, MAXT, 8)
  }

  /** Everything an authentic response for this nonce satisfies. */
  ghost predicate Authentic(codec: Codec, crypto: Crypto, h: ResponseHandler)
    requires h.pubKey.Some?
  {
    && TimeReadable(h)
    && DeleSigned(crypto, h)
    && SrepSigned(crypto, h)
    && NonceIncluded(codec, crypto, h)
    && InWindow(h, FieldValue(h.srep, MIDP, 8))
  }

  /**
   * With a key, extract_time succeeds exactly when all four checks pass, and then reports
   * the SREP midpoint and radius as verified.
   */
  lemma KeyedVerifiedIff(codec: Codec, crypto: Crypto, h: ResponseHandler)
    requires h.pubKey.Some?
    ensures ExtractTime(codec, crypto, h).Success? <==> Authentic(codec, crypto, h)
    ensures Authentic(codec, crypto, h) ==>
              ExtractTime(codec, crypto, h)
              == Success(ParsedResponse(true, FieldValue(h.srep, MIDP, 8), FieldValue(h.srep, RADI, 4)))
  {
  }

  /**
   * The checks run in the order delegation, response, Merkle, midpoint: the first that
   * fails decides the failure, whatever the later ones would say.
   */
  lemma FirstFailingCheck(codec: Codec, crypto: Crypto, h: ResponseHandler)
    requires h.pubKey.Some? && TimeReadable(h)
    ensures ValidateDele(crypto, h).Failure? ==> ExtractTime(codec, crypto, h) == Failure(ValidateDele(crypto, h).error)
    ensures ValidateDele(crypto, h).Success? && ValidateSrep(crypto, h).Failure? ==>
              ExtractTime(codec, crypto, h) == Failure(ValidateSrep(crypto, h).error)
    ensures ValidateDele(crypto, h).Success? && ValidateSrep(crypto, h).Success?
            && ValidateMerkle(codec, crypto, h).Failure? ==>
              ExtractTime(codec, crypto, h) == Failure(ValidateMerkle(codec, crypto, h).error)
    ensures ValidateDele(crypto, h).Success? && ValidateSrep(crypto, h).Success?
            && ValidateMerkle(codec, crypto, h).Success? && ValidateMidpoint(h, FieldValue(h.srep, MIDP, 8)).Failure? ==>
              ExtractTime(codec, crypto, h) == Failure(ValidateMidpoint(h, FieldValue(h.srep, MIDP, 8)).error)
    ensures DELE in h.cert && SIG in h.cert && !DeleSigned(crypto, h) ==>
              ExtractTime(codec, crypto, h) == Failure(InvalidDeleSignature)
    ensures DeleSigned(crypto, h) && SREP in h.msg && PUBK in h.dele && SIG in h.msg && !SrepSigned(crypto, h) ==>
              ExtractTime(codec, crypto, h) == Failure(InvalidSrepSignature)
    ensures DeleSigned(crypto, h) && SrepSigned(crypto, h) && MerkleReadable(codec, h) && !NonceIncluded(codec, crypto, h) ==>
              ExtractTime(codec, crypto, h) == Failure(NonceNotInTree)
    ensures DeleSigned(crypto, h) && SrepSigned(crypto, h) && NonceIncluded(codec, crypto, h) && WindowReadable(h) ==>
              var midpoint, mint, maxt := FieldValue(h.srep, MIDP, 8), FieldValue(h.dele, MINT, 8), FieldValue(h.dele, MAXT, 8);
              && (midpoint < mint ==> ExtractTime(codec, crypto, h) == Failure(MidpointBeforeSpan(midpoint, mint, maxt)))
              && (mint <= midpoint && maxt < midpoint ==>
                    ExtractTime(codec, crypto, h) == Failure(MidpointAfterSpan(midpoint, mint, maxt)))
  {
  }

  /**
   * Observation mode: dropping the key never changes the reported time. When the keyed
   * call succeeds, the keyless call returns the same midpoint and radius, unverified.
   */
  lemma ObservationSameTime(codec: Codec, crypto: Crypto, h: ResponseHandler)
    requires h.pubKey.Some? && ExtractTime(codec, crypto, h).Success?
    ensures ExtractTime(codec, crypto, h.(pubKey := None))
            == Success(ExtractTime(codec, crypto, h).value.(verified := false))
  {
  }

  /** Without a key no check runs: only SREP matters, not the signatures, tree or delegation. */
  lemma NoKeyNoChecks(codec: Codec, crypto: Crypto, h: ResponseHandler, codec': Codec, crypto': Crypto, h': ResponseHandler)
    requires h.pubKey.None? && h'.pubKey.None? && h'.srep == h.srep
    ensures ExtractTime(codec, crypto, h) == ExtractTime(codec', crypto', h')
  {
  }

  /**
   * On a handler New built, extract_time can only fail for reasons New did not already
   * rule out, and the Merkle check's fresh decoding of SREP is the handler's own SREP map.
   */
  lemma DecodedHandlerFailures(codec: Codec, crypto: Crypto, h: ResponseHandler)
    requires Decoded(codec, h)
    ensures var r := ExtractTime(codec, crypto, h);
            r.Failure? ==> && r.error != MissingTag(Response, SREP) && r.error != MissingTag(Response, CERT)
                           && r.error != MissingTag(Certificate, DELE) && !r.error.Undecodable?
    ensures h.pubKey.Some? ==> (NonceIncluded(codec, crypto, h) <==>
              INDX in h.msg && |h.msg[INDX]| >= 4 && PATH in h.msg && ROOT in h.srep && ComputedRoot(crypto, h) == h.srep[ROOT])
  {
  }
}
