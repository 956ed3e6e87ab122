/**
 * The parts of roughstamp's command-line client that decide what is verified: turning
 * a 32-byte digest into the 64-byte nonce, checking a stamp with `verify_timestamp`,
 * and splitting the midpoint into seconds and nanoseconds.
 */
module Client {
  import opened Wrappers
  import opened Bytes
  import opened Message
  import opened Stamp

  /** The hex and base64 text decoders of the `data_encoding` crate, as partial functions. */
  datatype TextCodecs = TextCodecs(
    hex: string -> Option<seq<byte>>,
    base64: string -> Option<seq<byte>>)

  /** How the client stops: a panic inside the stamp core, one of its own panics, or a returned error. */
  datatype ClientError =
    | CorePanic(panic: Panic)             // a panic raised inside the stamp module
    | ResponseUndecodable                 // RtMessage::from_bytes(raw).unwrap()
    | PublicKeyUnparseable                // expect("Error parsing public key!")
    | DigestNot32Bytes                    // expect("digest not 32 bytes long")
    | InvalidHex                          // the hex decoder's error, returned through `?`

  /** The digest followed by its bytes in reverse order. */
  function Expanded(digest: seq<byte>): seq<byte>
  {
    digest + seq(|digest|, i requires 0 <= i < |digest| => digest[|digest| - 1 - i])
  }

  /**
   * `expand_digest`: copies the digest into the first half of a zeroed 64-byte array,
   * then walks the digest forwards while walking the second half backwards.
   */
  method ExpandDigest(digest: seq<byte>) returns (r: seq<byte>)
    requires |digest| == 32
    ensures |r| == 64 && r[..32] == digest
    ensures forall i :: 0 <= i < 32 ==> r[63 - i] == digest[i]
    ensures r == Expanded(digest)
  {
    var a := new byte[64](_ => 0);
    forall i | 0 <= i < 32 {
      a[i] := digest[i];
    }
    var i := 0;
    while i < 32
      invariant 0 <= i <= 32
      invariant a[..32] == digest
      invariant forall k :: 0 <= k < i ==> a[63 - k] == digest[k]
    {
      a[63 - i] := digest[i];
      i := i + 1;
    }
    r := a[..];
    assert r[..32] == digest;
    assert r == Expanded(digest);
  }

  /** The expanded nonce reads the same forwards and backwards. */
  lemma ExpandedPalindrome(digest: seq<byte>, i: nat)
    requires |digest| == 32 && i < 64
    ensures |Expanded(digest)| == 64 && Expanded(digest)[i] == Expanded(digest)[63 - i]
  {
  }

  /** Distinct digests give distinct nonces. */
  lemma ExpandedInjective(d1: seq<byte>, d2: seq<byte>)
    requires |d1| == 32 && |d2| == 32 && Expanded(d1) == Expanded(d2)
    ensures d1 == d2
  {
    assert Expanded(d1)[..32] == d1;
    assert Expanded(d2)[..32] == d2;
  }

  /**
   * `hex_digest_to_digest64`: a hex decoding error is returned; a decoded digest that is
   * not 32 bytes long panics; otherwise the digest is expanded to 64 bytes.
   */
  method HexDigestToDigest64(text: TextCodecs, digest: string) returns (r: Result<seq<byte>, ClientError>)
    ensures text.hex(digest).None? ==> r == Failure(InvalidHex)
    ensures text.hex(digest).Some? && |text.hex(digest).value| != 32 ==> r == Failure(DigestNot32Bytes)
    ensures r.Success? <==> text.hex(digest).Some? && |text.hex(digest).value| == 32
    ensures r.Success? ==> r.value == Expanded(text.hex(digest).value) && |r.value| == 64
  {
    var decoded := text.hex(digest);
    if decoded.None? {
      return Failure(InvalidHex);
    }
    if |decoded.value| != 32 {
      return Failure(DigestNot32Bytes);
    }
    var digest64 := ExpandDigest(decoded.value);
    return Success(digest64);
  }

  /** The operator's key text, decoded as hex or else as base64; a panic when neither decodes. */
  function DecodePublicKey(text: TextCodecs, pubKey: Option<string>): (r: Result<Option<seq<byte>>, ClientError>)
    ensures pubKey.None? ==> r == Success(None)
    ensures pubKey.Some? && text.hex(pubKey.value).Some? ==> r == Success(text.hex(pubKey.value))
    ensures pubKey.Some? && text.hex(pubKey.value).None? && text.base64(pubKey.value).Some? ==>
              r == Success(text.base64(pubKey.value))
    ensures r.Failure? <==> pubKey.Some? && text.hex(pubKey.value).None? && text.base64(pubKey.value).None?
    ensures r.Failure? ==> r.error == PublicKeyUnparseable
  {
    match pubKey
    case None => Success(None)
    case Some(key) =>
      match text.hex(key)
      case Some(bytes) => Success(Some(bytes))
      case None =>
        match text.base64(key)
        case Some(bytes) => Success(Some(bytes))
        case None => Failure(PublicKeyUnparseable)
  }

  /**
   * `verify_timestamp`: decodes the key, decodes the raw response, builds the handler
   * with the classic protocol version and the given digest as nonce, and returns what
   * extract_time returns.
   */
  function VerifyTimestamp(codec: Codec, crypto: Crypto, text: TextCodecs,
                           raw: seq<byte>, pubKey: Option<string>, digest: seq<byte>)
    : (r: Result<ParsedResponse, ClientError>)
    ensures r.Success? ==>
              && DecodePublicKey(text, pubKey).Success?
              && codec.decode(raw).Some?
              && var h := New(codec, Classic, DecodePublicKey(text, pubKey).value, codec.decode(raw).value, digest);
                 h.Success? && h.value.nonce == digest && h.value.version == Classic
                 && ExtractTime(codec, crypto, h.value) == Success(r.value)
    ensures r.Success? ==> (r.value.verified <==> pubKey.Some?)
    ensures DecodePublicKey(text, pubKey).Failure? ==> r == Failure(PublicKeyUnparseable)
    ensures DecodePublicKey(text, pubKey).Success? && codec.decode(raw).None? ==> r == Failure(ResponseUndecodable)
    ensures DecodePublicKey(text, pubKey).Success? && codec.decode(raw).Some? ==>
              var h := New(codec, Classic, DecodePublicKey(text, pubKey).value, codec.decode(raw).value, digest);
              && (h.Failure? ==> r == Failure(CorePanic(h.error)))
              && (h.Success? && ExtractTime(codec, crypto, h.value).Failure? ==>
                    r == Failure(CorePanic(ExtractTime(codec, crypto, h.value).error)))
              && (h.Success? && ExtractTime(codec, crypto, h.value).Success? ==>
                    r == Success(ExtractTime(codec, crypto, h.value).value))
  {
    var key :- DecodePublicKey(text, pubKey);
    match codec.decode(raw)
    case None => Failure(ResponseUndecodable)
    case Some(msg) =>
      match New(codec, Classic, key, msg, digest)
      case Failure(p) => Failure(CorePanic(p))
      case Success(h) =>
        match ExtractTime(codec, crypto, h)
        case Failure(p) => Failure(CorePanic(p))
        case Success(parsed) => Success(parsed)
  }

  /** Seconds and nanoseconds of a midpoint given in microseconds. */
  datatype TimeSplit = TimeSplit(seconds: u64, nsecs: u64)

  /**
   * The split in `main`, in u64 arithmetic: every intermediate fits in a u64, and the
   * results fit the `i64` and `u32` they are cast to for display.
   */
  function SplitMidpoint(midpoint: u64): (r: TimeSplit)
    ensures r.nsecs < 1_000_000_000 && r.nsecs % 1000 == 0
    ensures r.seconds * 1_000_000 + r.nsecs / 1000 == midpoint
    ensures r.seconds < 0x8000_0000_0000_0000 && r.nsecs < 0x1_0000_0000
  {
    var seconds: u64 := midpoint / 1_000_000;
    var whole: u64 := seconds * 1_000_000;
    var micros: u64 := midpoint - whole;
    var nsecs: u64 := micros * 1000;
    TimeSplit(seconds, nsecs)
  }
}
