/**
 * Roughtime tag-value messages as seen by the client: tags, fields, decoded tag maps,
 * the in-place message builder, and the wire codec of the roughenough library, which
 * this model treats as a collaborator given by its functions.
 */
module Message {
  import opened Wrappers
  import opened Bytes

  /**
   * The tags the client reads or writes, declared in ascending order of their
   * little-endian u32 value, which is the order the wire format demands.
   */
  datatype Tag =
    | SIG | NONC | DELE | PATH | RADI | PUBK | MIDP | SREP
    | MINT | ROOT | CERT | MAXT | INDX | PAD_CLASSIC
  {
    /** The four bytes of the tag on the wire. */
    function Ascii(): (b: seq<byte>)
      ensures |b| == 4
    {
      match this
      case SIG => [0x53, 0x49, 0x47, 0x00]
      case NONC => [0x4e, 0x4f, 0x4e, 0x43]
      case DELE => [0x44, 0x45, 0x4c, 0x45]
      case PATH => [0x50, 0x41, 0x54, 0x48]
      case RADI => [0x52, 0x41, 0x44, 0x49]
      case PUBK => [0x50, 0x55, 0x42, 0x4b]
      case MIDP => [0x4d, 0x49, 0x44, 0x50]
      case SREP => [0x53, 0x52, 0x45, 0x50]
      case MINT => [0x4d, 0x49, 0x4e, 0x54]
      case ROOT => [0x52, 0x4f, 0x4f, 0x54]
      case CERT => [0x43, 0x45, 0x52, 0x54]
      case MAXT => [0x4d, 0x41, 0x58, 0x54]
      case INDX => [0x49, 0x4e, 0x44, 0x58]
      case PAD_CLASSIC => [0x50, 0x41, 0x44, 0xff]
    }

    /** The numeric value that orders tags: the tag's bytes read as a little-endian u32. */
    function Code(): nat
    {
      LeValue(Ascii())
    }
  }

  /** A decoded message: each tag present maps to its value. */
  type TagMap = map<Tag, seq<byte>>

  /** One tag-value entry of a message under construction. */
  datatype Field = Field(tag: Tag, value: seq<byte>)

  /** Tags strictly increase along the fields, so in particular no tag repeats. */
  ghost predicate StrictlyIncreasing(fields: seq<Field>)
  {
    forall i, j :: 0 <= i < j < |fields| ==> fields[i].tag.Code() < fields[j].tag.Code()
  }

  /** The map a decoder yields for a message with these fields. */
  function AsMap(fields: seq<Field>): TagMap
  {
    if |fields| == 0 then map[]
    else AsMap(fields[..|fields| - 1])[fields[|fields| - 1].tag := fields[|fields| - 1].value]
  }

  /** Total length of the values of the fields. */
  function ValueBytes(fields: seq<Field>): nat
  {
    if |fields| == 0 then 0 else ValueBytes(fields[..|fields| - 1]) + |fields[|fields| - 1].value|
  }

  /**
   * The wire-format operations of the roughenough library that the client calls:
   * `RtMessage::encode`, `RtMessage::from_bytes(..).into_hash_map()` and
   * `RtMessage::calculate_padding_length`.
   */
  datatype Codec = Codec(
    encode: seq<Field> -> Option<seq<byte>>,
    decode: seq<byte> -> Option<TagMap>,
    paddingLength: seq<Field> -> nat)

  /** The minimum size of a request frame, in bytes (the anti-amplification floor). */
  const MinRequestSize: nat := 1024

  /**
   * Size of an encoded message: a u32 tag count, a u32 offset for each field after the
   * first, a u32 tag for each field, then the values.
   */
  function EncodedSize(fields: seq<Field>): nat
  {
    if |fields| == 0 then 4 else 8 * |fields| + ValueBytes(fields)
  }

  /**
   * The framing the client relies on: encoded messages have EncodedSize bytes, and the
   * padding length computed for a message with at least two fields is what brings its
   * encoded size up to MinRequestSize (zero when it is already there).
   */
  ghost predicate Frames(codec: Codec)
  {
    && (forall fields :: codec.encode(fields).Some? ==> |codec.encode(fields).value| == EncodedSize(fields))
    && (forall fields :: |fields| >= 2 ==>
          codec.paddingLength(fields)
          == if EncodedSize(fields) >= MinRequestSize then 0 else MinRequestSize - EncodedSize(fields))
  }

  /** Decoding the encoding of a well-ordered message gives back its fields as a map. */
  ghost predicate DecodeInvertsEncode(codec: Codec)
  {
    forall fields :: StrictlyIncreasing(fields) && codec.encode(fields).Some? ==>
      codec.decode(codec.encode(fields).value) == Some(AsMap(fields))
  }

  datatype WireError = TagNotStrictlyIncreasing(tag: Tag)

  /** A message being built field by field (roughenough's `RtMessage`). */
  class RtMessage {
    var fields: seq<Field>

    ghost predicate Valid()
      reads this
    {
      StrictlyIncreasing(fields)
    }

    /** `RtMessage::with_capacity`: an empty message. */
    constructor ()
      ensures Valid() && fields == []
    {
      fields := [];
    }

    /** `add_field`: appends a field, refusing a tag not above the last one. */
    method AddField(tag: Tag, value: seq<byte>) returns (r: Result<(), WireError>)
      requires Valid()
      modifies this
      ensures Valid()
      ensures r.Success? <==> old(fields) == [] || old(fields)[|old(fields)| - 1].tag.Code() < tag.Code()
      ensures r.Failure? ==> r.error == TagNotStrictlyIncreasing(tag) && fields == old(fields)
      ensures r.Success? ==> fields == old(fields) + [Field(tag, value)]
    {
      if fields != [] && tag.Code() <= fields[|fields| - 1].tag.Code() {
        return Failure(TagNotStrictlyIncreasing(tag));
      }
      fields := fields + [Field(tag, value)];
      return Success(());
    }

    /** `clear`: removes every field. */
    method Clear()
      modifies this
      ensures Valid() && fields == []
    {
      fields := [];
    }
  }
}
