/** The surface of the external `der` crate that the decoder relies on.
    The crate itself (identifier and length octets, the content rules of each
    universal type, section 8 of ITU-T X.690) is not part of this model: its
    entry points are carried as function values in a `Library`, and `Sound`
    states the one fact about them the decoder needs, namely that a decoded
    value's content is strictly shorter than the bytes it was read from. */
module Der {
  import opened Wrappers

  newtype byte = x: int | 0 <= x < 0x100

  /** Rust's `u128`, the width `Any::decode_as::<u128>` decodes into. */
  newtype u128 = x: int | 0 <= x < 0x1_0000_0000_0000_0000_0000_0000_0000_0000

  /** `der::Tag`. The universal tags the crate names and the decoder handles
      have a constructor each; the remaining universal ones (Real, Enumerated,
      NumericString, TeletexString, VideotexString, GeneralizedTime,
      VisibleString, BmpString) are `OtherUniversal`, identified by their
      number from clause 8.6 of ITU-T X.680. */
  datatype Tag =
    | Boolean
    | Integer
    | BitString
    | OctetString
    | Null
    | ObjectIdentifier
    | Utf8String
    | Sequence
    | Set
    | PrintableString
    | Ia5String
    | UtcTime
    | Application(constructed: bool, number: nat)
    | ContextSpecific(constructed: bool, number: nat)
    | Private(constructed: bool, number: nat)
    | OtherUniversal(universalNumber: nat)
  {
    /** `Tag::is_constructed`: SEQUENCE and SET always, the three non-universal
        classes when their constructed bit is set, no other universal type. */
    predicate IsConstructed() {
      match this
      case Sequence => true
      case Set => true
      case Application(c, _) => c
      case ContextSpecific(c, _) => c
      case Private(c, _) => c
      case _ => false
    }
  }

  /** `der::asn1::Any`: a tag and the content octets that followed its header. */
  datatype Any = Any(tag: Tag, value: seq<byte>)

  /** `Any::null()`: a NULL with no content. */
  const NullAny: Any := Any(Null, [])

  /** The payload of a decoded `der::asn1::BitString`: the count of unused bits
      in the last octet and the raw octets (`raw_bytes`). */
  datatype BitStringValue = BitStringValue(unusedBits: nat, rawBytes: seq<byte>)

  /** The entry points of the crate the decoder calls, as functions:
      - fromDer: `Any::from_der`, one complete TLV filling the whole buffer;
      - decodeElement: one `decoder.decode::<Any>()` step inside a SEQUENCE's
        content, returning the element and the bytes after it;
      - the rest: `decode_as::<T>()` of the content octets for each scalar T.
      `None` stands for the crate's `der::Error`. */
  datatype Library = Library(
    fromDer: seq<byte> -> Option<Any>,
    decodeElement: seq<byte> -> Option<(Any, seq<byte>)>,
    integer: seq<byte> -> Option<u128>,
    bitString: seq<byte> -> Option<BitStringValue>,
    boolean: seq<byte> -> Option<bool>,
    objectIdentifier: seq<byte> -> Option<seq<nat>>,
    ia5String: seq<byte> -> Option<string>,
    utcTime: seq<byte> -> Option<nat>,
    printableString: seq<byte> -> Option<string>)

  /** Every TLV has at least an identifier and a length octet, so whatever the
      crate decodes from a buffer has strictly shorter content, and a
      SEQUENCE reader that yields an element has consumed at least one octet. */
  ghost predicate Sound(lib: Library) {
    && (forall b :: lib.fromDer(b).Some? ==> |lib.fromDer(b).value.value| < |b|)
    && (forall b :: lib.decodeElement(b).Some? ==>
          |lib.decodeElement(b).value.0.value| < |b| && |lib.decodeElement(b).value.1| < |b|)
  }
}
