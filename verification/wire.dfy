/**
  Byte-level vocabulary shared by the query encoder and the response decoder:
  octets, 16-bit fields in network byte order, the compression-pointer tag of
  section 4.1.4 of RFC 1035, and the fixed sizes and codes of the message format.
 */
module Wire {

  /** An octet (uint8_t). */
  newtype Byte = x: int | 0 <= x < 256

  /** Size of the fixed message header (section 4.1.1 of RFC 1035). */
  const HeaderSize: nat := 12
  /** QTYPE and QCLASS that follow a question name (section 4.1.2 of RFC 1035). */
  const QuestionTail: nat := 4
  /** TYPE, CLASS, TTL and RDLENGTH that follow a record name (section 4.1.3 of RFC 1035). */
  const RecordPrefix: nat := 10
  /** TYPE A (section 3.2.2 of RFC 1035) and CLASS IN (section 3.2.4 of RFC 1035). */
  const TypeA: nat := 1
  const ClassIn: nat := 1
  /** RDATA length of an A record: one IPv4 address. */
  const AddressLength: nat := 4
  /** Size of the query and response buffers of the resolver. */
  const MaxMessage: nat := 512

  /** An IPv4 address as its four octets, most significant first. */
  type Ipv4 = s: seq<Byte> | |s| == AddressLength witness [0, 0, 0, 0]

  /** The value of a 16-bit field stored most significant byte first. */
  function U16(hi: Byte, lo: Byte): (v: nat)
    ensures v < 0x1_0000
    ensures v / 256 == hi as nat && v % 256 == lo as nat
  {
    hi as nat * 256 + lo as nat
  }

  /** The two octets a 16-bit value occupies in network byte order. */
  function BE16(v: nat): (b: seq<Byte>)
    requires v < 0x1_0000
    ensures |b| == 2 && U16(b[0], b[1]) == v
  {
    [(v / 256) as Byte, (v % 256) as Byte]
  }

  /** Reading a field and writing it back gives the same two octets. */
  lemma BE16OfU16(hi: Byte, lo: Byte)
    ensures BE16(U16(hi, lo)) == [hi, lo]
  {
  }

  /**
    A length octet whose two top bits are set introduces a compression pointer.
    Those are exactly the octets 0xC0..0xFF; MaskedPointerTag shows the
    bit-mask test agrees.
   */
  predicate IsPointer(b: Byte) {
    b >= 0xC0
  }

  /** The bit-mask test `(b & 0xC0) == 0xC0` holds exactly for the pointer-tagged octets. */
  lemma MaskedPointerTag(b: Byte)
    ensures (b as bv8) & 0xC0 == 0xC0 <==> IsPointer(b)
  {
    var x := b as bv8;
    assert x & 0xC0 == 0xC0 <==> x >= 0xC0;
  }
}
