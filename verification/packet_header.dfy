/**
 * The fixed 12-byte prefix of every 0x6363 datagram and the validating
 * decoder of stream_video.py:51-76.
 *
 *   offset 0  u16 LE  magic (0x6363)
 *   offset 2  u8      command type
 *   offset 3  u16 LE  sequence id
 *   offset 5  u16 LE  declared packet length (never checked against the data)
 *   offset 7  u8      frame type
 *   offset 8  u32 LE  frame id
 */
module PacketHeader {
  import opened Wire

  const HeaderLength: nat := 12
  const Magic: u16 := 0x6363

  datatype Header = Header(magic: u16, cmdType: byte, seqId: u16, pktLen: u16, frameType: byte, frameId: u32)

  /** The dictionary `decode_packet_header` returns: the fields and `data[12:]`. */
  datatype Decoded = Decoded(header: Header, payload: Bytes)

  /** The twelve header bytes that carry the fields of `h`. */
  function EncodeHeader(h: Header): (r: Bytes)
    ensures |r| == HeaderLength
  {
    PackLE16(h.magic) + [h.cmdType] + PackLE16(h.seqId) + PackLE16(h.pktLen) + [h.frameType] + PackLE32(h.frameId)
  }

  /** The field reads shared by every decoder of the header; no validation. */
  function ReadHeader(data: Bytes): Header
    requires |data| >= HeaderLength
  {
    Header(
      LE16(data[0], data[1]),
      data[2],
      LE16(data[3], data[4]),
      LE16(data[5], data[6]),
      data[7],
      LE32(data[8], data[9], data[10], data[11]))
  }

  /** Reading encoded fields gives back the fields. */
  lemma ReadEncodeHeader(h: Header, rest: Bytes)
    ensures ReadHeader(EncodeHeader(h) + rest) == h
  {
  }

  /** Encoding the fields read from a datagram gives back its first twelve bytes. */
  lemma EncodeReadHeader(data: Bytes)
    requires |data| >= HeaderLength
    ensures EncodeHeader(ReadHeader(data)) == data[..HeaderLength]
  {
    PackLE16OfLE16(data[0], data[1]);
    PackLE16OfLE16(data[3], data[4]);
    PackLE16OfLE16(data[5], data[6]);
    PackLE32OfLE32(data[8], data[9], data[10], data[11]);
  }

  /** True of a datagram whose first two bytes read as the 0x6363 magic. */
  predicate HasMagic(data: Bytes)
    requires |data| >= 2
  {
    LE16(data[0], data[1]) == Magic
  }

  /**
   * `decode_packet_header(data)`: `None` for fewer than 12 bytes or a wrong
   * magic, otherwise the header fields and everything after them.
   */
  function DecodePacketHeader(data: Bytes): (r: Option<Decoded>)
    ensures r.None? <==> |data| < HeaderLength || !HasMagic(data)
    ensures r.Some? ==>
      && r.value.header.magic == Magic
      && EncodeHeader(r.value.header) + r.value.payload == data
  {
    if |data| < HeaderLength then None
    else if !HasMagic(data) then None
    else
      EncodeReadHeader(data);
      Some(Decoded(ReadHeader(data), data[HeaderLength..]))
  }

  /** Any header with the right magic, followed by any payload, decodes to itself. */
  lemma DecodeEncodedPacket(h: Header, payload: Bytes)
    requires h.magic == Magic
    ensures DecodePacketHeader(EncodeHeader(h) + payload) == Some(Decoded(h, payload))
  {
    var data := EncodeHeader(h) + payload;
    ReadEncodeHeader(h, payload);
    assert data[HeaderLength..] == payload;
  }

  /** The two bytes `63 63` are the little-endian magic. */
  lemma MagicBytes(data: Bytes)
    requires |data| >= 2
    ensures HasMagic(data) <==> data[0] == 0x63 && data[1] == 0x63
  {
  }
}
