/**
 * The inspection decoder of WorkInProgress/decode_packet.py: the basic
 * header, the multi-packet video fields of command type 0x03, the JPEG data
 * after the 54-byte proprietary header and the metadata block between the
 * two. The model returns the values the source prints rather than the text.
 */
module DecodePacket {
  import opened Wire
  import opened PacketHeader
  import DecodeHeader

  const MultiPacketVideo: byte := 0x03
  /** The multi-packet fields end at offset 0x2D. */
  const MultiFieldsEnd: nat := 0x2D
  /** JPEG data starts after the 54-byte proprietary header. */
  const JpegOffset: nat := 0x36

  /** Packet sequence, total packets and data length of one fragment. */
  datatype MultiFields = MultiFields(packetSeq: u16, totalPackets: u16, dataLen: u16)

  /** The JPEG bytes; whether they start with FF D8 is shown only for four or more bytes. */
  datatype JpegReport = JpegReport(data: Bytes, soiValid: Option<bool>)

  /** The raw metadata block `data[0x0C:0x36]` and the fields the source lists under it. */
  datatype Metadata = Metadata(raw: Bytes, known: MultiFields)

  datatype PacketReport = PacketReport(
    header: Header,
    isVga: bool,
    commandName: string,
    multi: Option<MultiFields>,
    jpeg: Option<JpegReport>,
    metadata: Option<Metadata>)

  /** `get_cmd_name(cmd_type)` of decode_packet.py: four names and a bare "Unknown". */
  function CommandName(cmd: byte): string {
    match cmd
    case 0x01 => "Heartbeat"
    case 0x03 => "Multi-packet Video"
    case 0x09 => "Key Event"
    case 0x0B => "Single Video Data"
    case _ => "Unknown"
  }

  /** The four codes this table names, where it agrees with the longer table of decode_header.py. */
  const VideoCommands: set<byte> := {0x01, 0x03, 0x09, 0x0B}

  /** This table is the longer table cut down to four codes; everything else is "Unknown". */
  lemma CommandNameIsCutDown(cmd: byte)
    ensures cmd in VideoCommands ==> CommandName(cmd) == DecodeHeader.CommandName(cmd)
    ensures cmd !in VideoCommands <==> CommandName(cmd) == "Unknown"
  {
  }

  /** The three little-endian u16 fields at 0x27, 0x29 and 0x2B. */
  function ReadMultiFields(data: Bytes): MultiFields
    requires |data| >= MultiFieldsEnd
  {
    MultiFields(LE16(data[0x27], data[0x28]), LE16(data[0x29], data[0x2A]), LE16(data[0x2B], data[0x2C]))
  }

  /** The view of `data[0x36:]` the source prints. */
  function JpegView(jpeg: Bytes): (r: JpegReport)
    ensures r.data == jpeg
    ensures r.soiValid.Some? <==> |jpeg| >= 4
    ensures r.soiValid == Some(true) <==> |jpeg| >= 4 && StartsWithSoi(jpeg)
  {
    JpegReport(jpeg, if |jpeg| >= 4 then Some(jpeg[0] == 0xFF && jpeg[1] == 0xD8) else None)
  }

  /**
   * `decode_vga_packet(hex_str)` on `bytes.fromhex(hex_str)`. The source has
   * no length guard and raises on fewer than 12 bytes, hence the precondition.
   */
  function DecodeVgaPacket(data: Bytes): (r: PacketReport)
    requires |data| >= HeaderLength
    ensures EncodeHeader(r.header) == data[..HeaderLength]
    ensures r.isVga <==> r.header.magic == Magic
    ensures r.commandName == CommandName(data[2])
    ensures r.multi.Some? <==> data[2] == MultiPacketVideo && |data| >= MultiFieldsEnd
    ensures r.multi.Some? ==>
      r.multi.value == MultiFields(LE16(data[0x27], data[0x28]), LE16(data[0x29], data[0x2A]), LE16(data[0x2B], data[0x2C]))
    ensures r.jpeg.Some? <==> r.multi.Some? && |data| > JpegOffset
    ensures r.jpeg.Some? ==> data == data[..JpegOffset] + r.jpeg.value.data
    ensures r.jpeg.Some? ==> (r.jpeg.value.soiValid.Some? <==> |data| >= JpegOffset + 4)
    ensures r.jpeg.Some? ==>
      (r.jpeg.value.soiValid == Some(true) <==> |data| >= JpegOffset + 4 && data[JpegOffset] == 0xFF && data[JpegOffset + 1] == 0xD8)
    ensures r.metadata.Some? <==> |data| >= JpegOffset
    ensures r.metadata.Some? ==> data[..JpegOffset] == data[..HeaderLength] + r.metadata.value.raw
  {
    var header := ReadHeader(data);
    var multi := if header.cmdType == MultiPacketVideo && |data| >= MultiFieldsEnd then Some(ReadMultiFields(data)) else None;
    var jpeg := if multi.Some? && |data| > JpegOffset then Some(JpegView(data[JpegOffset..])) else None;
    var metadata := if |data| >= JpegOffset then Some(Metadata(data[HeaderLength..JpegOffset], ReadMultiFields(data))) else None;
    EncodeReadHeader(data);
    PacketReport(header, header.magic == Magic, CommandName(header.cmdType), multi, jpeg, metadata)
  }

  /**
   * When both views are printed they show the same three fields, and those
   * fields are bytes 0x1B..0x20 of the metadata block.
   */
  lemma MetadataCarriesMultiFields(data: Bytes)
    requires |data| >= JpegOffset
    ensures
      var r := DecodeVgaPacket(data);
      var m := r.metadata.value;
      && (r.multi.Some? ==> r.multi.value == m.known)
      && m.known == MultiFields(LE16(m.raw[0x1B], m.raw[0x1C]), LE16(m.raw[0x1D], m.raw[0x1E]), LE16(m.raw[0x1F], m.raw[0x20]))
  {
  }

  /** The basic header is the one both other decoders read. */
  lemma DecodeVgaPacketAgreesWithHeaderDecoders(data: Bytes)
    requires |data| >= HeaderLength
    ensures DecodeHeader.DecodeVgaHeader(data).Some?
    ensures DecodeVgaPacket(data).header == DecodeHeader.DecodeVgaHeader(data).value.header
    ensures HasMagic(data) ==> DecodeVgaPacket(data).header == DecodePacketHeader(data).value.header
  {
  }

  /** The 60-byte video fragment of the source's own example. */
  const SampleFragment: Bytes :=
    [0x63, 0x63, 0x03, 0x00, 0x00, 0x46, 0x01, 0x03, 0x7E, 0x67, 0x5A, 0x5A, 0x68, 0x1C, 0x00, 0x00]
    + seq(31, _ => 0x5A)
    + [0x01, 0x06, 0x00, 0x06, 0x00, 0x10, 0x01, 0xA2, 0x8A, 0x00, 0x28, 0xA2, 0x8A]

  /** The example fragment decodes to the fields the source shows, with no JPEG start marker. */
  lemma SampleFragmentDecodes()
    ensures
      var r := DecodeVgaPacket(SampleFragment);
      && r.header == Header(0x6363, 0x03, 0x0000, 0x0146, 0x03, 0x5A5A_677E)
      && r.commandName == "Multi-packet Video"
      && r.multi == Some(MultiFields(0x5A5A, 0x5A5A, 0x5A5A))
      && r.jpeg == Some(JpegReport([0xA2, 0x8A, 0x00, 0x28, 0xA2, 0x8A], Some(false)))
      && r.metadata.Some?
  {
    var d := SampleFragment;
    assert |d| == 60;
    assert d[0] == 0x63 && d[1] == 0x63 && d[2] == 0x03 && d[3] == 0 && d[4] == 0 && d[5] == 0x46 && d[6] == 0x01;
    assert d[7] == 0x03 && d[8] == 0x7E && d[9] == 0x67 && d[10] == 0x5A && d[11] == 0x5A;
    assert d[0x27] == 0x5A && d[0x28] == 0x5A && d[0x29] == 0x5A && d[0x2A] == 0x5A && d[0x2B] == 0x5A && d[0x2C] == 0x5A;
    assert d[JpegOffset..] == [0xA2, 0x8A, 0x00, 0x28, 0xA2, 0x8A];
  }
}
