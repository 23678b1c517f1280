/**
 * The inspection decoder of WorkInProgress/decode_header.py: it reads the
 * same 12-byte header as the stream decoder but only labels a wrong magic,
 * and it looks at the payload after stripping trailing zero bytes. The model
 * returns the values the source prints rather than the printed text.
 */
module DecodeHeader {
  import opened Wire
  import opened PacketHeader

  /** What the source shows about the bytes after the header. */
  datatype PayloadReport = PayloadReport(
    raw: Bytes,             // data[12:]
    stripped: Bytes,        // raw.rstrip(b'\x00')
    ascii: Option<string>)  // the text, when it decodes as ASCII and is printable

  /** What `decode_vga_header` extracts from a datagram of at least 12 bytes. */
  datatype HeaderReport = HeaderReport(
    header: Header,
    isVga: bool,            // the label 'VGA' rather than 'Unknown'
    commandName: string,
    payload: Option<PayloadReport>)

  /** `bytes.rstrip(b'\x00')`: drop the trailing run of zero bytes. */
  function StripTrailingZeros(s: Bytes): (r: Bytes)
    ensures |r| <= |s| && r == s[..|r|]
    ensures |r| == 0 || r[|r| - 1] != 0
    ensures forall i :: |r| <= i < |s| ==> s[i] == 0
  {
    if |s| == 0 || s[|s| - 1] != 0 then s
    else StripTrailingZeros(s[..|s| - 1])
  }

  /** The three properties of `StripTrailingZeros` single out its result. */
  lemma StripTrailingZerosUnique(s: Bytes, t: Bytes)
    requires |t| <= |s| && t == s[..|t|]
    requires |t| == 0 || t[|t| - 1] != 0
    requires forall i :: |t| <= i < |s| ==> s[i] == 0
    ensures StripTrailingZeros(s) == t
  {
  }

  /** A byte string is its stripped prefix followed by zero bytes. */
  lemma StripTrailingZerosSplit(s: Bytes)
    ensures s == StripTrailingZeros(s) + seq(|s| - |StripTrailingZeros(s)|, _ => 0)
  {
  }

  /** A byte Python's `str.isprintable` accepts once decoded as ASCII. */
  predicate IsPrintableAscii(b: byte) {
    0x20 <= b < 0x7F
  }

  /**
   * `payload.decode('ascii')` followed by `text.isprintable()`: the text is
   * shown only when every byte is printable ASCII.
   */
  function AsciiText(b: Bytes): (r: Option<string>)
    ensures r.Some? <==> forall i :: 0 <= i < |b| ==> IsPrintableAscii(b[i])
    ensures r.Some? ==> |r.value| == |b| && forall i :: 0 <= i < |b| ==> r.value[i] as int == b[i]
  {
    if forall i :: 0 <= i < |b| ==> IsPrintableAscii(b[i]) then
      Some(seq(|b|, i requires 0 <= i < |b| => b[i] as char))
    else None
  }

  /** One upper-case hexadecimal digit, as `format(n, 'X')` writes it. */
  function HexDigit(n: nat): char
    requires n < 16
  {
    if n < 10 then ('0' as int + n) as char else ('A' as int + n - 10) as char
  }

  /** `f"{b:02X}"` */
  function Hex2(b: byte): string {
    [HexDigit(b / 16), HexDigit(b % 16)]
  }

  /** The eleven command types the table of `get_cmd_name` names. */
  const NamedCommands: set<byte> := {0x01, 0x03, 0x04, 0x06, 0x07, 0x09, 0x0B, 0x0C, 0x0D, 0x0F, 0x10}

  const UnknownPrefix: string := "Unknown (0x"

  /** `get_cmd_name(cmd_type)` of decode_header.py. */
  function CommandName(cmd: byte): string {
    match cmd
    case 0x01 => "Heartbeat"
    case 0x03 => "Multi-packet Video"
    case 0x04 => "WiFi SSID (Set)"
    case 0x06 => "WiFi SSID (Get)"
    case 0x07 => "WiFi Password (Set)"
    case 0x09 => "Key Event"
    case 0x0B => "Single Video Data"
    case 0x0C => "Clear WiFi"
    case 0x0D => "WiFi Password (Get)"
    case 0x0F => "Camera LED On"
    case 0x10 => "Camera LED Off"
    case _ => UnknownPrefix + Hex2(cmd) + ")"
  }

  /** True of a name built by the fallback branch of `get_cmd_name`. */
  predicate IsUnknownName(name: string) {
    |name| >= |UnknownPrefix| && name[..|UnknownPrefix|] == UnknownPrefix
  }

  /** Exactly the eleven table entries get a real name; the rest get the fallback. */
  lemma CommandNameUnknownIff(cmd: byte)
    ensures IsUnknownName(CommandName(cmd)) <==> cmd !in NamedCommands
  {
    if cmd in NamedCommands {
      assert CommandName(cmd)[0] != 'U';
    } else {
      assert CommandName(cmd)[..|UnknownPrefix|] == UnknownPrefix;
    }
  }

  lemma HexDigitInjective(a: nat, b: nat)
    requires a < 16 && b < 16
    ensures HexDigit(a) == HexDigit(b) ==> a == b
  {
  }

  /** Different command types never share a name, so the printed name identifies the byte. */
  lemma CommandNameInjective(a: byte, b: byte)
    ensures CommandName(a) == CommandName(b) ==> a == b
  {
    CommandNameUnknownIff(a);
    CommandNameUnknownIff(b);
    if CommandName(a) == CommandName(b) && a !in NamedCommands && b !in NamedCommands {
      var na, nb := CommandName(a), CommandName(b);
      assert na[11] == HexDigit(a / 16) && nb[11] == HexDigit(b / 16);
      assert na[12] == HexDigit(a % 16) && nb[12] == HexDigit(b % 16);
      HexDigitInjective(a / 16, b / 16);
      HexDigitInjective(a % 16, b % 16);
    }
  }

  /**
   * The view of the bytes after the header (decode_header.py:48-56): the raw
   * bytes, the bytes with their trailing zero run removed, and the text.
   */
  function PayloadView(raw: Bytes): (p: PayloadReport)
    ensures p.raw == raw
    ensures |p.stripped| <= |raw| && raw == p.stripped + seq(|raw| - |p.stripped|, _ => 0)
    ensures |p.stripped| == 0 || p.stripped[|p.stripped| - 1] != 0
    ensures p.ascii == AsciiText(p.stripped)
  {
    var stripped := StripTrailingZeros(raw);
    StripTrailingZerosSplit(raw);
    PayloadReport(raw, stripped, AsciiText(stripped))
  }

  /**
   * `decode_vga_header(hex_str)` on the bytes `bytes.fromhex(hex_str)`:
   * nothing for fewer than 12 bytes; otherwise the header fields, whatever
   * the magic, and the payload view when bytes follow the header.
   */
  function DecodeVgaHeader(data: Bytes): (r: Option<HeaderReport>)
    ensures r.None? <==> |data| < HeaderLength
    ensures r.Some? ==>
      && EncodeHeader(r.value.header) == data[..HeaderLength]
      && (r.value.isVga <==> r.value.header.magic == Magic)
      && r.value.commandName == CommandName(data[2])
      && (r.value.payload.Some? <==> |data| > HeaderLength)
    ensures r.Some? && r.value.payload.Some? ==>
      var p := r.value.payload.value;
      && data == data[..HeaderLength] + p.raw
      && |p.stripped| <= |p.raw|
      && p.raw == p.stripped + seq(|p.raw| - |p.stripped|, _ => 0)
      && (|p.stripped| == 0 || p.stripped[|p.stripped| - 1] != 0)
      && p.ascii == AsciiText(p.stripped)
  {
    if |data| < HeaderLength then None
    else
      var header := ReadHeader(data);
      var payload :=
        if |data| > HeaderLength then Some(PayloadView(data[HeaderLength..])) else None;
      EncodeReadHeader(data);
      Some(HeaderReport(header, header.magic == Magic, CommandName(header.cmdType), payload))
  }

  /** On a datagram with the right magic this decoder and the stream decoder read the same fields and payload. */
  lemma DecodeVgaHeaderAgreesWithStream(data: Bytes)
    requires |data| > HeaderLength && HasMagic(data)
    ensures DecodePacketHeader(data).Some? && DecodeVgaHeader(data).Some?
    ensures DecodeVgaHeader(data).value.header == DecodePacketHeader(data).value.header
    ensures DecodeVgaHeader(data).value.payload.value.raw == DecodePacketHeader(data).value.payload
    ensures DecodeVgaHeader(data).value.isVga
  {
  }

  /** A datagram the stream decoder rejects for its magic is still decoded here, labelled as not VGA. */
  lemma DecodeVgaHeaderKeepsBadMagic(data: Bytes)
    requires |data| >= HeaderLength && !HasMagic(data)
    ensures DecodePacketHeader(data).None?
    ensures DecodeVgaHeader(data).Some? && !DecodeVgaHeader(data).value.isVga
  {
  }

  /** The bytes of the ASCII network name "EE-WiFi-19145C". */
  const SampleSsid: Bytes := [0x45, 0x45, 0x2D, 0x57, 0x69, 0x46, 0x69, 0x2D, 0x31, 0x39, 0x31, 0x34, 0x35, 0x43]

  /**
   * The 54-byte heartbeat of the source's own example: a 12-byte header, the
   * network name and 28 zero bytes.
   */
  const SampleHeartbeat: Bytes :=
    [0x63, 0x63, 0x01, 0x00, 0x00, 0x63, 0x00, 0x48, 0x41, 0x53, 0x41, 0x4B] + SampleSsid + seq(28, _ => 0)

  /** The example heartbeat decodes to the fields and network name the source shows. */
  lemma SampleHeartbeatDecodes()
    ensures
      var r := DecodeVgaHeader(SampleHeartbeat);
      && r.Some?
      && r.value.header == Header(0x6363, 0x01, 0x0000, 0x0063, 0x48, 0x4B41_5341)
      && r.value.isVga
      && r.value.commandName == "Heartbeat"
      && r.value.payload.Some?
      && r.value.payload.value.stripped == SampleSsid
      && r.value.payload.value.ascii == Some("EE-WiFi-19145C")
  {
    SampleReport();
    SampleHeader();
    SampleStrip();
    SampleAscii();
  }

  /** The shape of the example's report, before any field is computed. */
  lemma SampleReport()
    ensures
      var d := SampleHeartbeat;
      var raw := d[HeaderLength..];
      DecodeVgaHeader(d) == Some(HeaderReport(ReadHeader(d), true, CommandName(0x01),
        Some(PayloadView(raw))))
  {
    var d := SampleHeartbeat;
    assert |d| == 54 && d[0] == 0x63 && d[1] == 0x63 && d[2] == 0x01;
  }

  lemma SampleHeader()
    ensures ReadHeader(SampleHeartbeat) == Header(0x6363, 0x01, 0x0000, 0x0063, 0x48, 0x4B41_5341)
  {
    var d := SampleHeartbeat;
    assert d[0] == 0x63 && d[1] == 0x63 && d[2] == 0x01 && d[3] == 0 && d[4] == 0 && d[5] == 0x63 && d[6] == 0;
    assert d[7] == 0x48 && d[8] == 0x41 && d[9] == 0x53 && d[10] == 0x41 && d[11] == 0x4B;
  }

  lemma SampleStrip()
    ensures PayloadView(SampleHeartbeat[HeaderLength..]).stripped == SampleSsid
  {
    var raw := SampleHeartbeat[HeaderLength..];
    assert raw == SampleSsid + seq(28, _ => 0);
    StripTrailingZerosUnique(raw, SampleSsid);
  }

  lemma SampleAscii()
    ensures AsciiText(SampleSsid) == Some("EE-WiFi-19145C")
  {
    var text := AsciiText(SampleSsid);
    assert text.Some?;
    assert text.value == "EE-WiFi-19145C";
  }
}
