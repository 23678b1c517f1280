/**
 * The 18-byte flight-control packet of WorkInProgress/control.py:15-63:
 * a 7-byte 0x6363 header (command type 0x0a, length 11) followed by eleven
 * control bytes framed by the markers 0x66 and 0x99.
 */
module Control {
  import opened Wire

  const ControlStart: byte := 0x66
  const ControlEnd: byte := 0x99
  const ControlCommandType: byte := 0x0A
  const PacketLength: nat := 18

  /** The nine arguments of `create_control_packet`, as Python integers. */
  datatype Controls = Controls(
    rightX: int, rightY: int, leftY: int, leftX: int,
    trimV: int, trimR: int, trimL: int,
    command: int, mode: int)
  {
    /** `bytearray` raises `ValueError` for any element outside 0..255. */
    predicate InByteRange() {
      && 0 <= rightX < 256 && 0 <= rightY < 256 && 0 <= leftY < 256 && 0 <= leftX < 256
      && 0 <= trimV < 256 && 0 <= trimR < 256 && 0 <= trimL < 256
      && 0 <= command < 256 && 0 <= mode < 256
    }
  }

  /** The default arguments: sticks and trims centred, neutral command, low speed. */
  const Defaults: Controls := Controls(0x80, 0x80, 0x80, 0x80, 0x80, 0x80, 0x80, 0x0C, 0x8C)

  /** The eleven control bytes, markers included. */
  function ControlData(c: Controls): Bytes
    requires c.InByteRange()
  {
    [ControlStart, c.rightX, c.rightY, c.leftY, c.leftX, c.trimV, c.trimR, c.trimL, c.command, c.mode, ControlEnd]
  }

  /** The 7-byte header that announces `dataLen` control bytes; `& 0xff` and `>> 8` on a length. */
  function ControlHeader(dataLen: nat): Bytes
    requires dataLen < 0x1_0000
  {
    [0x63, 0x63, ControlCommandType, 0x00, dataLen % 256, 0x00, (dataLen / 256) % 256]
  }

  /** `create_control_packet(...)`. */
  function CreateControlPacket(c: Controls): (p: Bytes)
    requires c.InByteRange()
    ensures |p| == PacketLength
    ensures p[..7] == [0x63, 0x63, 0x0A, 0x00, 0x0B, 0x00, 0x00]
    ensures p[7] == ControlStart && p[17] == ControlEnd
    ensures ParseControlPacket(p) == Some(c)
  {
    var data := ControlData(c);
    ControlHeader(|data|) + data
  }

  /**
   * Reads a packet back into its nine arguments: the inverse of
   * `CreateControlPacket`, defined independently of it.
   */
  function ParseControlPacket(p: Bytes): Option<Controls> {
    if |p| == PacketLength && p[..8] == [0x63, 0x63, 0x0A, 0x00, 0x0B, 0x00, 0x00, ControlStart] && p[17] == ControlEnd then
      Some(Controls(p[8], p[9], p[10], p[11], p[12], p[13], p[14], p[15], p[16]))
    else None
  }

  /** A packet that parses is exactly the packet built from what it parses to. */
  lemma ParseThenCreate(p: Bytes)
    requires ParseControlPacket(p).Some?
    ensures
      var c := ParseControlPacket(p).value;
      c.InByteRange() && CreateControlPacket(c) == p
  {
    var c := ParseControlPacket(p).value;
    var q := CreateControlPacket(c);
    assert p[..8] == q[..8];
    assert forall i :: 0 <= i < PacketLength ==> p[i] == q[i];
  }

  /** Different arguments give different packets. */
  lemma CreateControlPacketInjective(a: Controls, b: Controls)
    requires a.InByteRange() && b.InByteRange()
    ensures CreateControlPacket(a) == CreateControlPacket(b) ==> a == b
  {
  }

  /** The packet the default arguments produce, byte by byte. */
  lemma DefaultPacket()
    ensures CreateControlPacket(Defaults) ==
      [0x63, 0x63, 0x0A, 0x00, 0x0B, 0x00, 0x00, 0x66, 0x80, 0x80, 0x80, 0x80, 0x80, 0x80, 0x80, 0x0C, 0x8C, 0x99]
  {
  }
}
