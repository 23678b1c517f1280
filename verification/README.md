# 0x6363 drone protocol: byte-level model

A Dafny model of the byte-level core of a reverse-engineered client for a
toy drone that speaks the "0x6363" UDP protocol (VGA camera stream and
flight control). The model covers:

- the 12-byte little-endian packet header and its three decoders: the validating
  stream decoder in `stream_video.py`, and the two inspection tools
  `decode_header.py` and `decode_packet.py`. The inspection tools print their
  values; the model returns them as records instead;
- the per-frame video obfuscation (`encode_index`, `decode_vga_obfuscation`),
  with Python's operator precedence reproduced exactly;
- the frame reassembly loop of `stream_manager`, taken out of the receive
  loop as a pure step `Step(state, datagram)`. Every place where the source
  raises becomes a `Halt` outcome;
- the 18-byte flight-control packet, in both copies of its builder;
- the per-key stick/command/mode transitions of the interactive controller,
  with the reset of the command after each send.

Files: `wire.dfy` (bytes, little-endian fields, unbounded XOR),
`obfuscation.dfy`, `packet_header.dfy`, `decode_header.dfy`,
`decode_packet.dfy`, `reassembly.dfy`, `control.dfy`,
`control_interactive.dfy`.

Three points of the source that are easy to misread:

- Python's `+` binds tighter than `^`. So the even branch of `encode_index`
  (stream_video.py:30) is `((L + 1 + (L ^ f)) ^ L) % L`, and the odd branch
  (stream_video.py:33) is `(((L ^ f) + L) ^ L) % L`.
  `Obfuscation.EncodeIndexSamples` fixes one value of each branch.
- A continuation fragment that arrives with no frame in progress raises
  `TypeError` at stream_video.py:234, because `running_frame` is `None` there.
  The model ends the stream with `AppendWithoutFrame`.
- The sample at decode_header.py:81 carries frame id `0x4B415341` in bytes
  8-11. Its payload starts at byte 12, and the text it prints is
  `EE-WiFi-19145C`.

Every state the reassembly loop can reach satisfies `State.Valid()`:
`Initial` is valid and `Step` preserves validity. Under that invariant,
Python's truthiness test `if running_frame:` is the same as "a frame is in
progress". `Step` and `Run` therefore take validity as a precondition.

## Model

| member | source | states |
|---|---|---|
| Wire.LE16 | stream_video.py:71-72 | `struct.unpack('<H', ...)`: the value's low byte is the first byte and its high byte the second |
| Wire.LE32 | stream_video.py:74 | `struct.unpack('<I', ...)`: the value's low 16 bits are the little-endian u16 of the first two bytes, and its high 16 bits that of the last two |
| Wire.Xor | stream_video.py:30-33 | Python's `^` on non-negative integers, bit by bit: a result bit is 1 exactly where the operands' bits differ |
| Wire.XorCommutes | stream_video.py:30-33 | `a ^ b` equals `b ^ a` |
| Wire.XorCancels | stream_video.py:30-33 | `(a ^ b) ^ b` is `a`: XOR with the same number undoes itself |
| Wire.PackLE16 | stream_video.py:71-72 | the two bytes written for a u16 read back, little-endian, as that value |
| Wire.PackLE32 | stream_video.py:74 | the four bytes written for a u32 read back, little-endian, as that value |
| Wire.PackLE16OfLE16 | stream_video.py:71-72 | reading two bytes as a little-endian u16 and writing the value back gives the same two bytes |
| Wire.PackLE32OfLE32 | stream_video.py:74 | reading four bytes as a little-endian u32 and writing the value back gives the same four bytes |
| Obfuscation.EncodeIndex | stream_video.py:23-34 | the index is 0 for an empty frame and lies inside the frame otherwise, so the range guard at line 46 always passes |
| Obfuscation.EncodeIndexSamples | stream_video.py:29-34 | with Python's precedence, length 6 and frame id 0 give index 5 (even branch), and length 5 and frame id 1 give index 2 (odd branch) |
| Obfuscation.Deobfuscate | stream_video.py:36-49 | length is kept; frame type 0x02 or empty data is returned unchanged; otherwise the byte at the encoded index becomes 255 minus itself and every other byte is kept |
| Obfuscation.DeobfuscateChangesExactlyOneByte | stream_video.py:44-49 | for an obfuscated frame type, a byte changes if and only if it sits at the encoded index |
| Obfuscation.DeobfuscateIsSelfInverse | stream_video.py:36-49 | applying the codec twice with the same frame id and frame type gives back the input |
| PacketHeader.ReadHeader | stream_video.py:61-74 | the field reads: magic as the u16 at 0, command type at 2, sequence id as the u16 at 3, packet length as the u16 at 5, frame type at 7, frame id as the u32 at 8; `EncodeReadHeader` is its inverse |
| PacketHeader.ReadEncodeHeader | stream_video.py:61-74 | reading the fields back from an encoded header gives the same fields, whatever follows the header |
| PacketHeader.EncodeReadHeader | stream_video.py:61-74 | encoding the fields read from a datagram gives back its first 12 bytes |
| PacketHeader.DecodePacketHeader | stream_video.py:51-76 | the result is None exactly when there are fewer than 12 bytes or the little-endian u16 at offset 0 is not 0x6363; otherwise the magic is 0x6363, and the header fields followed by the payload rebuild the datagram |
| PacketHeader.DecodeEncodedPacket | stream_video.py:51-76 | any header with the right magic, followed by any payload, decodes to that header and payload |
| PacketHeader.MagicBytes | stream_video.py:61-63 | the u16 magic test at line 62 is the same as the byte test `63 63` at line 170 |
| DecodeHeader.StripTrailingZeros | WorkInProgress/decode_header.py:52 | the result is a prefix of the input that does not end in a zero byte, and everything the strip removed is zero |
| DecodeHeader.StripTrailingZerosUnique | WorkInProgress/decode_header.py:52 | those three properties fix the stripped result uniquely |
| DecodeHeader.StripTrailingZerosSplit | WorkInProgress/decode_header.py:52 | the input is the stripped prefix followed by zero bytes |
| DecodeHeader.AsciiText | WorkInProgress/decode_header.py:51-56 | text is produced exactly when every byte is printable ASCII (0x20-0x7E), and it then has the bytes' character codes |
| DecodeHeader.CommandName | WorkInProgress/decode_header.py:61-77 | `get_cmd_name`: the 11-entry table, and `Unknown (0xNN)` with the code in two upper-case hex digits otherwise; `CommandNameUnknownIff` and `CommandNameInjective` state its properties |
| DecodeHeader.CommandNameUnknownIff | WorkInProgress/decode_header.py:61-77 | a name has the "Unknown (0x" fallback form exactly when the code is not one of the 11 table entries |
| DecodeHeader.HexDigitInjective | WorkInProgress/decode_header.py:77 | different hexadecimal digit values give different characters |
| DecodeHeader.CommandNameInjective | WorkInProgress/decode_header.py:61-77 | different command codes always get different names |
| DecodeHeader.PayloadView | WorkInProgress/decode_header.py:48-56 | the view keeps `data[12:]` as raw bytes; the stripped bytes are a prefix that does not end in zero, followed in the raw bytes only by zeros; the text is the ASCII reading of the stripped bytes |
| DecodeHeader.DecodeVgaHeader | WorkInProgress/decode_header.py:9-59 | nothing is produced for fewer than 12 bytes; otherwise the fields re-encode to the first 12 bytes whatever the magic; the VGA label is given exactly when the magic is 0x6363; the name is taken from the table; a payload view exists exactly when more than 12 bytes arrive; that view splits `data[12:]` into a stripped prefix that does not end in a zero byte, followed by zero bytes; and its text is the ASCII reading of the stripped prefix |
| DecodeHeader.DecodeVgaHeaderAgreesWithStream | WorkInProgress/decode_header.py:26-48 | on a datagram with the right magic, this decoder and the stream decoder give the same fields and payload |
| DecodeHeader.DecodeVgaHeaderKeepsBadMagic | WorkInProgress/decode_header.py:31-38 | a datagram that the stream decoder rejects for its magic is still decoded, labelled as not VGA |
| DecodeHeader.SampleHeartbeatDecodes | WorkInProgress/decode_header.py:26-82 | the example heartbeat gives magic 0x6363, command 0x01 "Heartbeat", sequence 0, length 0x63, frame type 0x48, frame id 0x4B415341, and text EE-WiFi-19145C |
| DecodePacket.CommandName | WorkInProgress/decode_packet.py:74-82 | `get_cmd_name`: four names, and a bare "Unknown" for every other code; `CommandNameIsCutDown` states its relation to the longer table |
| DecodePacket.CommandNameIsCutDown | WorkInProgress/decode_packet.py:74-82 | the four codes listed get the same names as in the longer table, and every other code gets "Unknown" |
| DecodePacket.JpegView | WorkInProgress/decode_packet.py:50-59 | the SOI verdict is shown exactly when there are at least 4 bytes, and it is true exactly when they start with FF D8 |
| DecodePacket.DecodeVgaPacket | WorkInProgress/decode_packet.py:8-72 | the fields re-encode to the first 12 bytes; the multi-packet fields are present exactly for command 0x03 with at least 0x2D bytes, and they are the little-endian u16s at 0x27, 0x29 and 0x2B; the JPEG view is present exactly when those fields are and there are more than 0x36 bytes, it is `data[0x36:]`, and its SOI verdict is shown exactly when at least 4 JPEG bytes arrive and is true exactly when `data[0x36:0x38]` is FF D8; the metadata is present exactly when there are at least 0x36 bytes, and it is `data[0x0C:0x36]` |
| DecodePacket.MetadataCarriesMultiFields | WorkInProgress/decode_packet.py:40-72 | the "known fields" under the metadata are the multi-packet fields, read at offsets 0x1B-0x20 of the metadata block |
| DecodePacket.DecodeVgaPacketAgreesWithHeaderDecoders | WorkInProgress/decode_packet.py:16-21 | the basic header here is the one the other two decoders read |
| DecodePacket.SampleFragmentDecodes | WorkInProgress/decode_packet.py:16-87 | the example fragment gives command 0x03, sequence 0, length 0x0146, frame type 0x03, frame id 0x5A5A677E, multi-packet fields 0x5A5A, and 6 JPEG bytes without an SOI marker |
| Reassembly.ProprietaryHeaderDecodes | stream_video.py:170-176 | once the guard at line 170 passes, the header decoder always succeeds, so line 174 cannot fire |
| Reassembly.Step | stream_video.py:170-246 | validity is preserved; a datagram that fails the guard halts with NotProprietary; a heartbeat leaves the state unchanged; an unknown message type halts; a handed-over frame is the frame in progress, deobfuscated with the previous id and the new datagram's byte 7; the frame count rises by the number of frames handed over; a video datagram always becomes the current frame id |
| Reassembly.StepVideoFragment | stream_video.py:193-238 | fragment index 1 with FF D8 starts a new frame; an index above 1 extends the frame of the same id or halts when there is none; index 0, or index 1 without FF D8, halts with MissingSoi; the frame finished at a boundary is reported in every case |
| Reassembly.OrphanContinuationHalts | stream_video.py:196-234 | a continuation with a new frame id hands over the previous frame, then halts because no frame is in progress |
| Reassembly.Run | stream_video.py:157-246 | a run of datagrams hands over at most one frame per datagram, and the frame count grows by exactly the number handed over |
| Reassembly.RunAppend | stream_video.py:157-246 | running two pieces one after the other gives the same result as running their concatenation |
| Reassembly.RunContinuations | stream_video.py:214-234 | continuations of the frame in progress append their payloads in order and hand over nothing |
| Reassembly.RunFrameGroup | stream_video.py:196-234 | a key fragment with a new id, then its continuations, hands over the previous frame if there is one, and leaves the new frame holding every payload of the group |
| Reassembly.RunWellFormedStream | stream_video.py:170-246 | over whole frames with changing ids, the frames handed over are exactly the reference frames (each frame's payloads joined and deobfuscated with its own id and the next frame's type byte), and the last frame stays in progress |
| Reassembly.RunFromStart | stream_video.py:150-246 | from the listener's start, a stream of n whole frames hands over the first n - 1, in order, and the frame count is n - 1 |
| Reassembly.CompletedFramesLength | stream_video.py:196-210 | the reference lists one frame for every frame boundary |
| Reassembly.TwoFramesHandOverOne | stream_video.py:196-234 | key fragment and continuation of frame 1, then the key fragment of frame 2, hand over exactly the joined and deobfuscated frame 1, with frame 2 in progress |
| Control.CreateControlPacket | WorkInProgress/control.py:15-63 | the packet is 18 bytes, starts with `63 63 0a 00 0b 00 00`, has 0x66 at byte 7 and 0x99 at byte 17, and parses back to its nine arguments |
| Control.ParseThenCreate | WorkInProgress/control.py:37-63 | any 18-byte packet in this layout is the packet built from the arguments it parses to |
| Control.CreateControlPacketInjective | WorkInProgress/control.py:39-47 | different arguments give different packets |
| Control.DefaultPacket | WorkInProgress/control.py:15-17 | the default arguments give sticks and trims of 0x80, command 0x0C and mode 0x8C |
| ControlInteractive.CreateControlPacket | WorkInProgress/control_interactive.py:15-37 | the packet is 18 bytes and parses back to its nine arguments |
| ControlInteractive.SameAsControlPacket | WorkInProgress/control_interactive.py:15-37 | this copy produces the same bytes as the builder in control.py for the same arguments |
| ControlInteractive.InitialIsValid | WorkInProgress/control_interactive.py:43-48 | the starting values lie in the stick range, with a neutral command and low speed |
| ControlInteractive.RaiseStick | WorkInProgress/control_interactive.py:77 | `min(0xd0, v + 10)`: the result is at most both `v + 10` and 0xD0, and it is one of them |
| ControlInteractive.LowerStick | WorkInProgress/control_interactive.py:79 | `max(0x2f, v - 10)`: the result is at least both `v - 10` and 0x2F, and it is one of them |
| ControlInteractive.Key | WorkInProgress/control_interactive.py:72-104 | the loop quits exactly on q or Q, and any other key keeps a valid state valid |
| ControlInteractive.RaiseKeyMovesOneStick | WorkInProgress/control_interactive.py:76-91 | w, d, i and l raise their own stick by exactly 10 when that stays within 0xD0, and set it to 0xD0 otherwise; and change no other stick, the command or the mode |
| ControlInteractive.LowerKeyMovesOneStick | WorkInProgress/control_interactive.py:76-91 | s, a, k and j lower their own stick by exactly 10 when that stays within 0x2F, and set it to 0x2F otherwise; and change no other stick, the command or the mode |
| ControlInteractive.SpeedToggleIsInvolution | WorkInProgress/control_interactive.py:98-99 | h turns mode 0x8C into 0x84 and any other mode into 0x8C, and changes nothing else; pressing h twice restores the state exactly when the mode is 0x8C or 0x84 |
| ControlInteractive.ResetKey | WorkInProgress/control_interactive.py:101-103 | r centres all four sticks and sets the command to neutral, but keeps the mode |
| ControlInteractive.UnboundKeyChangesNothing | WorkInProgress/control_interactive.py:72-104 | a key outside the thirteen handled ones changes nothing |
| ControlInteractive.AfterSend | WorkInProgress/control_interactive.py:112-114 | after a send the command is neutral, and nothing else changes |
| ControlInteractive.Tick | WorkInProgress/control_interactive.py:71-114 | one loop pass stops exactly on q; with no key it sends the current state and keeps it with a neutral command; with a key it sends the state that key produces (its command byte included) and keeps that state with a neutral command; the packet carries the sticks, default trims and mode of the kept state, all in range |
| ControlInteractive.TakeoffAndLandLastOneSend | WorkInProgress/control_interactive.py:92-114 | t or g puts takeoff (0x1C) or land (0x2C) into exactly the next packet, and the state afterwards is back to neutral |
| ControlInteractive.Session | WorkInProgress/control_interactive.py:69-116 | from a valid state, every packet of a session carries in-range sticks, command and mode |
| ControlInteractive.SessionFromInitial | WorkInProgress/control_interactive.py:43-116 | from the starting values, no sequence of keys makes packet building fail |

## Left out

- Sockets, `sendto`/`recvfrom`, the once-a-second heartbeat, `time.sleep`, the raw capture file, the throughput counters and all printing (stream_video.py:78-83, 120-169, 248-260; the send loops of control.py and control_interactive.py). These are I/O and wall-clock behaviour. A session is modelled as a finite sequence of datagrams or keys.
- `decode_frame` (stream_video.py:88-118): OpenCV decoding, display, file output and blending with the previous frame are calls into foreign libraries. The model reports the frames it would be given.
- Reading keys through termios and `select`: a tick receives the key read at that pass, or none.
- The heartbeat text print at stream_video.py:186-190: it only prints.
- `bytes.fromhex` in the inspection tools: the model starts from the bytes. A malformed hex string is out of scope.
- WorkInProgress/init_video.py is not part of this model. It only sends the constant `63 63 01 00 00 00 00`, which is `START_COMMAND`.
- The constants `JPEG_EOI`, `JPEG_SOS` and `SOS_PARAM_LENGTH` (stream_video.py:14-16): nothing uses them.
- ControlInteractive.Key: `str.lower()` is modelled for ASCII letters only. Non-ASCII characters whose lower case is an ASCII letter (for example the Kelvin sign) are not folded.
- DecodePacket.DecodeVgaPacket: the source has no length guard and raises on fewer than 12 bytes, so the model requires 12 bytes instead of modelling the exception.
- Control.CreateControlPacket: it requires every argument in 0..255, because `bytearray` raises `ValueError` otherwise (control.py:37); `ControlInteractive.CreateControlPacket` requires the same (control_interactive.py:19), and `ControlInteractive.Session` shows that the interactive controller never reaches that case.
- ControlInteractive.Tick: it requires `Valid()`, which `Initial` meets and every tick preserves; `Session` requires the same.
- Reassembly.Step: it requires `State.Valid()`, which every state reachable from `Initial` meets. A state outside it, such as an empty running frame, cannot arise in the source.
