/**
 * The per-frame obfuscation of the VGA video stream (stream_video.py:23-49):
 * one byte of an assembled frame, at a position computed from the frame id and
 * the frame length, is bit-complemented. The same call obfuscates and
 * deobfuscates.
 */
module Obfuscation {
  import opened Wire

  /** The frame type whose frames are sent without obfuscation. */
  const UnobfuscatedFrameType: int := 0x02

  /**
   * `encode_index(frame_id, data_length)`. Python's `+` binds tighter than
   * `^`, so the even branch is `((L + 1 + (L ^ f)) ^ L) % L` and the odd
   * branch is `(((L ^ f) + L) ^ L) % L`; `L & 1` is `L % 2` on a length.
   */
  function EncodeIndex(frameId: nat, length: nat): (index: nat)
    ensures length == 0 ==> index == 0
    ensures length > 0 ==> index < length
  {
    if length == 0 then 0
    else if length % 2 == 0 then Xor(length + 1 + Xor(length, frameId), length) % length
    else Xor(Xor(length, frameId) + length, length) % length
  }

  /**
   * Two values that fix the grouping of each branch: for length 6 and frame
   * id 0 the even branch gives 5, where `L + 1 + ((L ^ f) ^ L)` would give 1;
   * for length 5 and frame id 1 the odd branch gives 2, where
   * `(L ^ f) + (L ^ L)` would give 4.
   */
  lemma EncodeIndexSamples()
    ensures EncodeIndex(0, 6) == 5
    ensures EncodeIndex(1, 5) == 2
  {
    XorZero(6);
    assert Xor(13, 6) == 11 by {
      assert Xor(1, 0) == 1;
      assert Xor(3, 1) == 2 * Xor(1, 0);
      assert Xor(6, 3) == 2 * Xor(3, 1) + 1;
      assert Xor(13, 6) == 2 * Xor(6, 3) + 1;
    }
    assert Xor(5, 1) == 4 by {
      assert Xor(2, 0) == 2 * Xor(1, 0);
      XorZero(1);
      assert Xor(5, 1) == 2 * Xor(2, 0);
    }
    assert Xor(9, 5) == 12 by {
      assert Xor(1, 0) == 1;
      assert Xor(2, 1) == 2 * Xor(1, 0) + 1;
      assert Xor(4, 2) == 2 * Xor(2, 1);
      assert Xor(9, 5) == 2 * Xor(4, 2);
    }
  }

  /** `(~b) & 0xFF`: for a byte, the same as `255 - b`. */
  function Complement(b: byte): byte {
    255 - b
  }

  /**
   * `decode_vga_obfuscation(data, frame_id, frame_type)`. The range guard of
   * the source is kept; `EncodeIndex`'s contract shows it always passes.
   */
  function Deobfuscate(data: Bytes, frameId: nat, frameType: int): (r: Bytes)
    ensures |r| == |data|
    ensures frameType == UnobfuscatedFrameType || |data| == 0 ==> r == data
    ensures frameType != UnobfuscatedFrameType && |data| > 0 ==>
      var i := EncodeIndex(frameId, |data|);
      && r[i] == 255 - data[i]
      && forall j :: 0 <= j < |data| && j != i ==> r[j] == data[j]
  {
    if frameType == UnobfuscatedFrameType || |data| == 0 then data
    else
      var index := EncodeIndex(frameId, |data|);
      if 0 <= index < |data| then data[index := Complement(data[index])] else data
  }

  /** For an obfuscated frame type, exactly one byte differs: the one at the encoded index. */
  lemma DeobfuscateChangesExactlyOneByte(data: Bytes, frameId: nat, frameType: int, j: int)
    requires frameType != UnobfuscatedFrameType && 0 <= j < |data|
    ensures Deobfuscate(data, frameId, frameType)[j] != data[j] <==> j == EncodeIndex(frameId, |data|)
  {
  }

  /** Applying the codec twice with the same frame id and frame type restores the input. */
  lemma DeobfuscateIsSelfInverse(data: Bytes, frameId: nat, frameType: int)
    ensures Deobfuscate(Deobfuscate(data, frameId, frameType), frameId, frameType) == data
  {
    var once := Deobfuscate(data, frameId, frameType);
    var twice := Deobfuscate(once, frameId, frameType);
    if frameType != UnobfuscatedFrameType && |data| > 0 {
      assert EncodeIndex(frameId, |once|) == EncodeIndex(frameId, |data|);
      assert forall j :: 0 <= j < |data| ==> twice[j] == data[j];
    }
  }
}
