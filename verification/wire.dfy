/**
 * Byte-level vocabulary shared by every part of the 0x6363 protocol model:
 * bytes and little-endian fields as Python's `struct` reads and writes them,
 * an optional value, and the unbounded integer XOR that Python's `^` computes.
 */
module Wire {

  /** One element of a Python `bytes` object. */
  type byte = x: int | 0 <= x < 256

  /** Results of `struct.unpack('<H', ...)` and `struct.unpack('<I', ...)`. */
  type u16 = x: int | 0 <= x < 0x1_0000
  type u32 = x: int | 0 <= x < 0x1_0000_0000

  type Bytes = seq<byte>

  datatype Option<+T> = None | Some(value: T)

  /** The JPEG start-of-image marker FF D8. */
  predicate StartsWithSoi(s: Bytes) {
    |s| >= 2 && s[0] == 0xFF && s[1] == 0xD8
  }

  /** `struct.unpack('<H', bytes([lo, hi]))[0]` */
  function LE16(lo: byte, hi: byte): (v: u16)
    ensures v % 256 == lo && v / 256 == hi
  {
    lo + 256 * hi
  }

  /** `struct.unpack('<I', bytes([b0, b1, b2, b3]))[0]` */
  function LE32(b0: byte, b1: byte, b2: byte, b3: byte): (v: u32)
    ensures v % 0x1_0000 == LE16(b0, b1) && v / 0x1_0000 == LE16(b2, b3)
  {
    SplitAt16(LE16(b0, b1), LE16(b2, b3));
    b0 + 256 * b1 + 0x1_0000 * b2 + 0x100_0000 * b3
  }

  /** `struct.pack('<H', v)`: the two bytes that LE16 reads back as `v`. */
  function PackLE16(v: u16): (r: Bytes)
    ensures |r| == 2 && LE16(r[0], r[1]) == v
  {
    [v % 256, v / 256]
  }

  /** `struct.pack('<I', v)`: the four bytes that LE32 reads back as `v`. */
  function PackLE32(v: u32): (r: Bytes)
    ensures |r| == 4 && LE32(r[0], r[1], r[2], r[3]) == v
  {
    var lo := v % 0x1_0000;
    var hi := v / 0x1_0000;
    PackLE16(lo) + PackLE16(hi)
  }

  /** Splitting `lo + 0x1_0000 * hi` at 16 bits gives back `lo` and `hi`. */
  lemma SplitAt16(lo: u16, hi: u16)
    ensures (lo + 0x1_0000 * hi) % 0x1_0000 == lo
    ensures (lo + 0x1_0000 * hi) / 0x1_0000 == hi
  {
    var v := lo + 0x1_0000 * hi;
    var q, r := v / 0x1_0000, v % 0x1_0000;
    assert v == 0x1_0000 * q + r && 0 <= r < 0x1_0000;
    assert 0x1_0000 * (q - hi) == lo - r;
  }

  /** Reading two bytes and packing the value again gives the same two bytes. */
  lemma PackLE16OfLE16(lo: byte, hi: byte)
    ensures PackLE16(LE16(lo, hi)) == [lo, hi]
  {
  }

  /** Reading four bytes and packing the value again gives the same four bytes. */
  lemma PackLE32OfLE32(b0: byte, b1: byte, b2: byte, b3: byte)
    ensures PackLE32(LE32(b0, b1, b2, b3)) == [b0, b1, b2, b3]
  {
    var v := LE32(b0, b1, b2, b3);
    assert v == LE16(b0, b1) + 0x1_0000 * LE16(b2, b3);
    SplitAt16(LE16(b0, b1), LE16(b2, b3));
    PackLE16OfLE16(b0, b1);
    PackLE16OfLE16(b2, b3);
  }

  /** XOR with zero leaves a number as it is. */
  lemma {:induction false} XorZero(a: nat)
    ensures Xor(a, 0) == a
    decreases a
  {
    if a > 0 {
      XorZero(a / 2);
    }
  }

  /** Python's `a ^ b` on non-negative integers, one bit at a time. */
  function Xor(a: nat, b: nat): nat
    decreases a + b
  {
    if a == 0 && b == 0 then 0
    else 2 * Xor(a / 2, b / 2) + (if a % 2 == b % 2 then 0 else 1)
  }

  /** The operands of `^` can be swapped. */
  lemma {:induction false} XorCommutes(a: nat, b: nat)
    ensures Xor(a, b) == Xor(b, a)
    decreases a + b
  {
    if a != 0 || b != 0 {
      XorCommutes(a / 2, b / 2);
    }
  }

  /** XOR-ing twice with the same number gives back the first operand. */
  lemma {:induction false} XorCancels(a: nat, b: nat)
    ensures Xor(Xor(a, b), b) == a
    decreases a + b
  {
    if a == 0 && b == 0 {
    } else {
      var c := Xor(a, b);
      var low := if a % 2 == b % 2 then 0 else 1;
      assert c == 2 * Xor(a / 2, b / 2) + low;
      assert c / 2 == Xor(a / 2, b / 2) && c % 2 == low;
      XorCancels(a / 2, b / 2);
      if c == 0 && b == 0 {
        XorZero(a);
      } else {
        assert Xor(c, b) == 2 * Xor(c / 2, b / 2) + (if c % 2 == b % 2 then 0 else 1);
        assert a == 2 * (a / 2) + a % 2;
      }
    }
  }
}
