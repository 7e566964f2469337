/** Octets and fixed-width unsigned integers as they appear on the relay
    connection between the bridge and its UI process. */
module Bytes {

  /** One octet of a binary websocket message. */
  type byte = b: int | 0 <= b < 0x100

  /** A Rust `u32`, also what `DataView.getUint32` returns. */
  type u32 = n: int | 0 <= n < 0x1_0000_0000

  const U32_LIMIT: int := 0x1_0000_0000

  /** Rust's `(v as u32)` for a `usize` value: keeps the low 32 bits. */
  function TruncateU32(v: nat): (r: u32)
    ensures v < U32_LIMIT ==> r == v
    ensures (v - r) % U32_LIMIT == 0
  {
    v % U32_LIMIT
  }

  /** `u32::to_le_bytes`: least significant byte first. */
  function LE32(v: u32): (r: seq<byte>)
    ensures |r| == 4
    ensures r[0] == v % 0x100
  {
    [v % 0x100, (v / 0x100) % 0x100, (v / 0x1_0000) % 0x100, v / 0x100_0000]
  }

  /** `DataView.getUint32(off, true)`: the four bytes at `off`, little-endian. */
  function ReadLE32(s: seq<byte>, off: nat): u32
    requires off + 4 <= |s|
  {
    s[off] as int + 0x100 * (s[off + 1] as int) + 0x1_0000 * (s[off + 2] as int)
      + 0x100_0000 * (s[off + 3] as int)
  }

  /** Reading back the four bytes `LE32` wrote, wherever they sit in a
      message, yields the value that was written. */
  lemma ReadLE32OfLE32(v: u32, pre: seq<byte>, post: seq<byte>)
    ensures ReadLE32(pre + LE32(v) + post, |pre|) == v
  {
    var s := pre + LE32(v) + post;
    var o := |pre|;
    assert s[o] == v % 0x100;
    assert s[o + 1] == (v / 0x100) % 0x100;
    assert s[o + 2] == (v / 0x1_0000) % 0x100;
    assert s[o + 3] == v / 0x100_0000;
    var q1 := v / 0x100;
    var q2 := q1 / 0x100;
    var q3 := q2 / 0x100;
    assert v == q1 * 0x100 + v % 0x100;
    assert q1 == q2 * 0x100 + q1 % 0x100;
    assert q2 == q3 * 0x100 + q2 % 0x100;
    assert q2 == v / 0x1_0000;
    assert q3 == v / 0x100_0000;
  }
}
