/** Byte buffers and the 16/32-bit reads and writes of a JavaScript `DataView`. */
module Bytes {

  type byte = x: int | 0 <= x < 256

  /** `DataView.getUint16(i, littleEndian)`; the caller shows the read is in range. */
  function U16(buf: seq<byte>, i: nat, littleEndian: bool): (v: nat)
    requires i + 2 <= |buf|
    ensures v < 0x1_0000
  {
    var b0, b1 := buf[i] as int, buf[i + 1] as int;
    if littleEndian then b0 + 256 * b1 else 256 * b0 + b1
  }

  /** `DataView.getUint32(i, littleEndian)`. */
  function U32(buf: seq<byte>, i: nat, littleEndian: bool): (v: nat)
    requires i + 4 <= |buf|
  {
    if littleEndian then U16(buf, i, true) + 0x1_0000 * U16(buf, i + 2, true)
    else 0x1_0000 * U16(buf, i, false) + U16(buf, i + 2, false)
  }

  /** `DataView.setUint16(i, v, littleEndian)` on an immutable buffer: the
      written value reads back, and no other byte changes. */
  function SetU16(buf: seq<byte>, i: nat, v: nat, littleEndian: bool): (r: seq<byte>)
    requires i + 2 <= |buf|
    requires v < 0x1_0000
    ensures |r| == |buf|
    ensures U16(r, i, littleEndian) == v
    ensures forall k | 0 <= k < |buf| && k != i && k != i + 1 :: r[k] == buf[k]
  {
    if littleEndian then buf[i := v % 256][i + 1 := v / 256]
    else buf[i := v / 256][i + 1 := v % 256]
  }

  /** Writing the value a slot already holds leaves the buffer as it was. */
  lemma SetU16OfCurrentValue(buf: seq<byte>, i: nat, littleEndian: bool)
    requires i + 2 <= |buf|
    ensures SetU16(buf, i, U16(buf, i, littleEndian), littleEndian) == buf
  {
    var r := SetU16(buf, i, U16(buf, i, littleEndian), littleEndian);
    assert r[i] == buf[i] && r[i + 1] == buf[i + 1];
    assert forall k | 0 <= k < |buf| :: r[k] == buf[k];
  }

  /** Two buffers, both at least `n` bytes long, that hold the same bytes below `n`. */
  ghost predicate AgreeBelow(a: seq<byte>, b: seq<byte>, n: nat)
  {
    n <= |a| && n <= |b| && forall k | 0 <= k < n :: a[k] == b[k]
  }
}
