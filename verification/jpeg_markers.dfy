/** JPEG markers: the byte 0xFF followed by a code byte. Both the orientation
    lookup and the segment walk of src/util.ts test for them. */
module JpegMarkers {
  import opened Bytes

  const Soi: byte := 0xD8
  const Sos: byte := 0xDA
  const App0: byte := 0xE0
  const App1: byte := 0xE1

  /** The marker FF `code` at offset `k`. */
  predicate MarkerAt(buf: seq<byte>, k: nat, code: byte)
  {
    k + 1 < |buf| && buf[k] == 0xFF && buf[k + 1] == code
  }

  /** A segment, or the rest of a buffer, that begins with the given marker. */
  predicate IsSoi(s: seq<byte>) { MarkerAt(s, 0, Soi) }
  predicate IsSos(s: seq<byte>) { MarkerAt(s, 0, Sos) }
  predicate IsApp0(s: seq<byte>) { MarkerAt(s, 0, App0) }
  predicate IsApp1(s: seq<byte>) { MarkerAt(s, 0, App1) }
}
