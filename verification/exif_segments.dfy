/** EXIF segment storage of src/util.ts: `getExif` collects the APP1
    segments of a JPEG stream, and `insertExif` puts them into a freshly
    encoded stream.

    `getExif` walks the segment headers of section B.1 of ITU-T T.81: a
    two-byte marker, then a two-byte big-endian length that counts itself but
    not the marker. The walk is stated over suffixes of the buffer: the walk
    from offset `start` of a buffer is the walk of `buf[start..]`. */
module ExifSegments {
  import opened Bytes
  import opened JpegMarkers

  function Min(a: int, b: int): int
  {
    if a <= b then a else b
  }

  /** The segment length field read at offset 2; it counts its own two bytes. */
  function LengthField(s: seq<byte>): nat
    requires |s| >= 4
  {
    U16(s, 2, false)
  }

  /** Where the segment that starts `s` ends: after the marker and `length`
      bytes, clamped to the end of the buffer. */
  function SegmentEnd(s: seq<byte>): (end: nat)
    requires |s| >= 4
    ensures 2 <= end <= |s|
  {
    Min(LengthField(s) + 2, |s|)
  }

  function Flatten(segs: seq<seq<byte>>): seq<byte>
  {
    if segs == [] then [] else segs[0] + Flatten(segs[1..])
  }

  lemma {:induction false} FlattenAppend(a: seq<seq<byte>>, b: seq<seq<byte>>)
    ensures Flatten(a + b) == Flatten(a) + Flatten(b)
  {
    if a != [] {
      assert (a + b)[0] == a[0];
      assert (a + b)[1..] == a[1..] + b;
      FlattenAppend(a[1..], b);
      calc {
        Flatten(a + b);
        a[0] + Flatten(a[1..] + b);
        a[0] + (Flatten(a[1..]) + Flatten(b));
        (a[0] + Flatten(a[1..])) + Flatten(b);
      }
    } else {
      assert a + b == b;
    }
  }

  /** The `segments` array of `getExif`: the walk skips an SOI marker by two
      bytes, stops at an SOS marker or when fewer than four bytes remain, and
      otherwise cuts one segment and continues after it. The segments
      together are no longer than the buffer. */
  function Segments(s: seq<byte>): seq<seq<byte>>
    decreases |s|
  {
    if |s| < 4 || IsSos(s) then []
    else if IsSoi(s) then Segments(s[2..])
    else
      var end := SegmentEnd(s);
      [s[..end]] + Segments(s[end..])
  }

  /** The segments together are no longer than the buffer they were cut from. */
  lemma {:induction false} SegmentsFitBuffer(s: seq<byte>)
    ensures |Flatten(Segments(s))| <= |s|
    decreases |s|
  {
    if |s| < 4 || IsSos(s) {
    } else if IsSoi(s) {
      SegmentsFitBuffer(s[2..]);
    } else {
      var end := SegmentEnd(s);
      SegmentsFitBuffer(s[end..]);
      FlattenAppend([s[..end]], Segments(s[end..]));
      assert Flatten([s[..end]]) == s[..end];
    }
  }

  /** Every segment of the walk is at least two bytes long and starts with
      neither SOI nor SOS. */
  lemma {:induction false} SegmentsAreHeaders(s: seq<byte>)
    ensures forall k | 0 <= k < |Segments(s)| ::
      |Segments(s)[k]| >= 2 && !IsSos(Segments(s)[k]) && !IsSoi(Segments(s)[k])
    decreases |s|
  {
    if |s| < 4 || IsSos(s) {
    } else if IsSoi(s) {
      SegmentsAreHeaders(s[2..]);
    } else {
      SegmentsAreHeaders(s[SegmentEnd(s)..]);
    }
  }

  /** The `reduce` of `getExif`: the segments that begin FF E1, concatenated in order. */
  function App1Concat(segs: seq<seq<byte>>): seq<byte>
  {
    if segs == [] then []
    else App1Part(segs[0]) + App1Concat(segs[1..])
  }

  /** What one segment contributes to the concatenation. */
  function App1Part(seg: seq<byte>): seq<byte>
  {
    if IsApp1(seg) then seg else []
  }

  lemma {:induction false} App1ConcatAppend(a: seq<seq<byte>>, b: seq<seq<byte>>)
    ensures App1Concat(a + b) == App1Concat(a) + App1Concat(b)
  {
    if a != [] {
      var head, rest := App1Part(a[0]), App1Concat(a[1..]);
      assert (a + b)[0] == a[0];
      assert (a + b)[1..] == a[1..] + b;
      assert App1Concat(a + b) == head + App1Concat(a[1..] + b);
      App1ConcatAppend(a[1..], b);
      assert App1Concat(a) == head + rest;
    } else {
      assert a + b == b;
    }
  }

  /** No segment of the list begins FF E1. */
  predicate NoApp1(segs: seq<seq<byte>>)
  {
    forall k | 0 <= k < |segs| :: !IsApp1(segs[k])
  }

  lemma {:induction false} App1ConcatEmpty(segs: seq<seq<byte>>)
    requires forall k | 0 <= k < |segs| :: |segs[k]| >= 2
    ensures App1Concat(segs) == [] <==> NoApp1(segs)
  {
    if segs != [] {
      App1ConcatEmpty(segs[1..]);
      if !IsApp1(segs[0]) {
        forall k | 1 <= k < |segs|
          ensures IsApp1(segs[k]) <==> IsApp1(segs[1..][k - 1])
        {
        }
      }
    }
  }

  /** `getExif`: the APP1 segments found before the first SOS header,
      concatenated in stream order, so no longer than the input. */
  function GetExif(buf: seq<byte>): (exif: seq<byte>)
    ensures |exif| <= |buf|
  {
    SegmentsFitBuffer(buf);
    App1ConcatIsNoLonger(Segments(buf));
    App1Concat(Segments(buf))
  }

  /** The kept segments are no longer than all segments together. */
  lemma {:induction false} App1ConcatIsNoLonger(segs: seq<seq<byte>>)
    ensures |App1Concat(segs)| <= |Flatten(segs)|
  {
    if segs != [] {
      App1ConcatIsNoLonger(segs[1..]);
    }
  }

  /** The stored block is empty exactly when the walk meets no APP1 segment. */
  lemma GetExifEmptyIffNoApp1(buf: seq<byte>)
    ensures GetExif(buf) == [] <==> NoApp1(Segments(buf))
  {
    var segs := Segments(buf);
    SegmentsAreHeaders(buf);
    App1ConcatEmpty(segs);
    assert GetExif(buf) == App1Concat(segs);
  }

  /** The walk ends at an SOS marker or when fewer than four bytes remain. */
  lemma WalkEnds(s: seq<byte>)
    requires |s| < 4 || IsSos(s)
    ensures GetExif(s) == []
  {
  }

  /** One step of the walk past an SOI marker. */
  lemma SoiStep(s: seq<byte>)
    requires |s| >= 4 && IsSoi(s)
    ensures GetExif(s) == GetExif(s[2..])
  {
  }

  /** A leading SOI marker adds nothing to the stored block. */
  lemma SoiIsSkipped(s: seq<byte>)
    ensures GetExif([0xFF, 0xD8] + s) == GetExif(s)
  {
    var t := [0xFF, 0xD8] + s;
    if |s| >= 2 {
      SoiStep(t);
      assert t[2..] == s;
    } else {
      WalkEnds(t);
      WalkEnds(s);
    }
  }

  /** One step of the walk over a segment that is neither SOI nor SOS. */
  lemma SegmentStep(s: seq<byte>)
    requires |s| >= 4 && !IsSos(s) && !IsSoi(s)
    ensures var end := SegmentEnd(s);
      GetExif(s) == (if IsApp1(s[..end]) then s[..end] else []) + GetExif(s[end..])
  {
    var end := SegmentEnd(s);
    assert Segments(s) == [s[..end]] + Segments(s[end..]);
    App1ConcatAppend([s[..end]], Segments(s[end..]));
  }

  /** `SegmentStep` at offset `start` of a buffer, with the segment end
      computed as the loop of `getExif` computes it. */
  lemma SegmentStepAt(buf: seq<byte>, start: nat, end: nat)
    requires start + 3 < |buf|
    requires !(buf[start] == 0xFF && buf[start + 1] == 0xDA)
    requires !(buf[start] == 0xFF && buf[start + 1] == 0xD8)
    requires end == Min(start + (buf[start + 2] as int * 256 + buf[start + 3] as int) + 2, |buf|)
    ensures start < end <= |buf|
    ensures GetExif(buf[start..]) ==
      (if IsApp1(buf[start..end]) then buf[start..end] else []) + GetExif(buf[end..])
  {
    var rest := buf[start..];
    assert LengthField(rest) == buf[start + 2] as int * 256 + buf[start + 3] as int;
    assert start + SegmentEnd(rest) == end;
    SegmentStep(rest);
    assert rest[..SegmentEnd(rest)] == buf[start..end];
    assert rest[SegmentEnd(rest)..] == buf[end..];
  }

  /** Moving a piece from the walk still ahead to the block gathered so far. */
  lemma Accumulate(gathered: seq<byte>, piece: seq<byte>, ahead: seq<byte>, after: seq<byte>, total: seq<byte>)
    requires gathered + ahead == total && ahead == piece + after
    ensures (gathered + piece) + after == total
  {
  }

  /** One segment step of the loop below keeps its invariant. */
  lemma SegmentAccumulates(buf: seq<byte>, start: nat, end: nat, exif: seq<byte>)
    requires start + 3 < |buf|
    requires !(buf[start] == 0xFF && buf[start + 1] == 0xDA)
    requires !(buf[start] == 0xFF && buf[start + 1] == 0xD8)
    requires end == Min(start + (buf[start + 2] as int * 256 + buf[start + 3] as int) + 2, |buf|)
    requires exif + GetExif(buf[start..]) == GetExif(buf)
    ensures start + 2 <= end <= |buf|
    ensures (if buf[start] == 0xFF && buf[start + 1] == 0xE1 then exif + buf[start..end] else exif)
      + GetExif(buf[end..]) == GetExif(buf)
  {
    SegmentStepAt(buf, start, end);
    var segment := buf[start..end];
    if buf[start] == 0xFF && buf[start + 1] == 0xE1 {
      Accumulate(exif, segment, GetExif(buf[start..]), GetExif(buf[end..]), GetExif(buf));
    } else {
      Accumulate(exif, [], GetExif(buf[start..]), GetExif(buf[end..]), GetExif(buf));
    }
  }

  /** The loop of `getExif` over an index, with the segment cut and the
      concatenation done as it goes; it computes `GetExif`. */
  method ExtractExif(buf: seq<byte>) returns (exif: seq<byte>)
    ensures exif == GetExif(buf)
  {
    var start := 0;
    exif := [];
    assert buf[start..] == buf;
    assert exif + GetExif(buf) == GetExif(buf);
    while start + 3 < |buf|
      invariant start <= |buf|
      invariant exif + GetExif(buf[start..]) == GetExif(buf)
      decreases |buf| - start
    {
      if buf[start] == 0xFF && buf[start + 1] == 0xDA {
        WalkEnds(buf[start..]);
        break;
      }
      if buf[start] == 0xFF && buf[start + 1] == 0xD8 {
        SoiStep(buf[start..]);
        assert buf[start..][2..] == buf[start + 2..];
        assert exif + GetExif(buf[start + 2..]) == GetExif(buf);
        start := start + 2;
      } else {
        var offset := buf[start + 2] as int * 256 + buf[start + 3] as int;
        // the source assigns `end` unclamped; past the buffer the loop ends either way
        var end := Min(start + offset + 2, |buf|);
        var segment := buf[start..end];
        SegmentAccumulates(buf, start, end, exif);
        if segment[0] == 0xFF && segment[1] == 0xE1 {
          exif := exif + segment;
        }
        start := end;
      }
    }
    if start + 3 >= |buf| {
      WalkEnds(buf[start..]);
    }
  }

  // ---------------------------------------------------------------------------
  // The walk stops at the first SOS header

  /** `pre` is walked exactly: it is a run of SOI markers and whole segments
      whose headers lie inside `pre`, none of them SOS. */
  ghost predicate WalkedExactly(pre: seq<byte>)
    decreases |pre|
  {
    || pre == []
    || (IsSoi(pre) && WalkedExactly(pre[2..]))
    || (&& |pre| >= 4 && !IsSos(pre) && !IsSoi(pre)
        && LengthField(pre) + 2 <= |pre|
        && WalkedExactly(pre[LengthField(pre) + 2..]))
  }

  /** The walk over `pre + tail` skips an SOI marker at the head of `pre`. */
  lemma SkipSoiOfPrefix(pre: seq<byte>, tail: seq<byte>)
    requires IsSoi(pre) && |pre + tail| >= 4
    ensures Segments(pre + tail) == Segments(pre[2..] + tail)
  {
    var x := pre + tail;
    assert x[..2] == pre[..2];
    assert x[2..] == pre[2..] + tail;
  }

  /** The walk over `pre + tail` cuts a segment lying inside `pre` first. */
  lemma CutSegmentOfPrefix(pre: seq<byte>, tail: seq<byte>)
    requires |pre| >= 4 && !IsSos(pre) && !IsSoi(pre) && LengthField(pre) + 2 <= |pre|
    ensures var end := LengthField(pre) + 2;
      Segments(pre + tail) == [pre[..end]] + Segments(pre[end..] + tail)
  {
    var x := pre + tail;
    var end := LengthField(pre) + 2;
    assert x[..4] == pre[..4];
    assert LengthField(x) == LengthField(pre);
    assert x[..end] == pre[..end];
    assert x[end..] == pre[end..] + tail;
  }

  lemma {:induction false} SegmentsAfterWalkedPrefix(pre: seq<byte>, t: seq<byte>, u: seq<byte>)
    requires WalkedExactly(pre)
    ensures Segments(pre + ([0xFF, 0xDA] + t)) == Segments(pre + ([0xFF, 0xDA] + u))
    decreases |pre|
  {
    var sos: seq<byte> := [0xFF, 0xDA];
    if pre == [] {
      assert pre + (sos + t) == sos + t && pre + (sos + u) == sos + u;
      assert IsSos(sos + t) && IsSos(sos + u);
    } else if IsSoi(pre) && WalkedExactly(pre[2..]) {
      SkipSoiOfPrefix(pre, sos + t);
      SkipSoiOfPrefix(pre, sos + u);
      SegmentsAfterWalkedPrefix(pre[2..], t, u);
    } else {
      CutSegmentOfPrefix(pre, sos + t);
      CutSegmentOfPrefix(pre, sos + u);
      SegmentsAfterWalkedPrefix(pre[LengthField(pre) + 2..], t, u);
    }
  }

  /** Once the walk reaches an SOS header, nothing after it (the entropy-coded
      image data) can change the stored block. */
  lemma ScanStopsAtSos(pre: seq<byte>, t: seq<byte>, u: seq<byte>)
    requires WalkedExactly(pre)
    ensures GetExif(pre + [0xFF, 0xDA] + t) == GetExif(pre + [0xFF, 0xDA] + u)
  {
    SegmentsAfterWalkedPrefix(pre, t, u);
    assert pre + [0xFF, 0xDA] + t == pre + ([0xFF, 0xDA] + t);
    assert pre + [0xFF, 0xDA] + u == pre + ([0xFF, 0xDA] + u);
  }

  // ---------------------------------------------------------------------------
  // insertExif

  /** `insertExif`. When bytes 2-3 are not FF E0 the buffer is returned as it
      is. Otherwise the output is SOI, the stored block, and the bytes after
      the APP0 segment: the APP0 segment is replaced, not kept. With fewer
      than six bytes the APP0 length is NaN, and `slice(NaN)` keeps the whole
      buffer. */
  function InsertExif(buf: seq<byte>, exif: seq<byte>): (r: seq<byte>)
    ensures !(|buf| >= 4 && IsApp0(buf[2..])) ==> r == buf
    ensures |buf| >= 4 && IsApp0(buf[2..]) ==> |r| >= 2 + |exif|
    ensures |buf| >= 4 && IsApp0(buf[2..]) ==> r[..2] == [0xFF, 0xD8] && r[2..2 + |exif|] == exif
    ensures |buf| >= 6 && IsApp0(buf[2..]) ==>
      r[2 + |exif|..] == buf[Min(4 + U16(buf, 4, false), |buf|)..]
    ensures 4 <= |buf| < 6 && IsApp0(buf[2..]) ==> r == [0xFF, 0xD8] + exif + buf
  {
    if |buf| < 4 || buf[2] != 0xFF || buf[3] != 0xE0 then buf
    else
      var cut := if |buf| < 6 then 0 else Min(4 + U16(buf, 4, false), |buf|);
      [0xFF, 0xD8] + exif + buf[cut..]
  }

  /** Inserting drops the APP0 segment of the fresh stream: the output is as
      long as the input plus the stored block minus the L + 2 bytes of APP0,
      where L is the big-endian APP0 length. */
  lemma InsertedLength(buf: seq<byte>, exif: seq<byte>)
    requires |buf| >= 6 && IsApp0(buf[2..])
    requires 4 + U16(buf, 4, false) <= |buf|
    ensures |InsertExif(buf, exif)| == 2 + |exif| + (|buf| - 4 - U16(buf, 4, false))
  {
  }

  /** A complete APP1 segment: marker FF E1 and a length field that matches
      the segment's size. */
  predicate WellFormedApp1(seg: seq<byte>)
  {
    |seg| >= 4 && IsApp1(seg) && LengthField(seg) + 2 == |seg|
  }

  predicate AllWellFormedApp1(segs: seq<seq<byte>>)
  {
    forall k | 0 <= k < |segs| :: WellFormedApp1(segs[k])
  }

  lemma AllWellFormedApp1Tail(segs: seq<seq<byte>>)
    requires segs != [] && AllWellFormedApp1(segs)
    ensures WellFormedApp1(segs[0]) && AllWellFormedApp1(segs[1..])
  {
    forall k | 0 <= k < |segs| - 1
      ensures WellFormedApp1(segs[1..][k])
    {
      assert segs[1..][k] == segs[k + 1];
    }
  }

  lemma GetExifOfWellFormedSegment(seg: seq<byte>, rest: seq<byte>)
    requires WellFormedApp1(seg)
    ensures GetExif(seg + rest) == seg + GetExif(rest)
  {
    var s := seg + rest;
    assert s[..4] == seg[..4];
    assert SegmentEnd(s) == |seg|;
    assert s[..|seg|] == seg;
    assert s[|seg|..] == rest;
    SegmentStep(s);
  }

  lemma PrefixStep(head: seq<byte>, tail: seq<byte>, rest: seq<byte>, x: seq<byte>)
    requires x == head + tail
    requires GetExif(tail + rest) == tail + GetExif(rest)
    requires GetExif(head + (tail + rest)) == head + GetExif(tail + rest)
    ensures GetExif(x + rest) == x + GetExif(rest)
  {
    assert x + rest == head + (tail + rest);
  }

  lemma {:induction false} GetExifOfWellFormedPrefix(segs: seq<seq<byte>>, rest: seq<byte>)
    requires AllWellFormedApp1(segs)
    ensures GetExif(Flatten(segs) + rest) == Flatten(segs) + GetExif(rest)
  {
    if segs == [] {
      assert Flatten(segs) + rest == rest;
    } else {
      AllWellFormedApp1Tail(segs);
      var head, tail := segs[0], Flatten(segs[1..]);
      GetExifOfWellFormedPrefix(segs[1..], rest);
      GetExifOfWellFormedSegment(head, tail + rest);
      PrefixStep(head, tail, rest, Flatten(segs));
    }
  }

  /** Extracting from a stream whose stored block was inserted recovers the
      block first, followed by whatever APP1 segments the fresh stream had
      after its APP0 segment. */
  lemma ReinsertedExifIsExtractedAgain(buf: seq<byte>, segs: seq<seq<byte>>)
    requires |buf| >= 6 && IsApp0(buf[2..])
    requires 4 + U16(buf, 4, false) <= |buf|
    requires AllWellFormedApp1(segs)
    ensures GetExif(InsertExif(buf, Flatten(segs))) == Flatten(segs) + GetExif(buf[4 + U16(buf, 4, false)..])
  {
    var tail := buf[4 + U16(buf, 4, false)..];
    var block := Flatten(segs) + tail;
    var inserted := InsertExif(buf, Flatten(segs));
    assert inserted == [0xFF, 0xD8] + block;
    SoiIsSkipped(block);
    GetExifOfWellFormedPrefix(segs, tail);
  }

  /** When the segment right after SOI is a well-formed APP1 segment ending
      at `n`, the stored block starts with it, and putting the block into an
      encoded stream reproduces the first `n` bytes of the original. */
  lemma {:induction false} LeadingApp1IsReinserted(buf: seq<byte>, n: nat, encoded: seq<byte>)
    requires 2 <= n <= |buf| && IsSoi(buf) && WellFormedApp1(buf[2..n])
    requires |encoded| >= 4 && IsApp0(encoded[2..])
    ensures |GetExif(buf)| >= n - 2
    ensures AgreeBelow(buf, InsertExif(encoded, GetExif(buf)), n)
  {
    var seg, rest := buf[2..n], buf[n..];
    assert buf == [0xFF, 0xD8] + (seg + rest);
    SoiIsSkipped(seg + rest);
    GetExifOfWellFormedSegment(seg, rest);
    var exif := GetExif(buf);
    assert exif[..|seg|] == seg;
    var out := InsertExif(encoded, exif);
    assert out[2..2 + |exif|] == exif;
    forall k | 0 <= k < n
      ensures buf[k] == out[k]
    {
      if k >= 2 {
        assert out[k] == out[2..2 + |exif|][k - 2] == seg[k - 2];
      } else {
        assert out[k] == out[..2][k];
      }
    }
  }

  /** Being a well-formed APP1 segment depends on the length and the first
      four bytes only. */
  lemma WellFormedApp1ByHeader(a: seq<byte>, b: seq<byte>)
    requires WellFormedApp1(a) && |b| == |a| && a[..4] == b[..4]
    ensures WellFormedApp1(b)
  {
    assert a[0] == a[..4][0] && a[1] == a[..4][1] && a[2] == a[..4][2] && a[3] == a[..4][3];
  }
}
