/** EXIF orientation handling of src/util.ts: `getStringFromCharCode`,
    `resetAndGetOrientation` and `parseOrientation`.

    The orientation reset reads the buffer through a `DataView`, whose reads
    throw a RangeError past the end of the buffer; the source catches that
    error and answers 1. The model splits the operation into a pure lookup
    (every read, ending in `OutOfRange`, `Missing` or the located value slot)
    and the single 16-bit write the source performs last. */
module Orientation {
  import opened Wrappers
  import opened Bytes
  import opened JpegMarkers

  const OrientationTag: nat := 0x0112
  const LittleEndianMark: nat := 0x4949
  const BigEndianMark: nat := 0x4D4D
  const TiffMagic: nat := 0x002A
  /** "Exif" in ASCII. */
  const ExifIdentifier: seq<byte> := [0x45, 0x78, 0x69, 0x66]

  /** `getStringFromCharCode`: the `length` bytes from `start`, one character each. */
  function StringFromCharCode(buf: seq<byte>, start: nat, length: nat): (s: string)
    requires start + length <= |buf|
    ensures |s| == length
    ensures forall k | 0 <= k < length :: s[k] as int == buf[start + k]
    decreases length
  {
    if length == 0 then "" else [buf[start] as char] + StringFromCharCode(buf, start + 1, length - 1)
  }

  /** `app1` is the first FF E1 pair at offset 2 or later. */
  ghost predicate IsFirstApp1(buf: seq<byte>, app1: nat)
  {
    2 <= app1 && MarkerAt(buf, app1, App1) && forall k | 2 <= k < app1 :: !MarkerAt(buf, k, App1)
  }

  /** The byte-by-byte search for the first FF E1 pair from `offset`; it is a
      plain search, not a walk over segment lengths. */
  function FindApp1From(buf: seq<byte>, offset: nat): (r: Option<nat>)
    ensures r.Some? ==> offset <= r.value && MarkerAt(buf, r.value, App1)
    ensures r.Some? ==> forall k | offset <= k < r.value :: !MarkerAt(buf, k, App1)
    ensures r.None? ==> forall k | offset <= k :: !MarkerAt(buf, k, App1)
    decreases |buf| - offset
  {
    if offset + 1 >= |buf| then None
    else if buf[offset] == 0xFF && buf[offset + 1] == 0xE1 then Some(offset)
    else FindApp1From(buf, offset + 1)
  }

  /** The outcome of the reads: a read past the end, a failed check, or the
      place that was looked for. */
  datatype Lookup<T> = OutOfRange | Missing | Located(at: T)

  /** The first image file directory and the byte order the TIFF header declares. */
  datatype Ifd = Ifd(start: nat, littleEndian: bool)

  /** The two bytes holding the orientation value, in the declared byte order. */
  datatype Slot = Slot(offset: nat, littleEndian: bool)

  /** The header checks in the order of the source: SOI, the first FF E1
      pair, "Exif" at app1+4, the byte-order mark at app1+10, the TIFF magic,
      and a first-IFD offset of at least 8. */
  function LocateIfd(buf: seq<byte>): (r: Lookup<Ifd>)
    ensures r.Located? ==> IsSoi(buf) && FindApp1From(buf, 2).Some?
    ensures r.Located? ==> FindApp1From(buf, 2).value + 18 <= |buf| && FindApp1From(buf, 2).value + 18 <= r.at.start
    ensures r.OutOfRange? ==> |buf| < 2 || (FindApp1From(buf, 2).Some? && FindApp1From(buf, 2).value + 18 > |buf|)
  {
    if |buf| == 0 then OutOfRange
    else if buf[0] != 0xFF then Missing
    else if |buf| == 1 then OutOfRange
    else if buf[1] != 0xD8 then Missing
    else
      match FindApp1From(buf, 2)
      case None => Missing
      case Some(app1) =>
        var tiff := app1 + 10;
        if |buf| < app1 + 8 then OutOfRange
        else if StringFromCharCode(buf, app1 + 4, 4) != "Exif" then Missing
        else if |buf| < tiff + 2 then OutOfRange
        else
          var endianness := U16(buf, tiff, false);
          var littleEndian := endianness == LittleEndianMark;
          if !littleEndian && endianness != BigEndianMark then Missing
          else if |buf| < tiff + 4 then OutOfRange
          else if U16(buf, tiff + 2, littleEndian) != TiffMagic then Missing
          else if |buf| < tiff + 8 then OutOfRange
          else
            var firstIfdOffset := U32(buf, tiff + 4, littleEndian);
            if firstIfdOffset < 8 then Missing
            else Located(Ifd(tiff + firstIfdOffset, littleEndian))
  }

  /** Offset of the `i`-th 12-byte entry of the directory. */
  function EntryOffset(ifd: Ifd, i: nat): nat
  {
    ifd.start + 2 + 12 * i
  }

  /** The `i`-th entry can be read and carries the Orientation tag. */
  predicate OrientationEntryAt(buf: seq<byte>, ifd: Ifd, i: nat)
  {
    EntryOffset(ifd, i) + 2 <= |buf| && U16(buf, EntryOffset(ifd, i), ifd.littleEndian) == OrientationTag
  }

  /** The linear scan of entries `i..count` for the Orientation tag; the value
      sits 8 bytes into the entry, and the scan stops at the first match. */
  function ScanEntries(buf: seq<byte>, ifd: Ifd, count: nat, i: nat): (r: Lookup<Slot>)
    requires i <= count
    ensures r.Located? ==> r.at.littleEndian == ifd.littleEndian && r.at.offset + 2 <= |buf|
    ensures r.Located? ==>
      exists j :: i <= j < count && r.at.offset == EntryOffset(ifd, j) + 8 && OrientationEntryAt(buf, ifd, j)
    decreases count - i
  {
    if i == count then Missing
    else
      var entry := EntryOffset(ifd, i);
      if |buf| < entry + 2 then OutOfRange
      else if U16(buf, entry, ifd.littleEndian) == OrientationTag then
        if |buf| < entry + 10 then OutOfRange else Located(Slot(entry + 8, ifd.littleEndian))
      else ScanEntries(buf, ifd, count, i + 1)
  }

  /** Every read of `resetAndGetOrientation`, up to the value slot it overwrites. */
  function LocateOrientation(buf: seq<byte>): (r: Lookup<Slot>)
    ensures r.Located? ==> r.at.offset + 2 <= |buf|
  {
    match LocateIfd(buf)
    case OutOfRange => OutOfRange
    case Missing => Missing
    case Located(ifd) =>
      if |buf| < ifd.start + 2 then OutOfRange
      else ScanEntries(buf, ifd, U16(buf, ifd.start, ifd.littleEndian), 0)
  }

  /** The returned code (`None` for `undefined`) and the buffer after the call. */
  datatype Reset = Reset(orientation: Option<nat>, buffer: seq<byte>)

  /** `b` differs from `a` at most in the two bytes at `p`. */
  ghost predicate ChangedOnlyAt(a: seq<byte>, b: seq<byte>, p: nat)
  {
    |a| == |b| && p + 2 <= |a| && forall k | 0 <= k < |a| && k != p && k != p + 1 :: a[k] == b[k]
  }

  /** `resetAndGetOrientation`: returns the orientation value and writes 1 in
      its place. The buffer keeps its length; it changes only when a value
      other than 1 was found, and then only in the two bytes of the slot,
      which afterwards read 1 in the declared byte order. */
  function ResetAndGetOrientation(buf: seq<byte>): (r: Reset)
    ensures |r.buffer| == |buf|
    ensures r.orientation.None? ==> r.buffer == buf
    ensures r.buffer != buf ==> r.orientation.Some? && r.orientation.value != 1
    ensures r.buffer == buf ||
      exists p, littleEndian :: ChangedOnlyAt(buf, r.buffer, p)
        && r.orientation == Some(U16(buf, p, littleEndian)) && U16(r.buffer, p, littleEndian) == 1
  {
    match LocateOrientation(buf)
    case OutOfRange => Reset(Some(1), buf)
    case Missing => Reset(None, buf)
    case Located(slot) =>
      WriteOneAt(buf, slot);
      Reset(Some(U16(buf, slot.offset, slot.littleEndian)), SetU16(buf, slot.offset, 1, slot.littleEndian))
  }

  /** Writing 1 into a slot changes only its two bytes, and changes the
      buffer exactly when the slot did not already read 1. */
  lemma WriteOneAt(buf: seq<byte>, slot: Slot)
    requires slot.offset + 2 <= |buf|
    ensures var written := SetU16(buf, slot.offset, 1, slot.littleEndian);
      && ChangedOnlyAt(buf, written, slot.offset)
      && (written == buf <==> U16(buf, slot.offset, slot.littleEndian) == 1)
  {
    if U16(buf, slot.offset, slot.littleEndian) == 1 {
      SetU16OfCurrentValue(buf, slot.offset, slot.littleEndian);
    }
  }

  // ---------------------------------------------------------------------------
  // The header, stated over the bytes directly

  /** A well-formed EXIF header whose first IFD is `ifd`: SOI, `app1` the first
      FF E1 pair, "Exif" at app1+4, a byte-order mark at app1+10 matching
      `ifd.littleEndian`, the TIFF magic, and a first-IFD offset of at least 8. */
  ghost predicate ExifHeader(buf: seq<byte>, app1: nat, ifd: Ifd)
  {
    var tiff := app1 + 10;
    && IsSoi(buf)
    && IsFirstApp1(buf, app1)
    && tiff + 8 <= |buf|
    && buf[app1 + 4..app1 + 8] == ExifIdentifier
    && (if ifd.littleEndian then buf[tiff] == 0x49 && buf[tiff + 1] == 0x49
        else buf[tiff] == 0x4D && buf[tiff + 1] == 0x4D)
    && U16(buf, tiff + 2, ifd.littleEndian) == TiffMagic
    && U32(buf, tiff + 4, ifd.littleEndian) >= 8
    && ifd.start == tiff + U32(buf, tiff + 4, ifd.littleEndian)
  }

  /** All header bytes the checks look at lie inside the buffer. */
  ghost predicate HeaderReadable(buf: seq<byte>)
  {
    |buf| >= 2 && (IsSoi(buf) ==> forall a: nat | IsFirstApp1(buf, a) :: a + 18 <= |buf|)
  }

  lemma FirstApp1Unique(buf: seq<byte>, a: nat, b: nat)
    requires IsFirstApp1(buf, a) && IsFirstApp1(buf, b)
    ensures a == b
  {
  }

  lemma FindApp1IsFirst(buf: seq<byte>)
    ensures FindApp1From(buf, 2).Some? ==> IsFirstApp1(buf, FindApp1From(buf, 2).value)
    ensures FindApp1From(buf, 2).None? ==> forall a :: !IsFirstApp1(buf, a)
  {
  }

  lemma ExifStringIsIdentifier(buf: seq<byte>, p: nat)
    requires p + 4 <= |buf|
    ensures StringFromCharCode(buf, p, 4) == "Exif" <==> buf[p..p + 4] == ExifIdentifier
  {
    var s := StringFromCharCode(buf, p, 4);
    assert buf[p..p + 4] == [buf[p], buf[p + 1], buf[p + 2], buf[p + 3]];
    assert s[0] as int == buf[p] && s[1] as int == buf[p + 1];
    assert s[2] as int == buf[p + 2] && s[3] as int == buf[p + 3];
    if buf[p..p + 4] == ExifIdentifier {
      assert s == "Exif";
    }
  }

  /** The header checks accept exactly the well-formed EXIF headers, and
      locate the first IFD where the header says it is. */
  lemma {:induction false} LocateIfdMatchesHeader(buf: seq<byte>, ifd: Ifd)
    ensures LocateIfd(buf) == Located(ifd) <==> exists app1 :: ExifHeader(buf, app1, ifd)
  {
    if LocateIfd(buf) == Located(ifd) {
      LocatedIfdHasHeader(buf, ifd);
    }
    if app1: nat :| ExifHeader(buf, app1, ifd) {
      HeaderLocatesIfd(buf, app1, ifd);
    }
  }

  lemma LocatedIfdHasHeader(buf: seq<byte>, ifd: Ifd)
    requires LocateIfd(buf) == Located(ifd)
    ensures ExifHeader(buf, FindApp1From(buf, 2).value, ifd)
  {
    FindApp1IsFirst(buf);
    ExifStringIsIdentifier(buf, FindApp1From(buf, 2).value + 4);
  }

  lemma HeaderLocatesIfd(buf: seq<byte>, app1: nat, ifd: Ifd)
    requires ExifHeader(buf, app1, ifd)
    ensures LocateIfd(buf) == Located(ifd)
  {
    FindApp1IsFirst(buf);
    FirstApp1Unique(buf, app1, FindApp1From(buf, 2).value);
    ExifStringIsIdentifier(buf, app1 + 4);
    var tiff := app1 + 10;
    if ifd.littleEndian {
      assert U16(buf, tiff, false) == LittleEndianMark;
    } else {
      assert U16(buf, tiff, false) == BigEndianMark;
    }
  }

  /** When every header byte is inside the buffer, the header checks cannot
      run past its end. */
  lemma {:induction false} ReadableHeaderIsInRange(buf: seq<byte>)
    requires HeaderReadable(buf)
    ensures !LocateIfd(buf).OutOfRange?
  {
    FindApp1IsFirst(buf);
  }

  // ---------------------------------------------------------------------------
  // The entry scan, stated over the bytes directly

  lemma {:induction false} ScanFindsFirstTagged(buf: seq<byte>, ifd: Ifd, count: nat, i: nat, k: nat)
    requires k <= i < count
    requires EntryOffset(ifd, i) + 10 <= |buf|
    requires OrientationEntryAt(buf, ifd, i)
    requires forall j | k <= j < i :: !OrientationEntryAt(buf, ifd, j)
    ensures ScanEntries(buf, ifd, count, k) == Located(Slot(EntryOffset(ifd, i) + 8, ifd.littleEndian))
    decreases i - k
  {
    if k < i {
      assert !OrientationEntryAt(buf, ifd, k);
      ScanFindsFirstTagged(buf, ifd, count, i, k + 1);
    }
  }

  lemma {:induction false} ScanMissesUntagged(buf: seq<byte>, ifd: Ifd, count: nat, k: nat)
    requires k <= count
    requires EntryOffset(ifd, count) <= |buf|
    requires forall j | k <= j < count :: !OrientationEntryAt(buf, ifd, j)
    ensures ScanEntries(buf, ifd, count, k) == Missing
    decreases count - k
  {
    if k < count {
      assert !OrientationEntryAt(buf, ifd, k);
      ScanMissesUntagged(buf, ifd, count, k + 1);
    }
  }

  lemma {:induction false} ScanRunsOut(buf: seq<byte>, ifd: Ifd, count: nat, i: nat, k: nat)
    requires k <= i < count
    requires EntryOffset(ifd, i) + 2 > |buf|
    requires forall j | k <= j < i :: !OrientationEntryAt(buf, ifd, j)
    ensures ScanEntries(buf, ifd, count, k) == OutOfRange
    decreases i - k
  {
    if k < i {
      assert !OrientationEntryAt(buf, ifd, k);
      assert EntryOffset(ifd, k) + 2 <= EntryOffset(ifd, i);
      ScanRunsOut(buf, ifd, count, i, k + 1);
    }
  }

  lemma {:induction false} ScanValueRunsOut(buf: seq<byte>, ifd: Ifd, count: nat, i: nat, k: nat)
    requires k <= i < count
    requires OrientationEntryAt(buf, ifd, i) && EntryOffset(ifd, i) + 10 > |buf|
    requires forall j | k <= j < i :: !OrientationEntryAt(buf, ifd, j)
    ensures ScanEntries(buf, ifd, count, k) == OutOfRange
    decreases i - k
  {
    if k < i {
      assert !OrientationEntryAt(buf, ifd, k);
      ScanValueRunsOut(buf, ifd, count, i, k + 1);
    }
  }

  /** The number of entries the IFD declares. */
  function EntryCount(buf: seq<byte>, ifd: Ifd): nat
    requires ifd.start + 2 <= |buf|
  {
    U16(buf, ifd.start, ifd.littleEndian)
  }

  // ---------------------------------------------------------------------------
  // Properties of the reset

  /** With a well-formed header, the first entry tagged 0x0112 is the one
      reset: its old value is returned, it reads 1 afterwards in the declared
      byte order, and no other byte of the buffer changes. */
  lemma {:induction false} ResetWritesFirstOrientationEntry(buf: seq<byte>, app1: nat, ifd: Ifd, i: nat)
    requires ExifHeader(buf, app1, ifd)
    requires ifd.start + 2 <= |buf| && i < EntryCount(buf, ifd)
    requires EntryOffset(ifd, i) + 10 <= |buf|
    requires OrientationEntryAt(buf, ifd, i)
    requires forall j | 0 <= j < i :: !OrientationEntryAt(buf, ifd, j)
    ensures var p := EntryOffset(ifd, i) + 8;
      && ResetAndGetOrientation(buf).orientation == Some(U16(buf, p, ifd.littleEndian))
      && U16(ResetAndGetOrientation(buf).buffer, p, ifd.littleEndian) == 1
      && ChangedOnlyAt(buf, ResetAndGetOrientation(buf).buffer, p)
  {
    HeaderLocatesIfd(buf, app1, ifd);
    FirstTaggedIsReset(buf, ifd, i);
  }

  lemma FirstTaggedIsReset(buf: seq<byte>, ifd: Ifd, i: nat)
    requires LocateIfd(buf) == Located(ifd)
    requires ifd.start + 2 <= |buf| && i < EntryCount(buf, ifd)
    requires EntryOffset(ifd, i) + 10 <= |buf|
    requires OrientationEntryAt(buf, ifd, i)
    requires forall j | 0 <= j < i :: !OrientationEntryAt(buf, ifd, j)
    ensures var p := EntryOffset(ifd, i) + 8;
      && ResetAndGetOrientation(buf).orientation == Some(U16(buf, p, ifd.littleEndian))
      && U16(ResetAndGetOrientation(buf).buffer, p, ifd.littleEndian) == 1
      && ChangedOnlyAt(buf, ResetAndGetOrientation(buf).buffer, p)
  {
    var slot := Slot(EntryOffset(ifd, i) + 8, ifd.littleEndian);
    LocateScansIfd(buf, ifd);
    ScanFindsFirstTagged(buf, ifd, EntryCount(buf, ifd), i, 0);
    LocatedSlotIsReset(buf, slot);
    WriteOneAt(buf, slot);
  }

  /** Once the header checks pass, the lookup is the scan of the directory. */
  lemma LocateScansIfd(buf: seq<byte>, ifd: Ifd)
    requires LocateIfd(buf) == Located(ifd) && ifd.start + 2 <= |buf|
    ensures LocateOrientation(buf) == ScanEntries(buf, ifd, EntryCount(buf, ifd), 0)
  {
  }

  /** The located slot is the one the reset reads and overwrites. */
  lemma LocatedSlotIsReset(buf: seq<byte>, slot: Slot)
    requires LocateOrientation(buf) == Located(slot)
    ensures ResetAndGetOrientation(buf) == Reset(Some(U16(buf, slot.offset, slot.littleEndian)),
      SetU16(buf, slot.offset, 1, slot.littleEndian))
  {
  }

  /** A failed header check, with every header byte inside the buffer, gives
      "no value" and leaves the buffer untouched. */
  lemma {:induction false} FailedHeaderGivesNoOrientation(buf: seq<byte>)
    requires HeaderReadable(buf)
    requires forall app1, ifd :: !ExifHeader(buf, app1, ifd)
    ensures ResetAndGetOrientation(buf) == Reset(None, buf)
  {
    ReadableHeaderIsInRange(buf);
    if LocateIfd(buf).Located? {
      var ifd := LocateIfd(buf).at;
      LocateIfdMatchesHeader(buf, ifd);
      assert false;
    }
  }

  /** No byte changes unless the header is well formed. */
  lemma {:induction false} ResetNeedsExifHeader(buf: seq<byte>)
    requires forall app1, ifd :: !ExifHeader(buf, app1, ifd)
    ensures ResetAndGetOrientation(buf).buffer == buf
  {
    if LocateIfd(buf).Located? {
      var ifd := LocateIfd(buf).at;
      LocateIfdMatchesHeader(buf, ifd);
      assert false;
    }
  }

  /** A well-formed header whose directory holds no Orientation entry gives
      "no value", not 1. */
  lemma {:induction false} AbsentTagGivesNoOrientation(buf: seq<byte>, app1: nat, ifd: Ifd)
    requires ExifHeader(buf, app1, ifd)
    requires ifd.start + 2 <= |buf|
    requires EntryOffset(ifd, EntryCount(buf, ifd)) <= |buf|
    requires forall j | 0 <= j < EntryCount(buf, ifd) :: !OrientationEntryAt(buf, ifd, j)
    ensures ResetAndGetOrientation(buf) == Reset(None, buf)
  {
    LocateIfdMatchesHeader(buf, ifd);
    ScanMissesUntagged(buf, ifd, EntryCount(buf, ifd), 0);
  }

  /** A buffer cut off inside the "Exif" literal reads as orientation 1. */
  lemma {:induction false} TruncatedExifReadsAsIdentity(buf: seq<byte>, app1: nat)
    requires IsSoi(buf) && IsFirstApp1(buf, app1)
    requires |buf| < app1 + 8
    ensures ResetAndGetOrientation(buf) == Reset(Some(1), buf)
  {
    FindApp1IsFirst(buf);
    FirstApp1Unique(buf, app1, FindApp1From(buf, 2).value);
  }

  /** A directory entry that lies past the end, reached before any
      Orientation entry, reads as orientation 1. */
  lemma {:induction false} TruncatedIfdReadsAsIdentity(buf: seq<byte>, app1: nat, ifd: Ifd, i: nat)
    requires ExifHeader(buf, app1, ifd)
    requires ifd.start + 2 <= |buf| && i < EntryCount(buf, ifd)
    requires EntryOffset(ifd, i) + 2 > |buf|
    requires forall j | 0 <= j < i :: !OrientationEntryAt(buf, ifd, j)
    ensures ResetAndGetOrientation(buf) == Reset(Some(1), buf)
  {
    LocateIfdMatchesHeader(buf, ifd);
    ScanRunsOut(buf, ifd, EntryCount(buf, ifd), i, 0);
  }

  /** A buffer too short for the SOI marker makes one of the first two reads fail. */
  lemma ShortBufferReadsAsIdentity()
    ensures ResetAndGetOrientation([]) == Reset(Some(1), [])
    ensures ResetAndGetOrientation([0xFF]) == Reset(Some(1), [0xFF])
  {
  }

  /** A buffer cut off inside the TIFF header, after every check it does
      hold has passed, reads as orientation 1. */
  lemma {:induction false} TruncatedHeaderReadsAsIdentity(buf: seq<byte>, app1: nat)
    requires IsSoi(buf) && IsFirstApp1(buf, app1)
    requires app1 + 8 <= |buf| < app1 + 18
    requires buf[app1 + 4..app1 + 8] == ExifIdentifier
    requires app1 + 12 <= |buf| ==>
      U16(buf, app1 + 10, false) == LittleEndianMark || U16(buf, app1 + 10, false) == BigEndianMark
    requires app1 + 14 <= |buf| ==>
      U16(buf, app1 + 12, U16(buf, app1 + 10, false) == LittleEndianMark) == TiffMagic
    ensures ResetAndGetOrientation(buf) == Reset(Some(1), buf)
  {
    FindApp1IsFirst(buf);
    FirstApp1Unique(buf, app1, FindApp1From(buf, 2).value);
    ExifStringIsIdentifier(buf, app1 + 4);
    assert LocateIfd(buf) == OutOfRange;
  }

  /** A well-formed header whose directory starts too close to the end to
      hold the entry count reads as orientation 1. */
  lemma {:induction false} TruncatedCountReadsAsIdentity(buf: seq<byte>, app1: nat, ifd: Ifd)
    requires ExifHeader(buf, app1, ifd)
    requires |buf| < ifd.start + 2
    ensures ResetAndGetOrientation(buf) == Reset(Some(1), buf)
  {
    HeaderLocatesIfd(buf, app1, ifd);
  }

  /** A first Orientation entry whose value lies past the end reads as
      orientation 1, and nothing is written. */
  lemma {:induction false} TruncatedValueReadsAsIdentity(buf: seq<byte>, app1: nat, ifd: Ifd, i: nat)
    requires ExifHeader(buf, app1, ifd)
    requires ifd.start + 2 <= |buf| && i < EntryCount(buf, ifd)
    requires OrientationEntryAt(buf, ifd, i) && EntryOffset(ifd, i) + 10 > |buf|
    requires forall j | 0 <= j < i :: !OrientationEntryAt(buf, ifd, j)
    ensures ResetAndGetOrientation(buf) == Reset(Some(1), buf)
  {
    HeaderLocatesIfd(buf, app1, ifd);
    ScanValueRunsOut(buf, ifd, EntryCount(buf, ifd), i, 0);
    LocateScansIfd(buf, ifd);
  }

  // ---------------------------------------------------------------------------
  // Idempotence

  lemma {:induction false} FindApp1DependsOnPrefix(buf: seq<byte>, buf': seq<byte>, offset: nat, a: nat)
    requires FindApp1From(buf, offset) == Some(a)
    requires AgreeBelow(buf, buf', a + 2)
    ensures FindApp1From(buf', offset) == Some(a)
    decreases a - offset
  {
    if offset < a {
      assert !MarkerAt(buf, offset, App1);
      FindApp1DependsOnPrefix(buf, buf', offset + 1, a);
    }
  }

  lemma {:induction false} HeaderDependsOnPrefix(buf: seq<byte>, buf': seq<byte>, app1: nat, ifd: Ifd)
    requires ExifHeader(buf, app1, ifd)
    requires AgreeBelow(buf, buf', app1 + 18)
    ensures ExifHeader(buf', app1, ifd)
  {
    forall k | 2 <= k < app1
      ensures !MarkerAt(buf', k, App1)
    {
      assert !MarkerAt(buf, k, App1);
    }
    assert buf'[app1 + 4..app1 + 8] == buf[app1 + 4..app1 + 8];
  }

  lemma {:induction false} ScanDependsOnPrefix(buf: seq<byte>, buf': seq<byte>, ifd: Ifd, count: nat, k: nat, p: nat)
    requires k <= count
    requires ScanEntries(buf, ifd, count, k) == Located(Slot(p, ifd.littleEndian))
    requires AgreeBelow(buf, buf', p) && p + 2 <= |buf'|
    ensures ScanEntries(buf', ifd, count, k) == Located(Slot(p, ifd.littleEndian))
    decreases count - k
  {
    var entry := EntryOffset(ifd, k);
    if U16(buf, entry, ifd.littleEndian) != OrientationTag {
      var j :| k + 1 <= j < count && p == EntryOffset(ifd, j) + 8 && OrientationEntryAt(buf, ifd, j);
      assert U16(buf', entry, ifd.littleEndian) == U16(buf, entry, ifd.littleEndian);
      ScanDependsOnPrefix(buf, buf', ifd, count, k + 1, p);
    }
  }

  /** The slot lies after every byte the lookup reads, so writing it, or
      replacing whatever follows it, cannot change what a later lookup finds. */
  lemma {:induction false} LocateDependsOnPrefix(buf: seq<byte>, buf': seq<byte>, slot: Slot)
    requires LocateOrientation(buf) == Located(slot)
    requires AgreeBelow(buf, buf', slot.offset) && slot.offset + 2 <= |buf'|
    ensures LocateOrientation(buf') == Located(slot)
  {
    var ifd := LocateIfd(buf).at;
    var app1 := FindApp1From(buf, 2).value;
    LocatedIfdHasHeader(buf, ifd);
    var count := EntryCount(buf, ifd);
    LocateScansIfd(buf, ifd);
    var j :| 0 <= j < count && slot.offset == EntryOffset(ifd, j) + 8 && OrientationEntryAt(buf, ifd, j);
    HeaderDependsOnPrefix(buf, buf', app1, ifd);
    HeaderLocatesIfd(buf', app1, ifd);
    assert EntryCount(buf', ifd) == count;
    ScanDependsOnPrefix(buf, buf', ifd, count, 0, slot.offset);
    LocateScansIfd(buf', ifd);
  }

  /** Running the reset on its own output returns 1 wherever the first run
      returned a value, "no value" where it returned none, and changes no
      byte: the orientation is never applied twice. */
  lemma {:induction false} ResetIsIdempotent(buf: seq<byte>)
    ensures var once := ResetAndGetOrientation(buf);
      var twice := ResetAndGetOrientation(once.buffer);
      && twice.buffer == once.buffer
      && twice.orientation == (if once.orientation.None? then None else Some(1))
  {
    var once := ResetAndGetOrientation(buf);
    if LocateOrientation(buf).Located? {
      var slot := LocateOrientation(buf).at;
      LocateDependsOnPrefix(buf, once.buffer, slot);
      SetU16OfCurrentValue(once.buffer, slot.offset, slot.littleEndian);
    }
  }

  /** The value slot lies past the whole TIFF header: at least 28 bytes after
      the APP1 marker the lookup found. */
  lemma SlotFollowsHeader(buf: seq<byte>)
    requires LocateOrientation(buf).Located?
    ensures FindApp1From(buf, 2).Some?
    ensures LocateOrientation(buf).at.offset >= FindApp1From(buf, 2).value + 28
  {
  }

  /** A buffer that repeats the reset bytes up to and including the slot,
      whatever follows, reads as orientation 1 and is left unchanged: this is
      what makes a copy of the reset header safe to put into another file. */
  lemma {:induction false} CopiedResetPrefixIsUpright(buf: seq<byte>, out: seq<byte>, n: nat)
    requires LocateOrientation(buf).Located? && LocateOrientation(buf).at.offset + 2 <= n
    requires AgreeBelow(ResetAndGetOrientation(buf).buffer, out, n)
    ensures ResetAndGetOrientation(out) == Reset(Some(1), out)
  {
    var slot := LocateOrientation(buf).at;
    var once := ResetAndGetOrientation(buf).buffer;
    LocatedSlotIsReset(buf, slot);
    LocateDependsOnPrefix(buf, once, slot);
    LocateDependsOnPrefix(once, out, slot);
    assert out[slot.offset] == once[slot.offset] && out[slot.offset + 1] == once[slot.offset + 1];
    assert U16(out, slot.offset, slot.littleEndian) == 1;
    LocatedSlotIsReset(out, slot);
    SetU16OfCurrentValue(out, slot.offset, slot.littleEndian);
  }

  // ---------------------------------------------------------------------------
  // Orientation code to transform

  /** Rotation in degrees and the two mirror factors applied when drawing. */
  datatype Transform = Transform(rotate: int, scaleX: int, scaleY: int)

  const Identity := Transform(0, 1, 1)

  function Abs(x: int): nat
  {
    if x < 0 then -x else x
  }

  /** A rotation by a quarter turn either way swaps width and height. */
  predicate IsQuarterTurn(rotate: int)
  {
    Abs(rotate) % 180 == 90
  }

  /** `parseOrientation`. Every mirror factor is +1 or -1; exactly the codes
      5 to 8 turn the image by a quarter turn; codes outside 2 to 8 are the
      identity. */
  function ParseOrientation(code: int): (t: Transform)
    ensures t.scaleX == 1 || t.scaleX == -1
    ensures t.scaleY == 1 || t.scaleY == -1
    ensures IsQuarterTurn(t.rotate) <==> 5 <= code <= 8
    ensures !(2 <= code <= 8) ==> t == Identity
  {
    match code
    case 2 => Transform(0, -1, 1)
    case 3 => Transform(-180, 1, 1)
    case 4 => Transform(0, 1, -1)
    case 5 => Transform(90, 1, -1)
    case 6 => Transform(90, 1, 1)
    case 7 => Transform(90, -1, 1)
    case 8 => Transform(-90, 1, 1)
    case _ => Identity
  }

  /** The EXIF table of the eight orientations, indexed by code - 1. */
  const OrientationTable: seq<Transform> := [
    Transform(0, 1, 1), Transform(0, -1, 1), Transform(-180, 1, 1), Transform(0, 1, -1),
    Transform(90, 1, -1), Transform(90, 1, 1), Transform(90, -1, 1), Transform(-90, 1, 1)
  ]

  lemma ParseOrientationFollowsTable(code: int)
    requires 1 <= code <= 8
    ensures ParseOrientation(code) == OrientationTable[code - 1]
  {
  }
}
