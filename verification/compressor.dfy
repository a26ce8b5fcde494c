/** The decision rules of the `Compressor` class (src/index.ts): which files
    and environments are accepted, how the file is read, what the load
    handler passes on, which output type and fill are used, when the EXIF
    block goes back into the result, and the `aborted` flag with the checks
    `draw` makes against it. The browser objects involved become flags and
    byte sequences. */
module Compressor {
  import opened Wrappers
  import opened Bytes
  import opened MimeTypes
  import Sizing
  import Orientation
  import ExifSegments
  import JpegMarkers

  /** What the browser offers: `URL` (or `webkitURL`), `FileReader`, `ArrayBuffer`. */
  datatype Env = Env(hasUrl: bool, hasFileReader: bool, hasArrayBuffer: bool)

  /** The options the decisions read. */
  datatype Settings = Settings(
    checkOrientation: bool,
    retainExif: bool,
    mimeType: string,
    convertTypes: seq<string>,
    convertSize: Sizing.Num)

  /** The defaults of src/compressor-option.ts for these options. */
  const DefaultSettings := Settings(true, false, "auto", [Png], Sizing.Fin(5000000.0))

  datatype InitError = NotABlob | NotAnImage | Unsupported

  /** How the file is handed to the image: an object URL of the file itself,
      or a FileReader reading it as an ArrayBuffer or as a data URL. */
  datatype ReadMode = ObjectUrl | ArrayBufferRead | DataUrlRead

  /** The effective flags after `init`, and the read started. */
  datatype Start = Start(checkOrientation: bool, retainExif: bool, read: ReadMode)

  /** `init`: rejects what is not an image Blob or a browser without `URL`
      or `FileReader`, switches both EXIF features off without `ArrayBuffer`,
      and applies them to JPEG files only. */
  function Init(isBlob: bool, fileType: string, env: Env, o: Settings): (r: Result<Start, InitError>)
    ensures r.Failure? <==> !isBlob || !IsImageType(fileType) || !env.hasUrl || !env.hasFileReader
    ensures r.Failure? ==>
      r.error == (if !isBlob then NotABlob else if !IsImageType(fileType) then NotAnImage else Unsupported)
    ensures r.Success? ==>
      && (r.value.checkOrientation <==> fileType == Jpeg && env.hasArrayBuffer && o.checkOrientation)
      && (r.value.retainExif <==> fileType == Jpeg && env.hasArrayBuffer && o.retainExif)
      && (r.value.read == ArrayBufferRead <==> r.value.checkOrientation || r.value.retainExif)
      && r.value.read != DataUrlRead
  {
    if !isBlob then Failure(NotABlob)
    else if !IsImageType(fileType) then Failure(NotAnImage)
    else if !env.hasUrl || !env.hasFileReader then Failure(Unsupported)
    else
      var options := if env.hasArrayBuffer then o else o.(checkOrientation := false, retainExif := false);
      var isJpeg := fileType == Jpeg;
      var checkOrientation := isJpeg && options.checkOrientation;
      var retainExif := isJpeg && options.retainExif;
      var read :=
        if env.hasUrl && !checkOrientation && !retainExif then ObjectUrl
        else if checkOrientation || retainExif then ArrayBufferRead
        else DataUrlRead;
      Success(Start(checkOrientation, retainExif, read))
  }

  /** Only a JPEG file is ever read into an ArrayBuffer, so only a JPEG file
      has its orientation reset or its EXIF kept. */
  lemma OnlyJpegIsReadAsBytes(isBlob: bool, fileType: string, env: Env, o: Settings)
    ensures var r := Init(isBlob, fileType, env, o);
      r.Success? && fileType != Jpeg ==>
        r.value == Start(false, false, ObjectUrl)
  {
  }

  /** The URL the image is loaded from. */
  datatype ImageSource = FileObjectUrl | DataUrlOf(bytes: seq<byte>) | ReaderResult

  /** What the FileReader's `onload` passes to `load`: the transform to draw
      with, the EXIF kept for later, the source and the buffer after reset. */
  datatype Loaded = Loaded(
    transform: Orientation.Transform,
    exif: seq<byte>,
    source: ImageSource,
    buffer: seq<byte>)

  /** The reader's `onload` handler for the bytes `result` of the file. The
      orientation is reset in place, so the EXIF block and the data URL are
      taken from the reset bytes. */
  function OnLoad(start: Start, hasUrl: bool, result: seq<byte>): (d: Loaded)
    ensures |d.buffer| == |result|
    ensures !start.checkOrientation ==> d.buffer == result
    ensures !start.retainExif ==> d.exif == []
    ensures start.retainExif ==> d.exif == ExifSegments.GetExif(d.buffer)
    ensures d.transform != Orientation.Identity ==>
      start.checkOrientation && Orientation.ResetAndGetOrientation(result).orientation.Some?
      && 1 < Orientation.ResetAndGetOrientation(result).orientation.value <= 8
    ensures d.source.DataUrlOf? ==> d.source.bytes == d.buffer
  {
    var reset := if start.checkOrientation then Orientation.ResetAndGetOrientation(result)
                 else Orientation.Reset(Some(1), result);
    var buffer := reset.buffer;
    var greaterThanOne := reset.orientation.Some? && reset.orientation.value > 1;
    var transform := if greaterThanOne then Orientation.ParseOrientation(reset.orientation.value)
                     else Orientation.Identity;
    var exif := if start.retainExif then ExifSegments.GetExif(buffer) else [];
    var source :=
      if start.checkOrientation || start.retainExif then
        if !hasUrl || greaterThanOne then DataUrlOf(buffer) else FileObjectUrl
      else ReaderResult;
    Loaded(transform, exif, source, buffer)
  }

  /** After an ArrayBuffer read the image is loaded from the reset bytes
      exactly when a rotated orientation was found (or there is no `URL`),
      and from the file itself otherwise. */
  lemma DataUrlOnlyAfterReset(start: Start, hasUrl: bool, result: seq<byte>)
    requires start.checkOrientation || start.retainExif
    ensures var d := OnLoad(start, hasUrl, result);
      var r := Orientation.ResetAndGetOrientation(result);
      && (d.source.DataUrlOf? <==>
            !hasUrl || (start.checkOrientation && r.orientation.Some? && r.orientation.value > 1))
      && (!d.source.DataUrlOf? ==> d.source == FileObjectUrl)
  {
  }

  /** A changed orientation is what the handler draws with, and the bytes
      it loads and keeps carry orientation 1 from then on. */
  lemma LoadedBytesAreReset(start: Start, hasUrl: bool, result: seq<byte>)
    requires start.checkOrientation
    ensures var d := OnLoad(start, hasUrl, result);
      var r := Orientation.ResetAndGetOrientation(result);
      && d.buffer == r.buffer
      && (r.orientation.Some? && r.orientation.value > 1 ==>
            d.transform == Orientation.ParseOrientation(r.orientation.value))
      && Orientation.ResetAndGetOrientation(d.buffer).orientation ==
           (if r.orientation.None? then None else Some(1))
  {
    Orientation.ResetIsIdempotent(result);
  }

  /** The output type: a `mimeType` that is not an image type (such as the
      default 'auto') falls back to the file's type, and a file larger than
      `convertSize` whose type is listed in `convertTypes` becomes JPEG. */
  function OutputType(o: Settings, fileType: string, fileSize: nat): (t: string)
    ensures t == Jpeg || t == (if IsImageType(o.mimeType) then o.mimeType else fileType)
    ensures t != (if IsImageType(o.mimeType) then o.mimeType else fileType) ==>
      !Sizing.Le(Sizing.Fin(fileSize as real), o.convertSize)
  {
    var resolved := if IsImageType(o.mimeType) then o.mimeType else fileType;
    if !Sizing.Le(Sizing.Fin(fileSize as real), o.convertSize) && resolved in o.convertTypes then Jpeg
    else resolved
  }

  /** The forced conversion happens exactly for large files of a listed type. */
  lemma OutputTypeConverts(o: Settings, fileType: string, fileSize: nat)
    ensures var resolved := if IsImageType(o.mimeType) then o.mimeType else fileType;
      (OutputType(o, fileType, fileSize) == Jpeg) <==>
        resolved == Jpeg
        || (resolved in o.convertTypes && o.convertSize.Fin? && (fileSize as real) > o.convertSize.v)
  {
  }

  /** With the defaults a PNG above 5,000,000 bytes becomes a JPEG, a smaller
      PNG stays PNG, and a JPEG stays JPEG. */
  lemma DefaultConversion(fileSize: nat)
    ensures OutputType(DefaultSettings, Png, fileSize) == (if fileSize > 5000000 then Jpeg else Png)
    ensures OutputType(DefaultSettings, Jpeg, fileSize) == Jpeg
  {
    DefaultTypesClassified();
    assert !IsImageType("auto");
  }

  /** `fillStyle`: white under a JPEG, which has no transparency. */
  function FillStyle(outputType: string): (f: string)
    ensures f == "#fff" <==> outputType == Jpeg
    ensures f == "transparent" <==> outputType != Jpeg
  {
    if outputType == Jpeg then "#fff" else "transparent"
  }

  /** With the defaults a large PNG is converted, so its transparent pixels
      are drawn on white; a small PNG keeps a transparent background. */
  lemma ConvertedPngIsFilledWhite(fileSize: nat)
    ensures FillStyle(OutputType(DefaultSettings, Png, fileSize)) ==
      (if fileSize > 5000000 then "#fff" else "transparent")
  {
    DefaultConversion(fileSize);
    DefaultTypesClassified();
  }

  /** The test of the encode callback: the stored EXIF block goes back only
      into a JPEG output, with the `retainExif` option still set and a
      non-empty block. */
  predicate ShouldReinsertExif(hasBlob: bool, outputType: string, retainExifOption: bool, exif: seq<byte>)
  {
    hasBlob && outputType == Jpeg && retainExifOption && |exif| > 0
  }

  /** The bytes handed on after encoding: the encoded JPEG with its APP0
      segment replaced by the stored EXIF block when that applies. */
  function Finished(encoded: seq<byte>, outputType: string, retainExifOption: bool, exif: seq<byte>): (r: seq<byte>)
    ensures !ShouldReinsertExif(true, outputType, retainExifOption, exif) ==> r == encoded
    ensures (ShouldReinsertExif(true, outputType, retainExifOption, exif)
             && |encoded| >= 4 && encoded[2] == 0xFF && encoded[3] == 0xE0) ==>
      |r| >= 2 + |exif| && r[..2] == [0xFF, 0xD8] && r[2..2 + |exif|] == exif
  {
    if ShouldReinsertExif(true, outputType, retainExifOption, exif) then
      ExifSegments.InsertExif(encoded, exif)
    else encoded
  }

  /** EXIF is only ever put back when `init` kept it: a file that was not a
      JPEG, or whose EXIF was not retained, reaches the encoder with an empty
      block and comes out as encoded. */
  lemma ExifReturnsOnlyFromJpeg(isBlob: bool, fileType: string, env: Env, o: Settings,
                                hasUrl: bool, result: seq<byte>, encoded: seq<byte>, outputType: string)
    requires Init(isBlob, fileType, env, o).Success?
    requires fileType != Jpeg || !o.retainExif || !env.hasArrayBuffer
    ensures var d := OnLoad(Init(isBlob, fileType, env, o).value, hasUrl, result);
      Finished(encoded, outputType, o.retainExif, d.exif) == encoded
  {
  }

  /** With both EXIF features on, a JPEG whose first segment after SOI is the
      APP1 segment holding the first Orientation entry gets that segment back
      in the output with the entry reset: the output reads as orientation 1
      and a later reset changes nothing, so it is never rotated twice. */
  lemma {:induction false} ReinsertedExifIsUpright(start: Start, hasUrl: bool, result: seq<byte>, n: nat, encoded: seq<byte>)
    requires start.checkOrientation && start.retainExif
    requires 2 <= n <= |result| && ExifSegments.WellFormedApp1(result[2..n])
    requires Orientation.LocateOrientation(result).Located?
    requires Orientation.LocateOrientation(result).at.offset + 2 <= n
    requires |encoded| >= 4 && JpegMarkers.IsApp0(encoded[2..])
    ensures var out := Finished(encoded, Jpeg, true, OnLoad(start, hasUrl, result).exif);
      Orientation.ResetAndGetOrientation(out) == Orientation.Reset(Some(1), out)
  {
    ResetKeepsLeadingApp1(result, n);
    var reset := Orientation.ResetAndGetOrientation(result).buffer;
    var d := OnLoad(start, hasUrl, result);
    assert d.buffer == reset && d.exif == ExifSegments.GetExif(reset);
    ExifSegments.LeadingApp1IsReinserted(reset, n, encoded);
    var out := Finished(encoded, Jpeg, true, d.exif);
    assert ShouldReinsertExif(true, Jpeg, true, d.exif);
    assert AgreeBelow(reset, out, n);
    Orientation.CopiedResetPrefixIsUpright(result, out, n);
  }

  /** The reset writes past the segment header, so the leading APP1 segment
      stays well formed. */
  lemma ResetKeepsLeadingApp1(result: seq<byte>, n: nat)
    requires 2 <= n <= |result| && ExifSegments.WellFormedApp1(result[2..n])
    requires Orientation.LocateOrientation(result).Located?
    ensures var reset := Orientation.ResetAndGetOrientation(result).buffer;
      JpegMarkers.IsSoi(reset) && ExifSegments.WellFormedApp1(reset[2..n])
  {
    var slot := Orientation.LocateOrientation(result).at;
    Orientation.SlotFollowsHeader(result);
    Orientation.LocatedSlotIsReset(result, slot);
    var reset := Orientation.ResetAndGetOrientation(result).buffer;
    assert reset[..6] == result[..6];
    assert reset[2..n][..4] == result[2..n][..4];
    ExifSegments.WellFormedApp1ByHeader(result[2..n], reset[2..n]);
  }

  // ---- The `aborted` flag ----

  /** What `abort` sees: whether a FileReader is active and whether the
      image has completed loading. */
  datatype State = State(aborted: bool, readerActive: bool, imageComplete: bool)

  /** What `abort` does besides setting the flag. */
  datatype AbortEffect = NoEffect | AbortReader | AbortImageLoad | FailWithAbortError

  /** `abort`: the first call sets the flag and cancels whatever is in
      progress, or reports the abort when nothing is; later calls do nothing. */
  function Abort(s: State): (r: (State, AbortEffect))
    ensures r.0.aborted
    ensures r.0.readerActive == s.readerActive && r.0.imageComplete == s.imageComplete
    ensures s.aborted <==> r.1 == NoEffect
    ensures r.1 == AbortReader ==> s.readerActive
    ensures r.1 == AbortImageLoad ==> !s.readerActive && !s.imageComplete
    ensures r.1 == FailWithAbortError ==> !s.readerActive && s.imageComplete
  {
    if s.aborted then (s, NoEffect)
    else
      var effect :=
        if s.readerActive then AbortReader
        else if !s.imageComplete then AbortImageLoad
        else FailWithAbortError;
      (s.(aborted := true), effect)
  }

  /** Aborting twice is aborting once. */
  lemma AbortIsIdempotent(s: State)
    ensures Abort(Abort(s).0) == (Abort(s).0, NoEffect)
  {
  }

  /** The steps of `draw` after planning, in order. */
  datatype DrawStep = Fill | BeforeDraw | DrawImage | Drew | Encode | Deliver

  /** The steps `draw` takes given whether a 2D context exists, which hooks
      are set, and the flag seen at its three checks: before drawing, before
      encoding and in the encode callback. The hooks run in between and may
      call `abort`. */
  function DrawSteps(hasContext: bool, hasBeforeDraw: bool, hasDrew: bool,
                     abortedBeforeDraw: bool, abortedBeforeEncode: bool, abortedInCallback: bool): (r: seq<DrawStep>)
    ensures abortedBeforeDraw ==> DrawImage !in r && Encode !in r && Deliver !in r
    ensures abortedBeforeEncode ==> Encode !in r && Deliver !in r
    ensures abortedInCallback ==> Deliver !in r
    ensures Deliver in r <==> !abortedBeforeDraw && !abortedBeforeEncode && !abortedInCallback
  {
    var prepared := (if hasContext then [Fill] else []) + (if hasContext && hasBeforeDraw then [BeforeDraw] else []);
    if abortedBeforeDraw then prepared
    else
      var drawn := prepared + (if hasContext then [DrawImage] else []) + (if hasContext && hasDrew then [Drew] else []);
      if abortedBeforeEncode then drawn
      else if abortedInCallback then drawn + [Encode]
      else drawn + [Encode, Deliver]
  }

  /** The flag never goes back: each check sees at least what the one
      before it saw. */
  predicate Monotone(a: bool, b: bool, c: bool)
  {
    (a ==> b) && (b ==> c)
  }

  /** An abort only cuts `draw` short: whatever it does is a prefix of what
      it does when nothing is aborted. */
  lemma AbortedDrawIsPrefix(hasContext: bool, hasBeforeDraw: bool, hasDrew: bool, a: bool, b: bool, c: bool)
    requires Monotone(a, b, c)
    ensures var full := DrawSteps(hasContext, hasBeforeDraw, hasDrew, false, false, false);
      var cut := DrawSteps(hasContext, hasBeforeDraw, hasDrew, a, b, c);
      |cut| <= |full| && cut == full[..|cut|]
  {
  }
}
