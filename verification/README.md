# image-compressor core in Dafny

This project models the core of `image-compressor`, a browser library that compresses an image file by drawing it onto a canvas and encoding the canvas again. The model covers:

- **JPEG byte handling** (`src/util.ts`):
  - `resetAndGetOrientation` reads the EXIF Orientation tag and overwrites it with 1.
  - `parseOrientation` maps the code to a rotation and mirror factors.
  - `getExif` collects the APP1 segments before the first SOS header.
  - `insertExif` puts the stored block into the freshly encoded JPEG.
- **Output geometry**: `getAdjustedSizes`, and the planning part of `Compressor.draw` (`src/index.ts`). The planning part normalises the bounds, swaps the pairs for a quarter turn, fits the bounds and the target, clamps and floors, and computes the source crop.
- **Decision rules of the `Compressor` class**:
  - JPEG-only gating of orientation handling and EXIF retention in `init`;
  - the read mode;
  - what the reader's `onload` passes on;
  - output MIME resolution and forced JPEG conversion;
  - the fill colour;
  - the EXIF reinsertion test;
  - the `aborted` flag and the checks `draw` makes against it.

Modules follow the source:

| module | models |
|---|---|
| `Bytes` | `DataView` reads and writes |
| `JpegMarkers` | the FF-prefixed JPEG markers both byte scans test for |
| `MimeTypes` | MIME helpers |
| `Orientation` | orientation reset and parsing |
| `ExifSegments` | `getExif` / `insertExif` |
| `Sizing` | numbers and `getAdjustedSizes` |
| `DrawPlan` | the planning section of `draw` |
| `Compressor` | the class's decision rules |

Buffers are `seq<byte>` and every operation is a pure function. The in-place `DataView` write of the orientation reset is a function that returns the code and the new buffer. Geometry is over exact reals. `Num = Fin(real) | Inf` carries JavaScript's `Infinity`.

The model follows the code as written, including behaviours that differ from what the names or the type documentation suggest:

- The crop mode `_resize` is compared with `===` where an assignment was meant (src/index.ts:251-257). The crop therefore always uses the default 'none' mode, which behaves like 'contain', for both 'contain' and 'cover' (`DrawPlan.CropIgnoresResizeMode`).
- An unset `width` or `height` becomes 0 (src/index.ts:191). The destructuring default at src/index.ts:230 only applies to `undefined`, so the natural size is never used as a fallback. With the default options the canvas is 0 by 0 (`DrawPlan.DefaultsDrawEmptyCanvas`).
- `insertExif` replaces the APP0 segment of the encoded JPEG rather than inserting after it (src/util.ts:288).
- The natural aspect ratio is not swapped for a quarter turn (src/index.ts:190), although the bounds and the target are.
- In `init`, the `readAsDataURL` branch (src/index.ts:128-130) cannot be reached: the object-URL branch takes every case in which neither EXIF feature applies.
- The reinsertion test in the encode callback reads the output type and the `retainExif` option (src/index.ts:339). It does not read the effective flag of `init`. The stored block is empty unless `init` kept it (`Compressor.ExifReturnsOnlyFromJpeg`).

## Model

| member | source | states |
|---|---|---|
| Bytes.SetU16 | src/util.ts:133 | `setUint16` writes a value that reads back in the same byte order, keeps the length and changes no other byte |
| Bytes.SetU16OfCurrentValue | src/util.ts:130-133 | writing the value a slot already holds leaves the buffer unchanged |
| MimeTypes.IsImageType | src/util.ts:19-23 | `/^image\/.+$/`: "image/" followed by at least one character and no line terminator (no contract of its own; its cases are fixed by the two lemmas below) |
| MimeTypes.ImageTypeToExtension | src/util.ts:25-33 | the extension starts with a dot; it is "." for a non-image type and ".jpg" for image/jpeg; otherwise it is the subtype after "image/" |
| MimeTypes.ExtensionRecoversImageType | src/util.ts:19-33 | for image types other than JPEG, "image/" plus the extension without its dot gives the MIME type back |
| MimeTypes.DefaultTypesClassified | src/util.ts:19-23 | 'auto', '' and 'image/' fail the image-type test; 'image/jpeg' and 'image/png' pass it |
| Orientation.StringFromCharCode | src/util.ts:37-48 | the string has `length` characters, and each is the code of the byte at the same offset from `start` |
| Orientation.FindApp1From | src/util.ts:84-93 | the byte-by-byte search returns the first FF E1 pair at or after the offset, or none when no pair exists |
| Orientation.LocateIfd | src/util.ts:82-115 | a located IFD means SOI and an FF E1 pair whose 18-byte EXIF and TIFF header lies inside the buffer, with the IFD at or after the header's end; a range error happens only with fewer than two bytes or with a header that runs past the end |
| Orientation.ScanEntries | src/util.ts:117-136 | a located slot lies in the buffer, 8 bytes into an entry of the scanned range that carries tag 0x0112 |
| Orientation.LocateOrientation | src/util.ts:72-137 | a located value slot lies inside the buffer |
| Orientation.ResetAndGetOrientation | src/util.ts:67-143 | the buffer keeps its length; "no value" leaves it unchanged; a change means a value other than 1 was found; at most the two bytes of that slot change, and they then read 1 |
| Orientation.WriteOneAt | src/util.ts:133 | writing 1 changes only the slot's two bytes, and changes the buffer exactly when the slot did not read 1 |
| Orientation.LocateIfdMatchesHeader | src/util.ts:82-115 | the header checks succeed with a given IFD exactly when the bytes form an EXIF header for it: SOI, first FF E1, "Exif", byte-order mark, magic 0x002A, IFD offset at least 8 |
| Orientation.LocatedIfdHasHeader | src/util.ts:82-115 | a successful header check means the bytes form an EXIF header at the first FF E1 pair |
| Orientation.HeaderLocatesIfd | src/util.ts:82-115 | an EXIF header makes the header checks succeed with its IFD |
| Orientation.ReadableHeaderIsInRange | src/util.ts:76-115 | with every header byte inside the buffer, no header read raises a range error |
| Orientation.ScanFindsFirstTagged | src/util.ts:122-134 | the scan stops at the first entry tagged 0x0112, whatever the later entries hold |
| Orientation.ScanMissesUntagged | src/util.ts:122-137 | a fully readable directory without the tag gives "not found" |
| Orientation.ScanRunsOut | src/util.ts:122-125 | an entry past the end, reached before any tagged entry, raises a range error |
| Orientation.ScanValueRunsOut | src/util.ts:122-131 | a first tagged entry whose value lies past the end raises a range error |
| Orientation.ResetWritesFirstOrientationEntry | src/util.ts:117-136 | with a valid header, the first entry tagged 0x0112 is reset: its old value is returned, it reads 1 afterwards in the declared byte order, and no other byte changes |
| Orientation.FirstTaggedIsReset | src/util.ts:117-136 | the same, starting from a successful header check |
| Orientation.LocateScansIfd | src/util.ts:117-123 | after a successful header check, the lookup is the scan of the declared entry count |
| Orientation.LocatedSlotIsReset | src/util.ts:130-133 | the located slot is the one whose value is returned and overwritten with 1 |
| Orientation.FailedHeaderGivesNoOrientation | src/util.ts:96-117 | a failed header check, with every header byte readable, returns "no value" and leaves the buffer unchanged |
| Orientation.ResetNeedsExifHeader | src/util.ts:82-117 | without a valid EXIF header no byte changes |
| Orientation.AbsentTagGivesNoOrientation | src/util.ts:73-142 | a valid header whose directory lacks the tag returns "no value", not 1 |
| Orientation.TruncatedExifReadsAsIdentity | src/util.ts:96-140 | a buffer that ends inside the "Exif" literal returns 1, unchanged |
| Orientation.TruncatedIfdReadsAsIdentity | src/util.ts:122-140 | a directory entry past the end, reached before the tag, returns 1, unchanged |
| Orientation.ShortBufferReadsAsIdentity | src/util.ts:76-140 | an empty buffer, and a buffer of the single byte FF, return 1 unchanged |
| Orientation.TruncatedHeaderReadsAsIdentity | src/util.ts:96-140 | a buffer that ends inside the TIFF header, after every check it holds has passed, returns 1 unchanged |
| Orientation.TruncatedCountReadsAsIdentity | src/util.ts:117-140 | a valid header whose directory starts too close to the end to hold the entry count returns 1 unchanged |
| Orientation.TruncatedValueReadsAsIdentity | src/util.ts:122-140 | a first Orientation entry whose value lies past the end returns 1 unchanged |
| Orientation.FindApp1DependsOnPrefix | src/util.ts:86-93 | the search result depends only on the bytes up to the pair found |
| Orientation.HeaderDependsOnPrefix | src/util.ts:96-115 | the header depends only on the bytes before app1 + 18 |
| Orientation.ScanDependsOnPrefix | src/util.ts:122-134 | a scan that finds a slot depends only on the bytes before that slot |
| Orientation.LocateDependsOnPrefix | src/util.ts:72-137 | the lookup depends only on the bytes before the slot, so the write cannot move it |
| Orientation.ResetIsIdempotent | src/util.ts:67-143 | resetting the reset buffer returns 1 where the first call found a value, "no value" where it found none, and changes no byte |
| Orientation.SlotFollowsHeader | src/util.ts:96-131 | the value slot lies at least 28 bytes after the APP1 marker found |
| Orientation.CopiedResetPrefixIsUpright | src/util.ts:67-143 | any buffer that repeats the reset bytes up to and including the slot, whatever follows, returns 1 and is left unchanged |
| Orientation.ParseOrientation | src/util.ts:145-196 | mirror factors are ±1; a quarter turn happens exactly for codes 5 to 8; other codes outside 2 to 8 give the identity |
| Orientation.ParseOrientationFollowsTable | src/util.ts:150-189 | codes 1 to 8 follow the EXIF orientation table |
| ExifSegments.SegmentEnd | src/util.ts:262-264 | a segment spans at least its two marker bytes and ends inside the buffer, so the walk advances by at least 2 |
| ExifSegments.Segments | src/util.ts:249-269 | the walk: skip SOI by two bytes, stop at SOS or with fewer than four bytes left, otherwise cut a segment of 2 plus its length field, clamped to the buffer (no contract of its own; stated by the two lemmas below) |
| ExifSegments.SegmentsFitBuffer | src/util.ts:249-269 | the cut segments together are no longer than the buffer |
| ExifSegments.SegmentsAreHeaders | src/util.ts:253-268 | every cut segment has at least two bytes and starts with neither SOI nor SOS |
| ExifSegments.App1ConcatAppend | src/util.ts:271-277 | the reduce distributes over concatenated segment lists |
| ExifSegments.App1ConcatIsNoLonger | src/util.ts:271-277 | the kept segments are no longer than all segments |
| ExifSegments.GetExif | src/util.ts:243-278 | the stored block is no longer than the buffer it was read from |
| ExifSegments.App1ConcatEmpty | src/util.ts:271-277 | the concatenation is empty exactly when no segment begins FF E1 |
| ExifSegments.GetExifEmptyIffNoApp1 | src/util.ts:243-278 | the block is empty exactly when the walk meets no APP1 segment |
| ExifSegments.SoiIsSkipped | src/util.ts:259-260 | a leading SOI adds nothing to the block |
| ExifSegments.ExtractExif | src/util.ts:243-278 | the index loop with its running concatenation returns exactly the stored block |
| ExifSegments.ScanStopsAtSos | src/util.ts:253-256 | bytes after the first SOS header the walk reaches cannot change the block |
| ExifSegments.SegmentsAfterWalkedPrefix | src/util.ts:249-268 | the walk over a walked prefix followed by SOS cuts the same segments whatever follows the SOS |
| ExifSegments.InsertExif | src/util.ts:280-291 | without FF E0 at bytes 2-3 the input is returned; otherwise SOI, then the block, then the input after the APP0 segment (from 4 + L, clamped); an input of 4 or 5 bytes, too short for the length, is kept whole after the block |
| ExifSegments.InsertedLength | src/util.ts:287-288 | the output length is 2 + block length + n − 4 − L when 4 + L ≤ n |
| ExifSegments.GetExifOfWellFormedSegment | src/util.ts:261-274 | a complete APP1 segment in front of a stream is collected whole, before whatever the rest yields |
| ExifSegments.GetExifOfWellFormedPrefix | src/util.ts:243-278 | a run of complete APP1 segments in front of a stream is collected whole, before whatever the rest yields |
| ExifSegments.LeadingApp1IsReinserted | src/util.ts:243-291 | when the segment right after SOI is a complete APP1 segment, the block starts with it and the output of `insertExif` repeats the input up to its end |
| ExifSegments.ReinsertedExifIsExtractedAgain | src/util.ts:243-291 | extracting from a stream into which a block of complete APP1 segments was inserted gives the block back first |
| Sizing.IsPositiveNumber | src/util.ts:11 | `value > 0 && value < Infinity` (a predicate without a contract of its own) |
| Sizing.Max | src/index.ts:186-189 | `Math.max` is an upper bound of both arguments and one of them |
| Sizing.Min | src/index.ts:237-238 | `Math.min` is a lower bound of both arguments and one of them |
| Sizing.Floor | src/index.ts:237-238 | `Math.floor` gives an integer not above the value and within 1 of it; Infinity stays |
| Sizing.FloorMonotone | src/index.ts:237-238 | flooring keeps the order |
| Sizing.GetAdjustedSizes | src/util.ts:204-241 | both sides valid: the result keeps the ratio and one side; 'contain' and 'none' never grow, 'cover' never shrinks. Only width valid: height = width / ratio. Only height valid: width = height × ratio. Neither: the input |
| Sizing.ContainIsLargestFit | src/util.ts:220-230 | 'contain' gives the largest size at the ratio that fits in the box |
| Sizing.CoverIsSmallestCover | src/util.ts:220-230 | 'cover' gives the smallest size at the ratio that covers the box |
| Sizing.AdjustTransposed | src/util.ts:217-235 | fitting the transposed size to the inverse ratio gives the transposed result |
| DrawPlan.NormalizeMax | src/index.ts:186-187 | a positive bound is kept; 0, negative or Infinity means no bound |
| DrawPlan.NormalizeMin | src/index.ts:188-189 | a negative minimum becomes 0, and any other is kept |
| DrawPlan.Resizable | src/index.ts:182-185 | 'contain' or 'cover' with a positive finite width and height, each falling back to the natural one (a predicate without a contract of its own) |
| DrawPlan.Requested | src/index.ts:186-191 | every maximum is positive or Infinity, every minimum non-negative; the target is the requested width and height, 0 where unset |
| DrawPlan.Oriented | src/index.ts:193-197 | a quarter turn swaps the max, min and target pairs; otherwise nothing changes |
| DrawPlan.WorkingRatio | src/index.ts:190-201 | the ratio is positive; it is the requested width / height (after the swap) when resizable, and the natural ratio, never swapped, otherwise |
| DrawPlan.Clamp | src/index.ts:237-238 | the result never exceeds the maximum; it is at least the floored minimum when min ≤ max; max wins when they conflict |
| DrawPlan.ClampSelects | src/index.ts:237-238 | the clamp floors the number itself when it lies within the bounds, the minimum when it lies below it (with min ≤ max), and the maximum when it lies at or above it |
| DrawPlan.CentredCrop | src/index.ts:246-269 | the crop lies inside the image, keeps the ratio, touches two opposite edges and is centred |
| DrawPlan.PlanDraw | src/index.ts:181-276 | the canvas is the destination size, transposed for a quarter turn; a crop is present exactly when resizable |
| DrawPlan.CanvasWithinMaxBounds | src/index.ts:186-279 | a positive maxWidth or maxHeight bounds the canvas side it names, whatever the rotation |
| DrawPlan.QuarterTurnSwapsPairs | src/index.ts:181-276 | a quarter turn plans what no rotation plans with the pairs swapped; only the canvas is turned back |
| DrawPlan.AdjustAtRatioIsIdentity | src/util.ts:217-230 | a size that already has the ratio is kept by every mode |
| DrawPlan.ExplicitSizeIsDrawn | src/index.ts:199-238 | 'contain' or 'cover' with an explicit positive size and no bounds draws that size floored, for every rotation |
| DrawPlan.UnboundedDrawsFittedRequest | src/index.ts:229-238 | without bounds or resizing, the canvas is the request fitted to the natural ratio, floored |
| DrawPlan.WidthAloneFollowsNaturalRatio | src/index.ts:229-238 | a width alone gives height = floor(width / natural ratio) |
| DrawPlan.HeightAloneFollowsNaturalRatio | src/index.ts:229-238 | a height alone gives width = floor(height × natural ratio) |
| DrawPlan.UnsetSizeDrawsMinimum | src/index.ts:191-238 | with neither side set, the destination is the cover-fitted minimum clamped by the contain-fitted maximum, floored |
| DrawPlan.CoverKeepsNonNegative | src/util.ts:217-235 | 'cover' keeps non-negative sides non-negative |
| DrawPlan.DefaultsDrawEmptyCanvas | src/index.ts:186-238 | the default options plan a 0 by 0 canvas with no crop |
| DrawPlan.CropIsCentredInside | src/index.ts:246-269 | the crop lies inside the natural image and is centred: x ≥ 0 and 2x + width = naturalWidth, likewise for y |
| DrawPlan.CropIgnoresResizeMode | src/index.ts:251-265 | 'contain' and 'cover' crop the same rectangle |
| DrawPlan.CropHasRequestedRatio | src/index.ts:199-265 | the crop is the centred crop at the requested ratio, inverted for a quarter turn |
| DrawPlan.SquareFromLandscape | src/index.ts:181-276 | 4000×3000 into 800×800 gives an 800×800 canvas and crops the centred 3000×3000 square |
| Compressor.Init | src/index.ts:44-132 | fails exactly for a non-Blob, a non-image type, or a browser without URL or FileReader, with the matching error; the EXIF flags are effective exactly for JPEG with ArrayBuffer and the option; the file is read as an ArrayBuffer exactly when one flag is effective, and never as a data URL |
| Compressor.OnlyJpegIsReadAsBytes | src/index.ts:64-76 | a file that is not JPEG is always loaded from an object URL with both features off |
| Compressor.OnLoad | src/index.ts:81-115 | the buffer keeps its length, and changes only with orientation checking; the EXIF kept is the block of the reset bytes with retainExif and empty without it; a non-identity transform needs a reset value from 2 to 8; a data URL carries the reset bytes |
| Compressor.DataUrlOnlyAfterReset | src/index.ts:100-109 | after an ArrayBuffer read, the image comes from the reset bytes exactly when there is no URL or a value above 1 was found, and from the file otherwise |
| Compressor.LoadedBytesAreReset | src/index.ts:86-97 | the handler draws with the parsed code when it exceeds 1, and the bytes it keeps read 1 (or "no value") afterwards |
| Compressor.OutputType | src/index.ts:281-290 | the output type is the resolved type or JPEG; it differs from the resolved type only for files above convertSize |
| Compressor.OutputTypeConverts | src/index.ts:281-290 | the output is JPEG exactly when the resolved type is JPEG, or is listed in convertTypes with the file larger than convertSize |
| Compressor.DefaultConversion | src/compressor-option.ts:3-23 | with the defaults a PNG above 5,000,000 bytes becomes JPEG, a smaller PNG stays PNG, and a JPEG stays JPEG |
| Compressor.FillStyle | src/index.ts:285-296 | the fill is '#fff' exactly for JPEG output and 'transparent' otherwise |
| Compressor.ConvertedPngIsFilledWhite | src/index.ts:281-296 | with the defaults a PNG above 5,000,000 bytes is drawn on white and a smaller one on a transparent background |
| Compressor.ShouldReinsertExif | src/index.ts:339 | the encode callback reinserts with a blob, JPEG output, the retainExif option and a non-empty block (a predicate without a contract of its own) |
| Compressor.Finished | src/index.ts:339-343 | without the reinsertion conditions the encoded bytes are returned; with them and an APP0 at bytes 2-3, the result is SOI followed by the stored block |
| Compressor.ReinsertedExifIsUpright | src/index.ts:81-343 | with both EXIF features on and the Orientation entry in the APP1 segment right after SOI, the output with the block put back returns 1 on a later reset and is left unchanged, so it is never rotated twice |
| Compressor.ResetKeepsLeadingApp1 | src/util.ts:130-133 | the reset writes past the segment header, so the leading APP1 segment stays complete |
| Compressor.ExifReturnsOnlyFromJpeg | src/index.ts:69-339 | a file that is not JPEG, or whose EXIF was not retained, reaches the encoder output unchanged |
| Compressor.Abort | src/index.ts:420-435 | the flag is set; the first call aborts the reader, else the image load, else reports failure; a later call does nothing |
| Compressor.AbortIsIdempotent | src/index.ts:421-422 | aborting twice is aborting once |
| Compressor.DrawSteps | src/index.ts:299-331 | an abort seen before drawing skips the drawImage, encode and delivery; one seen before encoding skips encoding and delivery; one seen in the callback skips delivery; delivery happens exactly without any abort |
| Compressor.AbortedDrawIsPrefix | src/index.ts:304-331 | with a flag that never goes back, an aborted draw does a prefix of the steps of an unaborted one |

## Left out

- `arrayBufferToDataURL` (src/util.ts:52-65): it depends on the browser's `btoa`. A data URL is modelled by the bytes it carries.
- src/canvas-to-blob.ts: the `toBlob` polyfill parses data URIs with browser functions. Canvas encoding is not part of this model; the encoded bytes are a parameter of `Compressor.Finished`.
- `normalizeDecimalNumber` (src/util.ts:198-202) only repairs binary floating-point artefacts, so over exact reals it is the identity. IEEE-754 rounding in general is left out too.
- NaN and −Infinity option values are left out. So are the divisions by 0 that a resizable plan with an unset width or height would make (src/index.ts:191, 200). `DrawPlan.PlanDraw` requires a positive natural size and, when resizable, a set width and height.
- `destX`/`destY` (src/index.ts:240-241) are minus half the destination size, with the context translated to the canvas centre. The plan keeps the destination size only.
- DOM and asynchronous plumbing is left out: FileReader, Image, the canvas context calls, `URL.createObjectURL`/`revokeObjectURL`, the iOS `crossOrigin` fix, the image load and error handlers, and the reader's `onabort`/`onerror`/`onloadend`.
- `beforeDraw`, `drew`, `success` and `error` hooks, and `fail` throwing, are left out. Only their effect on the `aborted` checks is modelled.
- `done` (src/index.ts:387-408) always reports the original file (line 401) and discards the encoded result. No model member depends on what `done` delivers.
- The `strict` option is never read by the source, so no strict-size policy is modelled.
- `noConflict` and `setDefaults` (src/index.ts:437-444) mutate globals.
- `isBlob` (src/util.ts:4-9) uses `instanceof`; `Compressor.Init` takes its answer as a flag.
- `quality` is passed through to the encoder unchanged.
- Compressor.Finished: states the head of the result (SOI and the stored block). The tail after the APP0 segment is stated by `ExifSegments.InsertExif`.
- Compressor.OnLoad: the source adds `rotate`, `scaleX` and `scaleY` to the load data only when the value exceeds 1. The model carries the identity transform instead, which `draw` treats the same through its parameter defaults (src/index.ts:168-170).
