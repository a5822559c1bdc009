# Brave Pink Hero Green: a verified model of the duotone engine

The application turns an uploaded photo into a two-colour ("duotone") picture. Shadows
become the green `#1b602f` (27, 96, 47) and highlights the pink `#f784c5`
(247, 132, 197). An `isReversed` switch swaps the two roles. Everything runs in the
browser. This project models the part of the application with real logic, in Dafny:

- `js_math.dfy` (module `JsMath`): `Math.round`, exactly, as floor(x + 1/2).
- `duotone_processor.dfy` (module `DuotoneProcessor`): the working-size planner
  `calculateDimensions`, the contrast S-curve `enhanceContrast`, and the two loops of
  `processImageOnCanvas`. Pass 1 reduces an RGBA byte buffer to its darkest and
  brightest Rec. 709 luminance. Pass 2 rewrites every pixel's R, G and B in place with
  the rounded interpolation between the two endpoint colours. The buffer is an
  `array<Byte>` and both passes are `while` loops that step by four bytes, as in the
  source. They are proved against the specification function `Duotone`, and the
  properties of the transform are lemmas about `Duotone`.
- `actions_bar.dfy` (module `ActionsBar`): the download name (the regex
  `\.[^/.]+$` removed, then `_brave-pink-hero-green-1312.png` appended) and the
  `~KB` size estimate.
- `dropzone_uploader.dfy` (module `DropzoneUploader`): `validateFile`, and a class
  `Dropzone` whose fields are the `error` message and the files handed to
  `onFileSelect`, with `handleFile`, `handleDrop` and `handleFileInput` as methods.

Modelling choices:

- Luminance is exact: the integer 2126·R + 7152·G + 722·B, which is the luminance
  scaled by 10000. The starting values of pass 1 (255 and 0) are scaled the same way.
- `Math.pow(x, 1.8)` is the parameter `pow18`. The only facts assumed about it are in
  `PowFacts`: it maps 0 to 0 and 1 to 1, maps [0, 1] into [0, 1], and never decreases
  there. `enhanceContrast` keeps its two branches exactly as written around it.
- Storing a value into the canvas buffer (a `Uint8ClampedArray`) is `ClampByte`. Under
  `PowFacts` the value stored is always between the two endpoint colours, so the clamp
  never acts.
- `calculateDimensions` does not check that sizes are positive. The model takes any
  natural sizes, and a size of 0 passes through unchanged.

## Model

| member | source | states |
|---|---|---|
| `JsMath.Round` | src/lib/duotone-processor.ts:121-123 | `Math.round` gives the integer within half of x, ties going up |
| `DuotoneProcessor.CalculateDimensions` | src/lib/duotone-processor.ts:136-149 | an image with both edges at most 3000 is unchanged; otherwise the longer edge becomes exactly 3000, neither edge exceeds 3000, and the edge order is kept |
| `DuotoneProcessor.ScaledEdge` | src/lib/duotone-processor.ts:143-147 | a scaled edge is between 0 and 3000, and the longer edge becomes exactly 3000 |
| `DuotoneProcessor.AspectPreserved` | src/lib/duotone-processor.ts:143-148 | when scaled, each planned edge is within half a pixel of the exact edge · 3000 / longer edge |
| `DuotoneProcessor.ThinImagePlansZeroEdge` | src/lib/duotone-processor.ts:143-148 | as written, a 6001 × 1 image (and 1 × 6001) plans to a zero-height (zero-width) canvas |
| `DuotoneProcessor.PlanDimensions` | src/lib/duotone-processor.ts:136-149 | corrected planner: the same clamp and limit, edges within one pixel of exact, and a positive size stays positive on both edges |
| `DuotoneProcessor.EnhanceContrast` | src/lib/duotone-processor.ts:11-23 | the S-curve maps [0, 1] into [0, 1], fixes 0, 1/2 and 1, keeps values below 1/2 at most 1/2 and values from 1/2 up at least 1/2 |
| `DuotoneProcessor.EnhanceContrastMonotone` | src/lib/duotone-processor.ts:16-22 | the S-curve never decreases on [0, 1] |
| `DuotoneProcessor.Luminance` | src/lib/duotone-processor.ts:91 | Rec. 709 luminance lies in [0, 255]; a grey pixel's luminance equals its channel value, since the weights sum to 1 |
| `DuotoneProcessor.LuminanceBounds` | src/lib/duotone-processor.ts:81-96 | after pass 1 over a non-empty buffer, min ≤ L(p) ≤ max for every pixel, and both are the luminance of some pixel; over an empty buffer they stay 255 and 0 |
| `DuotoneProcessor.LuminanceRange` | src/lib/duotone-processor.ts:98 | the range is max − min whenever that is non-zero, and 1 for a flat image; so it is never 0, and positive when min ≤ max |
| `DuotoneProcessor.RangePositive` | src/lib/duotone-processor.ts:81-98 | for a buffer with at least one pixel, min ≤ max and the range is positive |
| `DuotoneProcessor.Normalize` | src/lib/duotone-processor.ts:114 | the normalised luminance is in [0, 1]; it is 0 at the minimum, 1 at min + range, and (L − min) / range in between |
| `DuotoneProcessor.NormalizeMonotone` | src/lib/duotone-processor.ts:114 | with a positive range, a brighter pixel never gets a smaller normalised value |
| `DuotoneProcessor.ClampByteNearest` | src/lib/duotone-processor.ts:121-123 | storing into the `Uint8ClampedArray` keeps the byte nearest the value: no byte is nearer, and any byte as near is that byte |
| `DuotoneProcessor.ShadeChannel` | src/lib/duotone-processor.ts:121-123 | for a fraction in [0, 1], an output channel lies between the shadow and highlight values; fraction 0 gives the shadow value and 1 the highlight value |
| `DuotoneProcessor.InterpolateWithin` | src/lib/duotone-processor.ts:121-123 | the rounded interpolation between two bytes stays between them and hits each end exactly |
| `DuotoneProcessor.InterpolateBetween` | src/lib/duotone-processor.ts:121-123 | for a fraction in [0, 1], `from + t · (to − from)` lies between `from` and `to`, whichever is larger |
| `DuotoneProcessor.RampSwap` | src/lib/duotone-processor.ts:101-102 | the reversed ramp is the plain ramp with its two distinct ends exchanged |
| `DuotoneProcessor.FindLuminanceBounds` | src/lib/duotone-processor.ts:80-96 | pass 1 loop: returns the darkest and brightest luminance, each attained by some pixel and bounding all of them; 255 and 0 for an empty buffer |
| `DuotoneProcessor.ApplyDuotone` | src/lib/duotone-processor.ts:104-125 | pass 2 loop: channel k of every pixel p ends as `MappedChannel` of the old buffer, so R, G and B take the ramp colour at the pixel's fraction and alpha (k = 3) is kept |
| `DuotoneProcessor.ExtendMapped` | src/lib/duotone-processor.ts:105-124 | one iteration of pass 2: once a pixel's four bytes hold its mapped channels and the bytes before it are unchanged, the mapped prefix grows by that pixel |
| `DuotoneProcessor.PixelWritten` | src/lib/duotone-processor.ts:106-124 | the three values pass 2 computes for a pixel, from its own luminance, are its mapped R, G and B, and its untouched alpha is its mapped alpha |
| `DuotoneProcessor.PixelMapping` | src/lib/duotone-processor.ts:105-124 | pass 2 writes offsets 0, 1, 2 of each pixel with the ramp's R, G, B at its fraction and leaves offset 3 (alpha) alone |
| `DuotoneProcessor.ProcessImageData` | src/lib/duotone-processor.ts:80-125 | both passes leave the buffer equal to `Duotone` of its old contents, with the same length and every alpha byte unchanged |
| `DuotoneProcessor.DuotoneByChannels` | src/lib/duotone-processor.ts:80-125 | a buffer holding every pixel's mapped channels, with the bounds pass 1 finds, is byte for byte `Duotone` of the old buffer |
| `DuotoneProcessor.Duotone` | src/lib/duotone-processor.ts:80-125 | the transform keeps the buffer length |
| `DuotoneProcessor.BufferFractionInUnit` | src/lib/duotone-processor.ts:114-118 | every pixel's contrast-enhanced fraction is in [0, 1] |
| `DuotoneProcessor.ChannelBetweenEndpoints` | src/lib/duotone-processor.ts:121-123 | every output R, G or B byte lies between the shadow and highlight value of that channel, in either orientation |
| `DuotoneProcessor.FlatImageBecomesShadow` | src/lib/duotone-processor.ts:98-123 | when every pixel has the same luminance, every pixel becomes the orientation's shadow colour and keeps its alpha |
| `DuotoneProcessor.AlphaKept` | src/lib/duotone-processor.ts:124 | the transform leaves the alpha byte of every pixel as it was |
| `DuotoneProcessor.ExtremesMapToEndpoints` | src/lib/duotone-processor.ts:101-123 | the darkest pixel becomes SHADOW_COLOR (HIGHLIGHT_COLOR when reversed); the brightest pixel of a non-flat image becomes HIGHLIGHT_COLOR (SHADOW_COLOR when reversed) |
| `DuotoneProcessor.InterpolateReversed` | src/lib/duotone-processor.ts:101-102 | interpolating from b to a at t equals interpolating from a to b at 1 − t, which is why swapping the endpoints mirrors the ramp |
| `DuotoneProcessor.OrientationSwap` | src/lib/duotone-processor.ts:101-123 | both orientations give a pixel the same fraction t; reversal reads the shadow-to-highlight ramp at 1 − t instead of t |
| `DuotoneProcessor.FractionMonotone` | src/lib/duotone-processor.ts:111-118 | a pixel no brighter than another gets a fraction no greater than the other's |
| `DuotoneProcessor.SingleGreyPixel` | src/lib/duotone-processor.ts:80-125 | one opaque pixel (128, 128, 128) becomes (27, 96, 47) with alpha 255 |
| `DuotoneProcessor.BlackAndWhite` | src/lib/duotone-processor.ts:80-125 | an opaque black and an opaque white pixel become green (27, 96, 47) and pink (247, 132, 197); under reversal they become pink and green |
| `DuotoneProcessor.BlackAndWhiteOriented` | src/lib/duotone-processor.ts:80-125 | in a two-pixel buffer of luminance 0 and 255, the first pixel becomes the orientation's shadow colour and the second its highlight colour |
| `ActionsBar.TrailingRun` | src/components/ActionsBar.tsx:22 | the longest run of characters other than '/' and '.' at the end of the name, with the character before it (if any) being '/' or '.' |
| `ActionsBar.ExtensionAtUnique` | src/components/ActionsBar.tsx:22 | the pattern `\.[^/.]+$` can match at one place only, so replacing its first match removes the last extension |
| `ActionsBar.StripExtension` | src/components/ActionsBar.tsx:22 | the result is a prefix of the name; it is the name cut exactly where the pattern matches, and the whole name if and only if the pattern matches nowhere |
| `ActionsBar.NoDotKeptWhole` | src/components/ActionsBar.tsx:22 | a name with no '.' is kept whole |
| `ActionsBar.StripExtensionExamples` | src/components/ActionsBar.tsx:22 | "photo.tar.gz" gives "photo.tar"; "a." and "a.b/c" are unchanged; ".bashrc" gives "" |
| `ActionsBar.DownloadName` | src/components/ActionsBar.tsx:22-23 | the download name ends with `_brave-pink-hero-green-1312.png`, and what precedes it is a prefix of the original name |
| `ActionsBar.FileSizeKB` | src/components/ActionsBar.tsx:38 | the estimate round(0.75 · length / 1024) equals the integer (6 · length + 4096) div 8192 |
| `ActionsBar.ZeroKBBelow683` | src/components/ActionsBar.tsx:38 | the estimate is 0 exactly for URLs shorter than 683 characters, which every `blob:` object URL is |
| `ActionsBar.ImageSizeKB` | src/components/ActionsBar.tsx:38 | corrected estimate from the image's byte count: within half a KB of the exact size, and at least 1 KB from 512 bytes up |
| `ActionsBar.FileSizeKBMonotone` | src/components/ActionsBar.tsx:38 | a longer URL never shows a smaller estimate |
| `DropzoneUploader.ValidateFile` | src/components/DropzoneUploader.tsx:16-24 | no message exactly when the type is one of the four accepted and the size is at most 25 MiB; a refused type gets the format message, an accepted type that is too large gets the size message |
| `DropzoneUploader.SizeLimitIsInclusive` | src/components/DropzoneUploader.tsx:20-22 | a PNG of exactly 25 · 1024 · 1024 bytes is accepted; one byte more gets the size message |
| `DropzoneUploader.TypeCheckedFirst` | src/components/DropzoneUploader.tsx:17-22 | an oversized file of a refused type gets the format message, not the size message |
| `DropzoneUploader.Dropzone.constructor` | src/components/DropzoneUploader.tsx:14 | the box starts with no error and no file handed on |
| `DropzoneUploader.Dropzone.HandleFile` | src/components/DropzoneUploader.tsx:26-34 | a refused file sets the error to its message and is not handed on; an accepted file clears the error and is handed to `onFileSelect`; only valid files are ever handed on |
| `DropzoneUploader.Dropzone.HandleDrop` | src/components/DropzoneUploader.tsx:46-54 | an empty drop changes nothing; otherwise exactly the first file goes through `handleFile` |
| `DropzoneUploader.Dropzone.HandleFileInput` | src/components/DropzoneUploader.tsx:56-61 | a missing or empty file list changes nothing; otherwise exactly the first file goes through `handleFile` |

## Findings

| source | as written | input that shows it | evidently intended | confidence | as-written member | corrected member |
|---|---|---|---|---|---|---|
| src/lib/duotone-processor.ts:143-148 | each edge is scaled to `Math.round(edge * 3000 / longer)`, which is 0 when the longer edge is more than 6000 times the shorter | a 6001 × 1 image plans to a 3000 × 0 canvas; reading the pixels of a zero-height canvas throws, so the image fails to process | every edge of a real image stays at least one pixel long | not executed; medium | `DuotoneProcessor.ThinImagePlansZeroEdge` | `DuotoneProcessor.PlanDimensions` |
| src/components/ActionsBar.tsx:38 | the size shown is `Math.round(url.length * 0.75 / 1024)`, the rule for a base64 `data:` URL, but the URL it receives is a `blob:` object URL (src/components/DuotoneCanvas.tsx:43) | any processed image: its object URL is a few dozen characters long, under 683, so "~0 KB" is shown | the size of the processed image in KB | not executed; medium | `ActionsBar.ZeroKBBelow683` | `ActionsBar.ImageSizeKB` |

The pixel engine takes its buffer as given (its dimensions come from the canvas), so
the corrected planner is stated on its own, with the clamp, limit, aspect and
positivity guarantees proved about it.
The result bar is not given the image's byte count, so the corrected size estimate is
likewise stated on its own, over a byte count.

## Left out

- `processDuotoneImage` (src/lib/duotone-processor.ts:30-58): image decoding, object URLs and the Promise callbacks are asynchronous browser I/O.
- The canvas calls of `processImageOnCanvas` (`getContext`, `drawImage` with its resampling, `getImageData`, `putImageData`): foreign browser code. The buffer is a given `array<Byte>` whose length is a multiple of 4, as `ImageData` guarantees.
- IEEE-754 doubles: luminance, normalisation and interpolation are exact rationals here. The model does not claim bit-exact agreement with JavaScript. A luminance comparison in pass 1, or a `Math.round` near a tie, can come out differently in doubles.
- `DuotoneProcessor.FlatImageBecomesShadow` and `DuotoneProcessor.ExtremesMapToEndpoints` hold for exact luminance. In doubles they hold for an image of identical pixels, but not for pixels whose luminances are merely equal as rationals. Pixels (0, 0, 130) and (31, 3, 9) both have luminance 9.386 exactly, but line 91 gives them 9.386 and 9.386000000000001. The range is then about 1.8e-15, and the second pixel is painted the opposite endpoint colour. A one-ulp difference can move a pixel from one end of the ramp to the other.
- `DuotoneProcessor.CalculateDimensions`: computes `edge * (3000 / longer)` in exact rationals. In doubles the rounded edge can differ by one at an exact half.
- `DuotoneProcessor.EnhanceContrast`: `Math.pow(_, 1.8)` is the parameter `pow18`, constrained only by `PowFacts`. Nothing that needs the exact exponent is claimed, for example the value of the curve at 1/4, or strict monotonicity.
- The transform's lack of idempotence (applying it twice changes the picture again): it depends on the values of `Math.pow`, which are not modelled.
- `DropzoneUploader.Dropzone.HandleDrop`: `preventDefault` and the drag-over flag (`setIsDragOver`) are not modelled. Neither is the closure captured by `useCallback` with no dependencies, which keeps the first render's `handleFile`.
- React state updates (`setError`) are modelled as immediate field assignments. The `onFileSelect` callback is modelled as appending the file to `selected`.
- `handleDownload`'s link element and click (src/components/ActionsBar.tsx:26-34) are DOM side effects. Only the name it gives the link is modelled.
- File names are Dafny strings of characters, not JavaScript UTF-16 code units. This makes no difference to the pattern, which looks only at '.' and '/'.
- src/pages/Index.tsx, src/components/DuotoneCanvas.tsx, src/components/ReverseToggle.tsx and src/components/DarkModeToggle.tsx are not part of this model. They hold React state, debouncing, cancellation of stale results and presentation only.
