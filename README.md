# speechbubbler, modelled in Dafny

speechbubbler cuts a speech-bubble shape out of a raster image. It makes a rounded cap
hanging from the top edge transparent, plus a thick arc (the tail) to the right of centre.
The cap is at most `occupyHeight = height * percentage` rows deep. The program then hands the
RGBA bytes to a png, jpg or bmp encoder. The same masker (`speechBubbler`) appears twice,
with identical bodies: in the command-line program `index.js` (lines 73-162) and in the
library function `getEncodedDataFromArray` of `src/speechbubbler.js` (lines 36-125). The model
has it once, in module `Bubble`.

Modules (one file each):

- `Results` (`results.dfy`): `Option`, `Result` and one error constructor per `throw`.
- `Pixels` (`pixels.dfy`): the image as an `array2<Pixel>` (rows × columns), its value
  `Grid`, the pixel-clearing operation (`nullOut` / `clearPixel`), the gap-filling inner loop
  and the value-level clearing functions.
- `Extensions` (`extensions.dfy`): the supported formats, `getExtension` and `getFile`.
- `Bubble` (`bubble.dfy`): the cap sweep, the tail sweep and the masker with its
  `occupyHeight < 1` check.
- `Encoding` (`encoding.dfy`): the data arrays passed to the encoders. For png and jpg this
  is `flat(2)`. For bmp each pixel is reversed in place, then the image is flattened.
- `Cli` (`cli.dfy`): `index.js`, meaning the percentage clamp and `run`.
- `Library` (`library.dfy`): `getEncodedDataFromArray`.

The sine and cosine values are not computed. Each step's floored value is an input
(`Bubble.Samples`), taken before the `max(0, …)` / `abs` / `- 1` clamps. Everything the
program does with these values is modelled as written:

- the clamps;
- the span `[left, width - left)`;
- the carried `prevRow` (an `Option`, `None` standing for `NaN`);
- the `goNegative` flag, decided on the first tail step and then fixed (an `Option<bool>`,
  `None` standing for `null`);
- the three nested loops that write pixels.

`Bubble.SamplesFit` states bounds on the samples:

- `capLeft[i] <= width/2`;
- `|capDepth[0]| <= height` and `|capDepth[i]| <= height + 1` for the later cap steps;
- `tailColumn[0] < width`;
- every tail column lies in `[thickness - 1, tailColumn[0]]`;
- `tailDepth[j] <= height`.

These bounds are sufficient to keep every write inside the image, but not necessary: a
later step with an empty range writes nothing, whatever its sample. The first cap step
writes its own row. A later cap step writes only the rows above its boundary row, which is
why it may reach `height + 1`. The real trigonometric samples meet the bounds whenever
`occupyHeight < height + 1`. That covers every percentage up to 1, and also a library
percentage between 1 and `1 + 1/height`. The tail bound is tight at the first step: a first
tail sample above `height` puts the first tail cell outside the image
(`Bubble.TailFirstRowOutside`).

Facts about the code that the model keeps as written:

- **Cap shape.** The first cap step (angle 270°, `sin = -1`) has `left = 0`. It clears the
  whole top row, and later steps clear narrower spans lower down, so the cap is widest at
  the top (`Bubble.CapClearsTopRow`).
- **Size errors.** A zero height, a zero width and `occupyHeight < 1` are three distinct
  errors, checked in that order.
- **Tail fill.** A later tail step clears rows `[row, prevRow)`. The real tail rows never
  move down, but consecutive rows are often equal; a 100 × 100 image at percentage 0.3 gives
  rows 29, 28, 28, 28, …. Whenever two consecutive tail rows are equal, that step clears
  nothing (`Bubble.TailStepEmptyUnlessAscending`).
- **Percentage clamp.** `index.js` clamps the percentage to at most 1 (index.js:51). The
  library entry point uses the caller's percentage as given.
- **The caller's image.** The library masks the image it is given in place. For bmp it also
  leaves every pixel's channels reversed.

## Model

| member | source | states |
|---|---|---|
| `Pixels.ClearPixel` | src/speechbubbler.js:43-45 | exactly the addressed cell becomes [0,0,0,0], every other cell keeps its pixel; the new image value is `ClearAt` of the old one |
| `Pixels.ClearAtEffect` | index.js:80-82 | clearing one cell leaves the shape alone, makes that cell transparent and keeps every other cell |
| `Pixels.ClearAtIdempotent` | src/speechbubbler.js:43-45 | clearing the same cell twice gives the same image as clearing it once |
| `Pixels.ClearAtCommutes` | index.js:80-82 | two pixel clears give the same image in either order |
| `Pixels.ClearRows` | src/speechbubbler.js:68-70 | the gap-filling loop clears exactly rows [from, to) of one column, nothing when to <= from, and nothing else |
| `Pixels.Reversed` | src/speechbubbler.js:139 | a reversed pixel has channel 3-ch of the original at channel ch |
| `Pixels.ReversedTwice` | src/speechbubbler.js:139 | reversing a pixel twice gives the pixel back |
| `Extensions.ParseFormat` | src/speechbubbler.js:17-19 | a name is accepted exactly when it is one of "png", "jpg", "bmp" (exact, case-sensitive), and the format found has that name |
| `Extensions.FormatNameRoundTrip` | src/speechbubbler.js:7 | every supported format's name is accepted and gives back that format |
| `Extensions.Reverse` | index.js:15 | the reversed name has as many characters as the name and exactly the same characters |
| `Extensions.ReverseTwice` | index.js:15 | reversing a name twice gives the name back |
| `Extensions.ReverseSingle` | index.js:15 | a one-character name reverses to itself |
| `Extensions.ReverseAppend` | index.js:15 | the reversal of a + b is the reversal of b followed by the reversal of a, so the characters come in the opposite order |
| `Extensions.IndexOf` | index.js:16 | the result is -1 when the character does not occur, otherwise the position of its first occurrence |
| `Extensions.LastDot` | index.js:15-21 | the first '.' of the reversed name is the last '.' of the name; no '.' follows it; there is none exactly when the name has no '.' |
| `Extensions.GetExtension` | index.js:14-27 | fails with NoExtension when the name has no '.', with EmptyExtension when it ends in '.', succeeds otherwise with the non-empty text after the last '.', which has no '.' and completes the name |
| `Extensions.GetFile` | index.js:30-42 | succeeds exactly when the extension is a supported format name, returning the name unchanged with that format; passes on the extension error, or reports the unsupported extension |
| `Bubble.Thickness` | src/speechbubbler.js:81 | the tail thickness is ceil(width/10): at least 1, at most width |
| `Bubble.CapLeft` | src/speechbubbler.js:57 | the left edge of a cap span is never negative and never below its sample |
| `Bubble.CapRow` | src/speechbubbler.js:61 | the boundary row of a cap step is never negative |
| `Bubble.CapStepBounds` | src/speechbubbler.js:57-61 | for in-bounds samples: 0 <= left <= right <= width, left + right == width, every boundary row between 0 and height, and the first one inside the image |
| `Bubble.CapCellsInImage` | src/speechbubbler.js:63-72 | every cell the cap sweep clears is inside the image |
| `Bubble.CapMirror` | src/speechbubbler.js:57-59 | the cap is symmetric: column c is cleared in a row exactly when column width-1-c is |
| `Bubble.CapStepEmptyUnlessDescending` | src/speechbubbler.js:68 | a later cap step whose row is not below the previous row clears nothing |
| `Bubble.CapClearsTopRow` | src/speechbubbler.js:63-66 | when the first step has left 0 and row 0, every column of the top row is cleared |
| `Bubble.CapGapFree` | src/speechbubbler.js:63-74 | for a monotone sweep, a cleared cap cell below the first boundary row has a cleared cell directly above it |
| `Bubble.CapColumnFromTop` | src/speechbubbler.js:52-75 | for a monotone sweep each column's cleared cells form one unbroken run from the first boundary row down |
| `Bubble.CapSweep` | src/speechbubbler.js:50-76 | after the cap loop exactly the cells of the 90 steps (first step: its row over [left, right); later steps: rows [prevRow, row) over [left, right)) are [0,0,0,0], every other cell is unchanged |
| `Bubble.TailRow` | src/speechbubbler.js:100 | the row of a tail step is never negative |
| `Bubble.GoNegative` | src/speechbubbler.js:102-107 | the stroke widens leftward exactly when widening rightward from the first step's column would reach a column at or past the right edge |
| `Bubble.StrokeIsPaddedColumns` | src/speechbubbler.js:109-110 | the stroke's columns are exactly column + k * (goNegative ? -1 : 1) for k < thickness |
| `Bubble.RightwardStrokeFits` | src/speechbubbler.js:102-107 | when goNegative is false, the first column plus any padding below thickness stays left of the right edge |
| `Bubble.TailStrokeInImage` | src/speechbubbler.js:102-118 | the direction fixed on the first step keeps every later stroke column inside the image |
| `Bubble.TailCellsInImage` | src/speechbubbler.js:109-120 | every cell the tail sweep clears is inside the image |
| `Bubble.TailStepEmptyUnlessAscending` | src/speechbubbler.js:116 | a later tail step whose row is not above the previous row clears nothing |
| `Bubble.TailFirstRowOutside` | src/speechbubbler.js:100-114 | a first tail sample above height makes the first tail step clear a cell at a row at or past height, outside the image |
| `Bubble.TailSweep` | src/speechbubbler.js:79-124 | after the tail loop exactly the stroke cells of the 50 steps (first step: its row; later steps: rows [row, prevRow)) are [0,0,0,0], with the stroke direction taken from the first step's column only; every other cell is unchanged |
| `Bubble.OccupyHeight` | src/speechbubbler.js:37 | for a non-negative height, occupyHeight is at most the height when the percentage is at most 1, and at most 0 when the percentage is at most 0 |
| `Bubble.CapWithinOccupyHeight` | src/speechbubbler.js:61 | with samples floored from occupyHeight >= 1, no cap cell is at or below row occupyHeight |
| `Bubble.TailWithinOccupyHeight` | src/speechbubbler.js:100 | with samples floored from occupyHeight >= 1, no tail cell is at or below row occupyHeight |
| `Bubble.BubbleWithinOccupyHeight` | src/speechbubbler.js:36-125 | the whole bubble stays within the top occupyHeight rows |
| `Bubble.BubbledCells` | src/speechbubbler.js:50-124 | the masked image keeps its shape; a cell is [0,0,0,0] when the cap or the tail covers it and keeps its pixel otherwise |
| `Bubble.BubbleOrderIndependent` | src/speechbubbler.js:50-124 | running the tail sweep before the cap sweep gives the same image |
| `Bubble.BubbleIdempotent` | src/speechbubbler.js:36-125 | masking an already masked image changes nothing |
| `Bubble.SpeechBubbler` | index.js:73-162 | fails with ImageTooSmall, leaving the image untouched, exactly when height * percentage < 1, and always for a percentage of 0 or less; otherwise the image afterwards is exactly the cap and tail of the old one cleared |
| `Encoding.RowMajor` | src/speechbubbler.js:139 | `flat()` of a rectangular image has height * width pixels |
| `Encoding.FlatPixels` | src/speechbubbler.js:139 | flattening pixels gives exactly four bytes per pixel |
| `Encoding.FlatGrid` | src/speechbubbler.js:134 | `flat(2)` of a rectangular image has height * width * 4 bytes |
| `Encoding.ReversedGrid` | src/speechbubbler.js:139 | reversing every pixel keeps the image's shape and puts channel 3-ch of each pixel at channel ch |
| `Encoding.ReversedGridTwice` | src/speechbubbler.js:139 | reversing every pixel twice gives the image back |
| `Encoding.RowMajorAt` | src/speechbubbler.js:134 | pixel (r, c) of a rectangular image is element r * width + c of `flat()` |
| `Encoding.FlatPixelsAt` | src/speechbubbler.js:139 | channel ch of pixel i of the flattened pixels is byte 4 * i + ch |
| `Encoding.FlatGridLayout` | src/speechbubbler.js:134 | the png/jpg payload has height * width * 4 bytes, with channel ch of pixel (r, c) at (r * width + c) * 4 + ch |
| `Encoding.BmpLayout` | src/speechbubbler.js:139 | the bmp payload has height * width * 4 bytes, with channel 3-ch of pixel (r, c) at (r * width + c) * 4 + ch |
| `Encoding.ReversePixelsInPlace` | index.js:176 | every pixel of the image is replaced by its reversal |
| `Encoding.EncodedData` | src/speechbubbler.js:132-141 | the payload carries the format and dimensions, and its bytes follow the png/jpg layout or the channel-reversed bmp layout; for bmp the image is left with every pixel reversed, otherwise it is unchanged |
| `Cli.BubblePercentage` | index.js:51 | the percentage is at most 1 and never 0; it is 0.3 for a missing, non-numeric or zero argument, otherwise the argument itself, or 1 when the argument is above 1 |
| `Cli.BubblePercentageIdempotent` | index.js:51 | clamping a clamped percentage again gives the same value |
| `Cli.Run` | index.js:54-184 | errors come in the program's order (input extension, output extension, height, width, occupyHeight) and leave the image untouched; the run succeeds exactly when none of them applies; on success the payload is the output format's layout of the masked image, and the image is the masked image, with every pixel reversed for bmp |
| `Library.GetEncodedDataFromArray` | src/speechbubbler.js:15-144 | an unsupported `to` fails first, then height, width and occupyHeight, each before any pixel is written; the call succeeds exactly when none of them applies; on success the payload is `to`'s layout of the masked image, and the caller's image is left masked, with every pixel reversed for bmp |

## Left out

- `Math.sin`, `Math.cos`, `deg2rad` and the real-valued products with `occupyHeight` are
  floating-point trigonometry. Their floored results per step are the inputs
  `Bubble.Samples`, bounded by `Bubble.SamplesFit`, and the tail's progress values `d` and
  `v` (src/speechbubbler.js:95-96) exist only inside those results.
- `Bubble.SpeechBubbler`, `Cli.Run` and `Library.GetEncodedDataFromArray` require samples
  within `Bubble.SamplesFit`. The library never clamps its percentage. Once a finite
  `occupyHeight` reaches `height + 1`, a write falls on a row past the last one: the first
  tail step at the latest, or earlier in the cap sweep when a cap sample passes
  `height + 1`. JavaScript then throws a TypeError. Every step before the failing write has
  run by then, and so has part of the failing step, so at least the first cap row is cleared
  when `occupyHeight` is below about 5·10^15. At `occupyHeight = height + 1` the whole cap is
  cleared before the first tail write throws. That partial-write path is not modelled.
- `Library.GetEncodedDataFromArray`: the percentage is a `real`, so NaN (an omitted or
  undefined percentage) and +Infinity are not represented. Neither is stopped by the
  `occupyHeight < 1` check, since `NaN < 1` is false. The first cap write then gets a row of
  NaN or Infinity (`Math.max(0, NaN)` is NaN), and `inputImage[row]` is undefined. So
  JavaScript throws a TypeError before any pixel changes, where the contract's
  `occupyHeight < 1` case does not apply. -Infinity fails the check as ImageTooSmall.
- `Bubble.SpeechBubbler`, `Cli.Run`, `Library.GetEncodedDataFromArray`: `occupyHeight =
  height * percentage` is an exact real product, not a rounded floating-point one. The two
  can fall on opposite sides of the `occupyHeight < 1` check. In JavaScript
  `3 * 0.3333333333333333` rounds to 1 and the masker runs; in the model the product is
  just below 1 and the result is ImageTooSmall.
- Out-of-range column writes are not modelled: a column at or past the width silently
  extends a JavaScript row, and a negative column sets a property on the row array that is
  not an element. The model excludes both through `Bubble.SamplesFit`.
- `Extensions.Reverse`: Dafny's `string` is a sequence of Unicode scalar values, while
  `split('')` (index.js:15) splits a name into UTF-16 code units. For a character outside
  the Basic Multilingual Plane, such as "😀", JavaScript's reversal swaps its two surrogate
  halves, while the model keeps the character whole. So the `Extensions.Reverse`,
  `Extensions.ReverseSingle` and `Extensions.ReverseAppend` rows hold per code unit in
  JavaScript but per character here. `getExtension`'s result is the same either way,
  because `indexOf` and `slice` count in the same unit as the reversal.
- Decoding the input file (`imageToRgbaMatrix`) is a foreign library. The decoded image is
  a parameter of `Cli.Run`.
- The png, jpg and bmp encoders are foreign libraries. Only the data arrays handed to them
  are modelled (`Encoding.Payload`).
- `process.argv`, `writeFile` and the asynchronous `run` / `getEncodedData` plumbing are
  I/O. `Cli.Run` takes the three argument values directly.
- `Number(...)` parsing is modelled as an `Option<real>`, with `None` for NaN. ±Infinity are
  not represented: Infinity would clamp to 1, and -Infinity would fail the occupyHeight
  check.
- The image is rectangular (`array2`). A JavaScript image whose rows differ in length, with
  the width read from row 0, is not modelled.
- Each cell is assumed to hold its own pixel array. If the decoder shared one array between
  cells, the in-place bmp reversal would reverse it more than once.
- Error texts are not modelled. The library's unsupported-format error mentions an undefined
  variable and so surfaces as a ReferenceError. It is modelled as `UnsupportedFormat`.
- `getFile` on a missing command-line argument (a TypeError on `undefined`) belongs to the
  argument handling that is left out.
- Thickness: `Math.ceil(width * 0.1)` is modelled as `ceil(width / 10)`, assuming the
  floating-point product rounds to the same integer.
