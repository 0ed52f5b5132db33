# Brailler core in Dafny

Brailler turns a cropped picture into text art. The picture is thresholded
into black and white. It is scaled to a target size. Then every block of
2 × 4 pixels becomes one Unicode Braille-pattern character (U+2800..U+28FF),
and one line of text comes out for every four pixel rows. This project models
the integer logic of that last step and the numeric helpers of the settings
form, all from `src/Controls.js`:

- `sizing.dfy` (module `Sizing`) covers three helpers. The threshold
  percentage becomes an 8-bit cutoff (`convertedThreshold`). A crop side is
  rounded down to a multiple of the cell size (`cutDownSide`). The target size
  comes either from the preset table (`aspect_ratios`: twitch 60 × 64,
  youtube 60 × 24) or from the crop itself (`custom`).
- `braille.dfy` (module `Braille`) covers the result view. `At` is the dot
  value of a pixel, read from its red byte. `CodeAt`/`SymbolAt` give the
  character of a 2 × 4 cell. `BrailleLines` and `BrailleLine` are the
  outer and inner loops that build the lines. `Grid` is their pure
  specification. Lemmas state the bit layout, decoding and injectivity, the
  output shape, and that only red bytes matter.
- `pipeline.dfy` (module `Pipeline`) links the target size to the encoder.
  It states the output shape for every preset, the empty output for a tiny
  custom crop, and the single-cell cases where every red byte is 0 (black)
  or every red byte holds one non-zero value (white).

The encoder is modelled for every image size, as the program runs it. There
are ceil(height / 4) lines of ceil(width / 2) characters. `At` reads index
`y * width * 4 + x * 4`. A read past the end of the data has no byte, and the
program counts it as ink, so the model returns 1 there. The x position is
not checked against the width either: with an odd width the right-hand dots of
the last cell in a line read the first pixel of the next row, and only past
the last row do they fall off the data (`AtWrapsToNextRow`). Whole-cell sizes
(width even, height a multiple of 4) are what every chosen target size has.
For those sizes the lemmas show exactly height / 4 lines of width / 2
characters, and every dot comes from a pixel inside the image.

## Model

| member | source | states |
|---|---|---|
| Sizing.ConvertedThreshold | src/Controls.js:92-94 | the cutoff is floor(t × 2.55), taken exactly: the largest c with 100c ≤ 255t; thresholds 1..99 give cutoffs in 2..252, and 0..100 stays within a byte |
| Sizing.ThresholdMonotone | src/Controls.js:92-94 | a larger threshold never gives a smaller cutoff |
| Sizing.DefaultCutoff | src/Controls.js:343 | the starting threshold 50 gives the cutoff 127 |
| Sizing.JsRemainder | src/Controls.js:97 | JavaScript's `%`: the remainder has the sign of the dividend and is smaller in size than the divisor; taking it away leaves a multiple; it is 0 on multiples |
| Sizing.CutDownSide | src/Controls.js:96-98 | the result is a multiple of `to`; for a side ≥ 0 it lies in (side − to, side], for a negative side in [side, side + to) and ≤ 0 (rounding toward zero); a multiple is left unchanged |
| Sizing.CutDownSideGreatest | src/Controls.js:96-98 | for a side ≥ 0, no multiple of `to` that is ≤ side exceeds the result (it is the largest one) |
| Sizing.CutDownSideIdempotent | src/Controls.js:96-98 | cutting down twice equals cutting down once |
| Sizing.AspectRatios | src/Controls.js:10-18 | only the custom preset has no size; every preset pair has an even width and a height divisible by 4 |
| Sizing.TargetSize | src/Controls.js:142-152 | the target width is even and the height divisible by 4; twitch gives exactly 60 × 64 and youtube 60 × 24; custom gives the largest such size within the crop |
| Sizing.PresetGlyphBudget | src/Controls.js:10-16 | twitch is 30 characters by 16 lines (480 ≤ 500); youtube is 30 by 6 (180 ≤ 200) |
| Sizing.DefaultPresetSize | src/Controls.js:65 | the preset selected first is the first table entry, twitch, a named preset; its target size is 60 × 64 for every crop |
| Sizing.SmallCropGivesZeroSide | src/Controls.js:147-148 | a custom crop narrower than 2 gives width 0; one shorter than 4 gives height 0 |
| Braille.At | src/Controls.js:294-298 | a dot value is always 0 or 1 |
| Braille.AtWrapsToNextRow | src/Controls.js:295-297 | the index is not checked against the width: x = width reads the red byte of pixel (0, y + 1) |
| Braille.AtReadsRed | src/Controls.js:294-298 | inside a well-formed image, the index is in range, and the dot is 1 exactly when the pixel's red byte is 0 |
| Braille.AtIgnoresGreenBlueAlpha | src/Controls.js:294-298 | images that agree on every red byte give the same dot at every position, so green, blue and alpha are ignored |
| Braille.CodeAt | src/Controls.js:300-310 | every code point lies in U+2800..U+28FF |
| Braille.SymbolAt | src/Controls.js:300-311 | every character produced is a Braille pattern (U+2800..U+28FF) |
| Braille.Block | src/Controls.js:300-310 | a cell has exactly eight dot values, each 0 or 1 |
| Braille.CodeAtPacksBlock | src/Controls.js:300-310 | the code point is U+2800 plus the cell's eight dots read as a binary number (dot k has weight 2^k) |
| Braille.DecodeGlyph | src/Controls.js:300-310 | the eight dots of a cell are recovered from its code point |
| Braille.DotBit | src/Controls.js:300-310 | bit k of (code − 0x2800) is the dot at the k-th fixed offset: (0,0), (0,1), (0,2), (1,0), (1,1), (1,2), (0,3), (1,3) |
| Braille.GlyphInjective | src/Controls.js:300-311 | two cells get the same character exactly when their eight dots agree |
| Braille.EveryGlyphReachable | src/Controls.js:300-310 | each of the 256 patterns is the character of some dot combination |
| Braille.GlyphOfDots | src/Controls.js:300-310 | a cell has the character of a given dot combination exactly when it has those dots |
| Braille.TopLeftDotGlyph | src/Controls.js:302 | the code is U+2801 exactly when only the top-left dot is inked |
| Braille.BottomRightDotGlyph | src/Controls.js:309 | the code is U+2880 exactly when only the bottom-right dot is inked |
| Braille.FullCellGlyph | src/Controls.js:300-310 | the code is U+28FF exactly when all eight dots are inked |
| Braille.EmptyCellGlyph | src/Controls.js:300-310 | the code is U+2800 exactly when no dot is inked |
| Braille.BrailleLine | src/Controls.js:316-319 | the inner loop builds ceil(width / 2) characters; character c is that of the cell at (2c, y); the line equals `Line(img, y)` |
| Braille.BrailleLines | src/Controls.js:314-326 | the outer loop builds ceil(height / 4) lines of ceil(width / 2) characters; the character at line r, column c is that of the cell at (2c, 4r); the result equals `Grid` |
| Braille.GridShape | src/Controls.js:314-319 | for any size the specification has ceil(height / 4) lines of ceil(width / 2) characters, in row-major order |
| Braille.GridAt | src/Controls.js:314-319 | the character at line r, column c of the specification is the code of the cell at (2c, 4r) |
| Braille.GridOfWholeCells | src/Controls.js:314-319 | with an even width and a height divisible by 4 there are exactly height / 4 lines of width / 2 characters |
| Braille.GridCellBit | src/Controls.js:300-319 | for any image size, the character at line r, column c is at least U+2800, and bit k of its offset from U+2800 is the dot at (2c + DotColumn[k], 4r + DotRow[k]) |
| Braille.GridDotIsAt | src/Controls.js:300-319 | with whole cells, bit k of the character at (r, c) is the dot of pixel (2c + DotColumn[k], 4r + DotRow[k]), which is inside the image |
| Braille.GridDotIsRedByte | src/Controls.js:294-319 | with whole cells in a well-formed image, bit k of the character at (r, c) is 1 exactly when that pixel's red byte is 0 |
| Braille.GridReadsRedOnly | src/Controls.js:294-326 | images that agree on every red byte give identical lines |
| Pipeline.TargetSizeGridShape | src/Controls.js:142-152 | any image of a chosen target size gives exactly height / 4 lines of width / 2 characters: 16 × 30 for twitch, 6 × 30 for youtube, and for custom (crop height / 4) × (crop width / 2) |
| Pipeline.SmallCropEmptyGrid | src/Controls.js:147-148 | a custom crop narrower than 2 or shorter than 4 gives only empty lines, and no lines at all when it is shorter than 4 |
| Pipeline.UniformCellGlyph | src/Controls.js:294-319 | a well-formed 2 × 4 image whose red bytes all hold one value (green, blue and alpha free, so opaque black is included) gives a single character: U+28FF when the value is 0, U+2800 otherwise |

## Left out

- Sizing.ConvertedThreshold: computes the exact floor of t × 255 / 100. The program multiplies by the double 2.55, which is slightly below 2.55, so its rounding is not modelled. The integer value is the intended cutoff.
- Sizing.CutDownSide: sides are integers. The crop library can report fractional sizes. For those, JavaScript's `%` is exact, so `side - side % to` is already a whole multiple (5.5 cut to 2 gives 4) and `parseInt` leaves it unchanged: a fractional side ≥ 0 gives the same result as its floor. The model takes that floored side as its input.
- The image-library stages are not modelled: grayscale, Prewitt edge detection, colour inversion, thresholding against the cutoff, and scaling to the target size (src/Controls.js:120-155). Their code is not part of this model. The encoder takes the already thresholded and scaled image as input.
- Cropping to a canvas (`cropImage`) is not modelled. It relies on canvas drawing, the device pixel ratio and floating-point scaling.
- Loading the file (`FileReader`) and the effect's early returns on a missing or empty crop (src/Controls.js:101-118, 160-166) are browser I/O and lifecycle.
- The aspect ratio passed to the crop widget (src/Controls.js:176, 336-337) is a floating-point UI value.
- The React components, their state and the `<pre>`/`<br />` wrapping of the lines (src/Controls.js:320-331) are not modelled. The model returns the line strings themselves. The result view renders nothing before any image exists (src/Controls.js:287-289); the model starts from an image.
- scripts/prepare-deps.py copies a vendor bundle and is not part of this model.
