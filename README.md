# Image editor core in Dafny

This project models the core of a small raster-image editor:

- **The transform library** (`ImageOperations.java`): `zeroRed`, `grayscale`,
  `invert`, `mirror`, `rotate` and `repeat`. Each allocates a fresh
  `BufferedImage` and fills it in nested loops.
- **The editor's history**: the undo stack, the redo stack and
  `zoomImageIndex`, changed by `addImage` (both overloads), `undoImage` and
  `redoImage`, and read by `getImage` and `getOriginalImage`.
- **The plain "P3" PPM codec** of `readPpmImage` and `writePpmImage`.

Modules, one per file:

| file | module | what it holds |
|---|---|---|
| `wrappers.dfy` | `Wrappers` | `Option`, `Result` and `Outcome`, and the exception kinds as `Error` |
| `pixels.dfy` | `Pixels` | `Rgb` with channels 0..255, the `Image` value (`rows[y][x]`), and `Snapshot`, which reads an `array2<Rgb>` buffer indexed `[x, y]` as an `Image` |
| `transforms.dfy` | `Transforms` | every transform as a function on `Image`, and the lemmas relating them |
| `image_operations.dfy` | `ImageOperations` | the transforms as the source runs them: methods that fill a fresh `array2` in loops, each proved equal to its `Transforms` function |
| `text_scan.dfy` | `TextScan` | `Scanner.nextInt()`, `Scanner.nextLine()` and `Integer.toString` for non-negative values, over the text still to be read |
| `ppm_codec.dfy` | `PpmCodec` | `Encode` (what the writer emits), `Decode` (what the reader accepts, with its failure kinds) and the round-trip lemma |
| `edit_history.dfy` | `EditHistory` | the history as a value `History(undo, redo, zoomImageIndex)` with one function per operation, and its lemmas |
| `image_editor.dfy` | `Editor` | `class ImageEditor`, whose three fields are updated in place. Each method is proved to perform its `EditHistory` function, and the PPM methods are proved to agree with `PpmCodec` |

Stacks are sequences with the top at the end. A transform never writes to its
input: each result is `fresh`, and the only `modifies` clauses in
`ImageOperations` name that fresh output buffer (the helpers of `repeat`).

Where the code does something a reader might not expect, the model follows the code:

- `getOriginalImage` returns nothing unless `zoomImageIndex` is strictly
  below the stack size, so it never returns the top position.
- `undoImage` pops any non-empty undo stack, including the image just loaded.
- `addImage` does not require a loaded image.
- Mirroring does not flip the image. It copies the left (or top) half onto the
  other half and leaves an odd middle column (or row) black. So a second
  mirror changes nothing for every size, odd or even (`MirrorIdempotent`).
  Mirroring leaves an image unchanged exactly when the image is symmetric
  with a black centre (`MirrorFixedPoint`).
- Undo does not move `zoomImageIndex` back, so after an undo the "original"
  can be a zoomed image (`UndoThenZoom`).
- `zoomImageIndex` counts the images added unzoomed, but `getOriginalImage`
  uses it as a position in a stack that also holds zoomed images. After a
  zoom, an unzoomed add and another zoom, the "original" is the first zoomed
  image (`ZoomAddZoom`).

## Model

| member | source | states |
|---|---|---|
| Transforms.ZeroRed | src/ImageOperations.java:12-25 | same dimensions; every pixel is `(0, g, b)` of the input pixel at the same coordinate |
| Transforms.ZeroRedIdempotent | src/ImageOperations.java:12-25 | applying zeroRed twice equals applying it once |
| Transforms.Grayscale | src/ImageOperations.java:33-47 | same dimensions; every pixel has three equal channels in 0..255, the truncated weighted sum 0.30 r + 0.59 g + 0.11 b |
| Transforms.Invert | src/ImageOperations.java:55-68 | same dimensions; every channel c becomes 255 - c |
| Transforms.InvertInvolution | src/ImageOperations.java:55-68 | inverting twice returns the input exactly |
| Transforms.Mirror | src/ImageOperations.java:79-106 | the mirrored image is well formed with the input's dimensions |
| Transforms.MirrorVerticalHalves | src/ImageOperations.java:84-92 | for x < width/2, out[x, y] = out[width-1-x, y] = in[x, y]; an odd middle column is black (never written) |
| Transforms.MirrorHorizontalHalves | src/ImageOperations.java:93-103 | for y < height/2, out[x, y] = out[x, height-1-y] = in[x, y]; an odd middle row is black |
| Transforms.MirrorReadsNearHalfOnly | src/ImageOperations.java:84-103 | two inputs that agree on the left (top) half mirror to the same image: the far half is never read |
| Transforms.MirrorSymmetric | src/ImageOperations.java:79-106 | every mirrored image reads the same from both sides of the mirror line and has a black centre if odd-sized |
| Transforms.MirrorFixedPoint | src/ImageOperations.java:79-106 | mirror leaves an image unchanged if and only if it is symmetric with a black centre |
| Transforms.MirrorIdempotent | src/ImageOperations.java:79-106 | mirroring twice in the same direction equals mirroring once |
| Transforms.Rotate | src/ImageOperations.java:115-135 | width and height swap; clockwise puts in[x, y] at out[height-1-y, x], counter-clockwise at out[y, width-1-x] |
| Transforms.RotateClockwiseThenBack | src/ImageOperations.java:115-135 | a clockwise turn followed by a counter-clockwise turn is the identity |
| Transforms.RotateCounterClockwiseThenBack | src/ImageOperations.java:115-135 | a counter-clockwise turn followed by a clockwise turn is the identity |
| Transforms.Repeat | src/ImageOperations.java:147-167 | side by side gives (width*n) x height, stacked gives width x (height*n) |
| Transforms.RepeatTile | src/ImageOperations.java:152-164 | for every copy i < n: out[x + i*width, y] = in[x, y] side by side, out[x, y + i*height] = in[x, y] stacked |
| Transforms.RepeatOnce | src/ImageOperations.java:147-167 | one copy is the input itself |
| ImageOperations.MapPixels | src/ImageOperations.java:17-23 | the per-pixel loop: a fresh buffer equal to the input with the colour function applied at every coordinate |
| ImageOperations.ZeroRed | src/ImageOperations.java:12-25 | a fresh buffer whose contents are Transforms.ZeroRed of the input |
| ImageOperations.Grayscale | src/ImageOperations.java:33-47 | a fresh buffer whose contents are Transforms.Grayscale of the input |
| ImageOperations.Invert | src/ImageOperations.java:55-68 | a fresh buffer whose contents are Transforms.Invert of the input |
| ImageOperations.Mirror | src/ImageOperations.java:79-106 | a fresh buffer whose contents are Transforms.Mirror of the input in the given direction |
| ImageOperations.MirrorVertical | src/ImageOperations.java:84-92 | the VERTICAL loops produce Transforms.Mirror(_, Vertical), the untouched middle column staying black |
| ImageOperations.MirrorHorizontal | src/ImageOperations.java:93-103 | the HORIZONTAL loops produce Transforms.Mirror(_, Horizontal) |
| ImageOperations.Rotate | src/ImageOperations.java:115-135 | a fresh height x width buffer whose contents are Transforms.Rotate of the input |
| ImageOperations.RotateClockwise | src/ImageOperations.java:120-126 | the CLOCKWISE loops produce Transforms.Rotate(_, Clockwise) |
| ImageOperations.RotateCounterClockwise | src/ImageOperations.java:127-133 | the COUNTERCLOCKWISE loops produce Transforms.Rotate(_, CounterClockwise) |
| ImageOperations.Repeat | src/ImageOperations.java:147-167 | for n >= 1, a fresh buffer whose contents are Transforms.Repeat of the input |
| ImageOperations.RepeatSideBySide | src/ImageOperations.java:152-158 | the HORIZONTAL loops produce Transforms.Repeat(_, n, SideBySide) |
| ImageOperations.RepeatStacked | src/ImageOperations.java:159-165 | the VERTICAL loops produce Transforms.Repeat(_, n, Stacked) |
| ImageOperations.PlaceSideBySide | src/ImageOperations.java:154-158 | one pass of the outer HORIZONTAL loop extends the finished part by one copy, leaving the earlier copies intact |
| ImageOperations.PlaceStacked | src/ImageOperations.java:161-165 | one pass of the outer VERTICAL loop extends the finished part by one copy |
| ImageOperations.CopyInto | src/ImageOperations.java:155-165 | the two inner loops of either branch of repeat write one copy of the input at an offset and nothing outside it |
| TextScan.ParseInt | src/ImageEditor.java:62-63 | an accepted token denotes a value in the 32-bit int range |
| TextScan.ParseIntSyntax | src/ImageEditor.java:62-63 | an empty token, a lone sign or any non-digit after the optional sign is refused; up to nine digits always fit; a negative value needs a leading minus |
| TextScan.ParseSignedDecimal | src/ImageEditor.java:62-63 | a decimal token stands for n, or -n after a minus sign, and is accepted exactly when that value is in the 32-bit int range |
| TextScan.Decimal | src/ImageEditor.java:99 | the spelling of a non-negative int is a non-empty run of digits with no leading zero |
| TextScan.DecimalValue | src/ImageEditor.java:108-110 | parsing the digits written for n gives back n |
| TextScan.NextIntOfDecimal | src/ImageEditor.java:69-71 | nextInt() skips delimiters, reads a written int back and stops at the delimiter after it |
| TextScan.NextIntOfMalformed | src/ImageEditor.java:62-63 | nextInt() fails with InputMismatch on a next token that is not an optional sign followed by digits |
| TextScan.NextIntOutOfRange | src/ImageEditor.java:62-63 | nextInt() fails with InputMismatch on a well-formed number above the int range |
| TextScan.NextLineOf | src/ImageEditor.java:65-66 | nextLine() returns a "\n"-terminated line and moves past the terminator |
| TextScan.NextIntOutcome | src/ImageEditor.java:62-63 | nextInt() fails with NoSuchElement exactly when only delimiters are left and with InputMismatch otherwise; a value read is a 32-bit int and the scan moves strictly forward through the text |
| TextScan.NextLineOutcome | src/ImageEditor.java:61 | nextLine() fails with NoSuchElement exactly when no text is left; otherwise it returns a prefix without line separators and moves strictly forward |
| PpmCodec.ReadPixelOutcome | src/ImageEditor.java:69-72 | the first of the three nextInt calls that fails decides the error; once all three succeed, the read succeeds with exactly those three values when each is in 0..255 and otherwise fails with IllegalArgument; a successful read moves strictly forward |
| PpmCodec.ReadPixelText | src/ImageEditor.java:69-72 | reading the three lines written for a pixel gives back that pixel |
| PpmCodec.Encode | src/ImageEditor.java:96-112 | the written file has 3 + 3 * width * height lines: three header lines and one per channel |
| PpmCodec.ReadRow | src/ImageEditor.java:68-73 | a row read successfully holds exactly width pixels |
| PpmCodec.ReadRows | src/ImageEditor.java:67-73 | height rows read successfully, each of width pixels |
| PpmCodec.ReadHeader | src/ImageEditor.java:60-66 | a header read that succeeds yields positive dimensions, as the BufferedImage constructor demands |
| PpmCodec.ReadHeaderOutcome | src/ImageEditor.java:61-66 | the header read fails at its first failing step: a missing tag line, the width or height nextInt() error, IllegalArgument for a non-positive dimension before any further line is read, a missing dimensions-line rest or maxval line; otherwise it yields the two ints read and the text after the maxval line |
| PpmCodec.Decode | src/ImageEditor.java:59-73 | a successful read gives a well-formed image with positive dimensions |
| PpmCodec.DecodeHeaderFails | src/ImageEditor.java:59-66 | a header that cannot be read fails the whole read with the header's error |
| PpmCodec.HeaderText | src/ImageEditor.java:98-100 | reading the three written header lines gives back the width, the height and the text after them |
| PpmCodec.RoundTrip | src/ImageEditor.java:89-117 | reading what the writer writes gives back the image, for dimensions 1..2^31-1 |
| EditHistory.Empty | src/ImageEditor.java:26-38 | a new editor has no current and no original image, and undo and redo do nothing |
| EditHistory.AddImageZoomed | src/ImageEditor.java:141-149 | pushes img as the new top over the old stack, empties the redo stack, and raises zoomImageIndex by one exactly when the image is not zoomed |
| EditHistory.AddImage | src/ImageEditor.java:125-131 | the same as addImage(img, false): the index goes up by one |
| EditHistory.Current | src/ImageEditor.java:184-186 | an image exactly when the undo stack is non-empty, and it is the top |
| EditHistory.Original | src/ImageEditor.java:188-194 | an image exactly when 1 <= zoomImageIndex < size, and it is entry zoomImageIndex - 1, strictly below the top |
| EditHistory.Undo | src/ImageEditor.java:156-162 | with an empty undo stack nothing changes; otherwise the undo stack loses its top, which becomes the top of the redo stack, the rest of both stacks staying as they were; zoomImageIndex is kept |
| EditHistory.Redo | src/ImageEditor.java:168-174 | with an empty redo stack nothing changes; otherwise the redo stack loses its top, which becomes the top of the undo stack; zoomImageIndex is kept |
| EditHistory.Load | src/ImageEditor.java:74-77 | after a read the undo stack is the one image, the redo stack is empty and zoomImageIndex is 1 |
| EditHistory.UndoKeepsTimeline | src/ImageEditor.java:156-162 | undo keeps the index, the combined contents of both stacks and their order |
| EditHistory.RedoKeepsTimeline | src/ImageEditor.java:168-174 | redo keeps the index, the combined contents of both stacks and their order |
| EditHistory.RedoAfterUndo | src/ImageEditor.java:156-174 | undo followed by redo restores both stacks when there was something to undo |
| EditHistory.UndoAfterRedo | src/ImageEditor.java:156-174 | redo followed by undo restores both stacks when there was something to redo |
| EditHistory.UndoShowsPrevious | src/ImageEditor.java:156-162 | after undo the image below the old top is current, or none if the stack had one image |
| EditHistory.AddThenUndo | src/ImageEditor.java:141-162 | after adding, redo does nothing and undo brings back the previous stack and current image |
| EditHistory.LoadState | src/ImageEditor.java:74-77 | after a read there is no original yet, and an undo pops the loaded image itself |
| EditHistory.ZoomKeepsOriginal | src/ImageEditor.java:141-149 | from a state whose index equals the stack size (after a load and unzoomed adds only), zoomed adds keep the index and make that state's top the original |
| EditHistory.ZoomAddZoom | src/ImageEditor.java:141-149 | after a load, a zoom, an unzoomed add and another zoom, the "original" is the first zoomed image, not the unzoomed one |
| EditHistory.UndoThenZoom | src/ImageEditor.java:156-162 | undo does not move the index back, so two zooms after an undo make the first zoom the "original" |
| Editor.ImageEditor.constructor | src/ImageEditor.java:26-38 | both stacks empty, zoomImageIndex 0 |
| Editor.ImageEditor.AddImage | src/ImageEditor.java:125-131 | the new fields are EditHistory.AddImage of the old ones |
| Editor.ImageEditor.AddImageZoomed | src/ImageEditor.java:141-149 | the new fields are EditHistory.AddImageZoomed of the old ones |
| Editor.ImageEditor.UndoImage | src/ImageEditor.java:156-162 | the new fields are EditHistory.Undo of the old ones |
| Editor.ImageEditor.RedoImage | src/ImageEditor.java:168-174 | the new fields are EditHistory.Redo of the old ones |
| Editor.ImageEditor.GetImage | src/ImageEditor.java:184-186 | the top of the undo stack, or none when it is empty |
| Editor.ImageEditor.GetOriginalImage | src/ImageEditor.java:188-194 | entry zoomImageIndex-1 of the undo stack exactly when 1 <= zoomImageIndex < size |
| Editor.ImageEditor.ReadPpmImage | src/ImageEditor.java:59-83 | passes exactly when Decode succeeds; on failure the error is Decode's and the fields are unchanged; on success the history is Load of a fresh buffer holding the decoded image |
| Editor.ImageEditor.WritePpmImage | src/ImageEditor.java:89-117 | IllegalState with no image; otherwise Encode of the current image, which decodes back to that image |
| Editor.ScanImage | src/ImageEditor.java:60-73 | the reading loops succeed exactly when Decode does, with the same error, and fill a fresh buffer with the decoded image |
| Editor.ScanHeader | src/ImageEditor.java:61-66 | the header reads agree with PpmCodec.ReadHeader |
| Editor.ScanRow | src/ImageEditor.java:68-72 | the inner reading loop agrees with PpmCodec.ReadRow, stopping at the first failure |
| Editor.StoreRow | src/ImageEditor.java:73 | the setRGB calls of one row write that row and no other |
| Editor.ReadFailure | src/ImageEditor.java:67-73 | a row that cannot be read fails the whole read with that row's error |
| Editor.WriteImage | src/ImageEditor.java:96-112 | the writes produce exactly Encode of the buffer's contents |
| Editor.WriteHeader | src/ImageEditor.java:98-100 | the three header writes produce PpmCodec.Header |
| Editor.WriteRows | src/ImageEditor.java:103-112 | the row loop produces the text of every row, top to bottom |
| Editor.WriteRow | src/ImageEditor.java:104-111 | the column loop produces the text of the row's pixels, left to right |
| Editor.WritePixel | src/ImageEditor.java:108-110 | red, green and blue, each on a line of its own |

## Left out

- `zoom` is not part of this model. It computes sizes in floating point and resamples with `Graphics2D`.
- Transforms.Grayscale: uses the integer formula `(30 r + 59 g + 11 b) / 100`, not the source's `double` arithmetic, whose products and sums round. The source's result is one lower on many inputs, including 67 of the 256 grey levels (1, 2, 4, 5, 8, 10, 16, 20, 21, 31, ..., 128).
- Transforms.GrayscaleIdempotent: holds for the integer formula only. The source's grayscale is not idempotent. In `double`, 1 * 0.3 + 1 * 0.59 + 1 * 0.11 is 0.9999999999999999, so grey level 1 becomes 0, and each further application can darken a grey image again.
- Pixels are `Rgb` triples, not the packed `int` of `getRGB`/`setRGB` with its alpha byte.
- File handling is not modelled. The codec works on the whole file text, held in memory. Opening, closing and writing files, and the `IOException` to `RuntimeException` wrapping, are left out.
- Exceptions become `Failure` values with the exception's kind: `NoSuchElement`, `InputMismatch`, `IllegalArgument` or `IllegalState`.
- Editor.ImageEditor.ReadPpmImage: stores each row into the buffer once the row is read, instead of pixel by pixel. The buffer is private until the whole read succeeds, so the difference cannot be observed.
- Editor.ImageEditor.WritePpmImage: produces no text when there is no image. The source creates or truncates the file before it throws.
- `Scanner` is modelled for ASCII radix-10 input only. Locale group separators, non-ASCII digits and `Character.isWhitespace` outside ASCII are left out.
- `Scanner` treats a malformed token as an `InputMismatch` failure. Because the read stops there, the token is never re-read.
- PpmCodec.RoundTrip: requires both dimensions to be at most 2^31-1, because the reader parses them as `int`.
- Integer overflow is left out: Java `int` overflow of `width * n` in repeat, and of `zoomImageIndex`, is not modelled.
- Running out of memory when a large buffer is allocated is not modelled.
- PpmCodec.ReadHeader: rejects only non-positive dimensions. The `BufferedImage` constructor also throws `IllegalArgumentException` when width * height is too large for an `int`-indexed buffer, before any pixel is read. The model would read pixels instead.
- ImageOperations.Repeat: requires `n >= 1`. With `n < 1` the source's buffer constructor throws, and that path is not modelled.
- The Swing side is not part of this model: widgets, `revalidate`/`repaint`, `paintComponent`, the menu and zoom listeners, and `ImageEditorRunner.java`.
- The getters `getUndoStack`, `getRedoStack`, `getMenuBar` and `getScrollPane` are left out. They expose fields and hold no logic.
