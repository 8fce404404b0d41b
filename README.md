# Image buffer of the inheritance-vs-composition example

This project models the `Image` class that both variants of the toy image
editor share (`inheritance-vs-composition/composition.py` and, line for line,
`inheritance-vs-composition/inheritance.py`). An image holds a width, a
height and a row-major grid of RGB triples. Its methods allocate an
all-black grid, read and write single pixels, rescale by nearest neighbour,
and mirror the image horizontally or vertically with in-place swap loops.
The model also covers the two pieces of selection logic in the application
class: the file format picked from a path suffix, and the flip button
dispatch.

Layout:

- `grids.dfy`, module `Grids`: the value types (`Channel`, `RGB`, `Grid`,
  `Result`, `Option`). It also holds the specification functions the methods
  are proved against (`Blank`, `PixelAt`, `WithPixel`, `HorizontalMirror`,
  `VerticalMirror`, `Rescale`) and the lemmas about them.
- `images.dfy`, module `Images`: class `Image`. Its fields are `width`,
  `height` and `pixels`. The pixel grid is a `seq<seq<RGB>>` field that the
  methods reassign, as the source reassigns entries of its list of lists.
  The flips are the source's nested `while` loops with a swap through
  `temp`. `ResizeImage` fills a fresh grid in a double loop, then replaces
  all three fields.
- `app.dfy`, module `App`: the suffix-to-format rule, the start-up that
  fails when no format matches, and `ImageAppUI.OnFlipClicked`.
- `defects.dfy`, module `Defects`: the resize and vertical flip as written
  (with the exact scale and the floored outer bound of the flip), with the
  inputs on which they go wrong (see "## Findings").

Conventions fixed by the model:

- Row-major everywhere. The first index of `GetPixel`/`SetPixel` is the row,
  which is what `pixels[x][y]` does on a grid built as a list of rows.
  `ResizeImage` samples the source at (sampled row, sampled column).
- Indices follow Python list indexing. A negative index counts from the end.
  An index outside `-n .. n-1` raises, and the model returns
  `Err(OutOfBounds)` with the grid unchanged.
- The halves that bound the flip loops are floored (`width / 2`,
  `height / 2`). The source's `range(self.width/2)` and
  `range(self.height/2)` use true division, whose float result Python's
  `range` rejects whenever the loop is reached.
- `flipVertical`'s inner loop runs over the width. The source runs it over
  the height.
- A scale factor is an exact non-negative rational `num / den` with
  `den > 0`. The new dimensions are `floor(n * num / den)`. The sampled index
  for destination index `i` is `floor(i * den / num)`. A zero scale gives an
  empty grid without dividing, as in the source, where the sampling loops
  never run.

## Model

| member | source | states |
|---|---|---|
| `Grids.Blank` | inheritance-vs-composition/composition.py:11-12 | the allocated grid has exactly `height` rows of `width` entries, every one black |
| `Images.Image.constructor` | inheritance-vs-composition/composition.py:6-12 | both dimensions default to zero; the fields equal the arguments and the grid is a valid all-black `height` by `width` grid |
| `Images.Image.SetSize` | inheritance-vs-composition/inheritance.py:12-13 | only the grid is replaced, by an all-black grid of the given shape; the dimension fields are unchanged, so the image is valid exactly when the new shape agrees with them |
| `Grids.ResolveIndex` | inheritance-vs-composition/composition.py:14-15 | a list index is accepted exactly when it lies in `-n .. n-1`; the cell it designates is in bounds and is the index itself or the index counted from the end |
| `Grids.Locate` | inheritance-vs-composition/composition.py:17-18 | a designated cell is inside the grid's outer list and inside that row |
| `Grids.LocateShaped` | inheritance-vs-composition/inheritance.py:15-16 | on a grid of `height` rows of `width` entries, an access succeeds if and only if the row index is in `-height .. height-1` and the column index in `-width .. width-1` |
| `Images.Image.GetPixel` | inheritance-vs-composition/composition.py:14-15 | on a valid image, reading succeeds if and only if both indices are in bounds; it returns `pixels[x][y]`, with a negative index counted from the end of its row or of the grid |
| `Images.Image.SetPixel` | inheritance-vs-composition/composition.py:17-18 | the write succeeds exactly when the indices designate a cell; the new grid is the old one with that cell replaced, or untouched on failure; dimensions and validity are kept |
| `Grids.SetThenGet` | inheritance-vs-composition/inheritance.py:15-19 | writing fails exactly when reading fails; after a write the shape is the same, reading the same indices returns the written triple, and every other cell reads as before |
| `Grids.Sample` | inheritance-vs-composition/composition.py:25-27 | for every destination index below `floor(n * scale)`, the sampled source index is below `n` |
| `Grids.SampleInBounds` | inheritance-vs-composition/inheritance.py:26-28 | a destination index below `floor(n * scale)` implies a positive scale and a sampled index `floor(i / scale)` below `n` |
| `Grids.RescaleAt` | inheritance-vs-composition/composition.py:20-28 | the resized grid has `floor(height*scale)` rows of `floor(width*scale)` entries, and entry `[r][c]` is the source entry at row `floor(r/scale)`, column `floor(c/scale)` |
| `Grids.UnitScale` | inheritance-vs-composition/inheritance.py:22-23 | with scale one the new dimensions equal the old and every sampled index is the destination index |
| `Grids.RescaleIdentity` | inheritance-vs-composition/inheritance.py:21-33 | resizing by scale one yields exactly the original grid |
| `Grids.RescaleBlank` | inheritance-vs-composition/composition.py:20-28 | resizing an all-black grid yields the all-black grid of the new dimensions |
| `Images.Image.ResizeImage` | inheritance-vs-composition/composition.py:20-32 | `height` and `width` become `floor(old * scale)`, the image stays valid, and the new grid is the nearest-neighbour rescale of the old one |
| `Grids.Opposite` | inheritance-vs-composition/composition.py:36-47 | the swap partner `n-1-i` of an index is in bounds, indices below the floored half map strictly into the upper half, and the middle index of an odd line is its own partner |
| `Grids.OppositeInvolution` | inheritance-vs-composition/composition.py:38-42 | the partner of the partner of an index is the index itself |
| `Grids.HorizontalMirrorAt` | inheritance-vs-composition/composition.py:35-42 | the horizontal mirror keeps the shape and puts the old entry `[r][width-1-c]` at `[r][c]` |
| `Grids.VerticalMirrorAt` | inheritance-vs-composition/composition.py:44-51 | the vertical mirror keeps the shape and puts the old entry `[height-1-r][c]` at `[r][c]` |
| `Grids.ReversedInvolution` | inheritance-vs-composition/inheritance.py:36-52 | reversing a line, a row or the list of rows, twice restores it |
| `Grids.HorizontalMirrorInvolution` | inheritance-vs-composition/inheritance.py:36-43 | mirroring horizontally twice restores the grid |
| `Grids.VerticalMirrorInvolution` | inheritance-vs-composition/inheritance.py:45-52 | mirroring vertically twice restores the grid |
| `Images.Image.FlipHorizontal` | inheritance-vs-composition/composition.py:35-42 | the in-place swaps over the floored half width leave the dimensions and validity unchanged and turn the grid into its horizontal mirror |
| `Images.Image.FlipVertical` | inheritance-vs-composition/composition.py:44-51 | the in-place swaps over the floored half height, column by column across the width, leave the dimensions and validity unchanged and turn the grid into its vertical mirror |
| `App.FormatForSuffix` | inheritance-vs-composition/inheritance.py:115-121 | a format is selected exactly for `.jpg`, `.png` and `.bmp`, and the selected format's suffix is the one given |
| `App.FormatForSuffixExact` | inheritance-vs-composition/inheritance.py:116-121 | a suffix selects a format if and only if it is that format's own suffix |
| `App.SuffixCaseSensitive` | inheritance-vs-composition/inheritance.py:115-117 | upper-case `.JPG`, `.PNG` and `.BMP` select nothing |
| `App.Open` | inheritance-vs-composition/inheritance.py:114-123 | given the path and its already-extracted suffix, start-up succeeds exactly for the three known suffixes, with a file image of the selected format on the given path; any other suffix fails because no image was assigned before `load` |
| `App.FlippedTwice` | inheritance-vs-composition/composition.py:115-119 | pressing flip twice with the same choice restores the grid |
| `App.ImageAppUI.OnFlipClicked` | inheritance-vs-composition/inheritance.py:128-132 | with `true` the image becomes its horizontal mirror, with `false` its vertical mirror; dimensions and validity are kept |
| `Defects.RescaleAsWritten` | inheritance-vs-composition/composition.py:25-27 | resize as written, sampling with the arguments swapped, fails if any swapped read is out of bounds; otherwise it has the resized shape |
| `Defects.RescaleAsWrittenFails` | inheritance-vs-composition/composition.py:27 | on a one-row, two-column image at scale one the resize as written fails, while the corrected resize returns the image |
| `Defects.VerticalMirrorAsWritten` | inheritance-vs-composition/composition.py:44-51 | flip vertical as written, with the inner loop over `height`: it keeps the shape, and it raises exactly when the image has at least two rows and more rows than columns, after the first pass has swapped rows 0 and `height-1` |
| `Defects.VerticalMirrorAsWrittenRaises` | inheritance-vs-composition/composition.py:46-51 | on a three-row, one-column image the flip as written swaps rows 0 and 2, and then raises |
| `Defects.VerticalMirrorAsWrittenMisses` | inheritance-vs-composition/composition.py:46 | on a two-row, three-column image the flip as written leaves the image unchanged, while the vertical mirror moves the third column's pixel to the other row |

## Findings

| source | as written | input that shows it | evidently intended | confidence | as-written member | corrected member |
|---|---|---|---|---|---|---|
| inheritance-vs-composition/composition.py:27 | `getPixel(int(column/scale), int(row/scale))` reads `pixels[column'][row']` on a row-major grid | a 1-row, 2-column image resized by 1: the destination entry at column 1 reads row 1, which does not exist | read the source at (sampled row, sampled column), so that resizing by 1 is the identity | not executed | `Defects.RescaleAsWrittenFails` | `Grids.RescaleIdentity` |
| inheritance-vs-composition/composition.py:46 | `flipVertical`'s inner loop is `range(self.height)` | a 2-row, 3-column image: only columns 0 and 1 are swapped, column 2 stays | the inner loop runs over the width | not executed | `Defects.VerticalMirrorAsWrittenMisses` | `Images.Image.FlipVertical` |

The same two lines appear in `inheritance-vs-composition/inheritance.py` at
lines 28 and 47. `Defects.VerticalMirrorAsWritten` floors the half in its
outer loop bound. Without that, `range(self.height/2)` (`composition.py:45`)
rejects its float argument, so `flipVertical` raises for every image.
`flipHorizontal` has the same true division in `range(self.width/2)`
(`composition.py:37`), but only inside `for row in range(self.height)`. It
therefore returns without raising on an image with no rows, such as the
default `Image()`, and raises on every other image.

## Left out

- Format adapters' `save` and `load` (`JPGImage`, `PNGImage`, `BMPImage`, both files): they call undefined foreign functions (`saveImageAsJPG`, `loadPNG`, …) and are file I/O. `App.Open` stops at choosing the adapter.
- `FileBasedInterface` and the `@abstractmethod` scaffolding: Python class machinery with no behaviour.
- `DrawableImage.drawLine`, `DrawableImage.drawPoint` and `onLineTool`: their bodies are `pass`. `DrawableImage.save`/`load` in `inheritance.py` only raise.
- `onSaveClicked`: it only forwards to an adapter's `save`, which is I/O.
- UI constructor wiring beyond the suffix rule. In `composition.py` the constructor loads into an unassigned `self.image`. The per-format constructors in `inheritance.py` skip `Image.__init__`, so their images have no pixels. `App.ImageAppUI.constructor` simply stores a given image.
- `pathlib.Path.suffix`: the format choice is a function of the already-extracted suffix string.
- Floating-point scale: the scale is an exact rational. Python's float products and `int()` truncation can differ from exact floors at boundaries.
- `Images.Image.ResizeImage`: negative scale factors are not modelled. In Python they give non-positive dimensions, an empty grid and a negative `height`/`width`.
- Negative widths and heights: the dimensions are `nat`. In Python `range` of a negative number is empty, but the negative value would still be stored in the field.
- `Grids.Channel`: channel values are limited to 0–255. The source's tuples are not checked.
- `Images.Image.FlipHorizontal`, `Images.Image.FlipVertical`, `Images.Image.ResizeImage`: each requires the grid to agree with `width` and `height`. A bare `SetSize` with other dimensions breaks that, and in Python the loops would then raise or touch only part of the grid.
- Aliasing of row lists: Python rows are shared mutable lists. The model's rows are values, and the source never shares a row between two images.
