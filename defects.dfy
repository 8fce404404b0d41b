/** The resize and vertical flip as the source writes them, kept
    beside the corrected definitions in `Grids` to exhibit where they differ. */
module Defects {
  import opened Grids

  /** `resizeImage` as written: the destination entry at (row, column) reads
      `getPixel(column', row')`, i.e. the source grid at row `column'` and
      column `row'`, where `row'` and `column'` are the sampled indices.
      Any read outside the grid raises. */
  function RescaleAsWritten(g: Grid, height: nat, width: nat, s: Scale): (r: Result<Grid, Error>)
    requires Shaped(g, height, width)
    ensures r.Ok? ==> Shaped(r.value, Scaled(height, s), Scaled(width, s))
  {
    if forall i, j :: 0 <= i < Scaled(height, s) && 0 <= j < Scaled(width, s) ==>
         PixelAt(g, Sample(j, width, s), Sample(i, height, s)).Ok?
    then
      Ok(seq(Scaled(height, s), i requires 0 <= i < Scaled(height, s) =>
        seq(Scaled(width, s), j requires 0 <= j < Scaled(width, s) =>
          PixelAt(g, Sample(j, width, s), Sample(i, height, s)).value)))
    else
      Err(OutOfBounds)
  }

  const White: RGB := RGB(255, 255, 255)

  /** On a one-row, two-column image, resizing by one as written reads row 1
      of the source, which does not exist; the corrected rescale returns the
      image unchanged. */
  lemma RescaleAsWrittenFails()
    ensures RescaleAsWritten([[Black, White]], 1, 2, Ratio(1, 1)) == Err(OutOfBounds)
    ensures Rescale([[Black, White]], 1, 2, Ratio(1, 1)) == [[Black, White]]
  {
    var g: Grid := [[Black, White]];
    var s: Scale := Ratio(1, 1);
    assert Sample(1, 2, s) == 1 && Sample(0, 1, s) == 0;
    assert !PixelAt(g, Sample(1, 2, s), Sample(0, 1, s)).Ok?;
    RescaleIdentity(g, 1, 2, s);
  }

  /** The state a run of an in-place operation leaves behind, and the
      exception it raised, if any. */
  datatype Attempt = Attempt(grid: Grid, failure: Option<Error>)

  /** `flipVertical` as written, with its outer bound floored: for each of the
      first `height / 2` rows, the inner loop runs over `height` columns
      instead of `width`. When that passes the end of a row, the first pass
      has already swapped every column of rows 0 and `height-1` before it
      raises; otherwise only the first `height` columns of each row pair are
      swapped. */
  function VerticalMirrorAsWritten(g: Grid, height: nat, width: nat): (r: Attempt)
    requires Shaped(g, height, width)
    ensures Shaped(r.grid, height, width)
    ensures r.failure.Some? <==> height / 2 > 0 && height > width
  {
    if height / 2 > 0 && height > width then
      Attempt(g[0 := g[height - 1]][height - 1 := g[0]], Some(OutOfBounds))
    else
      Attempt(seq(height, i requires 0 <= i < height =>
        if i < height / 2 || height - height / 2 <= i then Spliced(g[Opposite(height, i)], g[i], height)
        else g[i]), None)
  }

  /** On a three-row, one-column image, the flip as written swaps rows 0
      and 2, then raises when the inner loop reaches column 1. */
  lemma VerticalMirrorAsWrittenRaises()
    ensures VerticalMirrorAsWritten([[Black], [Black], [White]], 3, 1)
         == Attempt([[White], [Black], [Black]], Some(OutOfBounds))
  {
  }

  /** On a two-row, three-column image, the third column is never swapped:
      as written, the flip leaves this image as it was, while the intended
      vertical mirror moves its white pixel to the other row. */
  lemma VerticalMirrorAsWrittenMisses()
    ensures VerticalMirrorAsWritten([[Black, Black, White], [Black, Black, Black]], 2, 3)
         == Attempt([[Black, Black, White], [Black, Black, Black]], None)
    ensures VerticalMirror([[Black, Black, White], [Black, Black, Black]])
         == [[Black, Black, Black], [Black, Black, White]]
  {
    var g: Grid := [[Black, Black, White], [Black, Black, Black]];
    var r := VerticalMirrorAsWritten(g, 2, 3).grid;
    assert r[0] == Spliced(g[1], g[0], 2);
    assert r[1] == Spliced(g[0], g[1], 2);
    assert r[0][0] == g[0][0] && r[0][1] == g[0][1] && r[0][2] == g[0][2];
    assert r[1][0] == g[1][0] && r[1][1] == g[1][1] && r[1][2] == g[1][2];
    assert r[0] == g[0] && r[1] == g[1];
    assert |r| == 2 && r == g;
    assert VerticalMirrorAsWritten(g, 2, 3) == Attempt(r, None);
    var m := VerticalMirror(g);
    assert m[0] == g[1] && m[1] == g[0];
  }
}
