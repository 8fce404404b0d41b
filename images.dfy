/** The in-memory image: its dimensions and its row-major grid of pixels,
    which the methods below update in place. */
module Images {
  import opened Grids

  class Image {
    var width: nat
    var height: nat
    var pixels: Grid

    /** The grid has `height` rows of `width` pixels. */
    predicate Valid()
      reads this
    {
      Shaped(pixels, height, width)
    }

    /** A `width` by `height` image, every pixel black. */
    constructor (width: nat := 0, height: nat := 0)
      ensures this.width == width && this.height == height
      ensures Valid()
      ensures forall r, c :: 0 <= r < height && 0 <= c < width ==> pixels[r][c] == Black
    {
      this.width := width;
      this.height := height;
      new;
      SetSize(width, height);
    }

    /** Replaces the grid by an all-black one of the given size. The
        dimension fields are not touched, so the image stays valid exactly
        when the size agrees with them. */
    method SetSize(width: nat, height: nat)
      modifies this`pixels
      ensures this.width == old(this.width) && this.height == old(this.height)
      ensures Shaped(pixels, height, width)
      ensures forall r, c :: 0 <= r < height && 0 <= c < width ==> pixels[r][c] == Black
      ensures Valid() <==> height == this.height && (height == 0 || width == this.width)
    {
      pixels := Blank(height, width);
      assert height > 0 ==> |pixels[0]| == width;
    }

    /** The pixel at row `x`, column `y`; a negative index counts from the
        end, as Python list indexing does. */
    function GetPixel(x: int, y: int): (r: Result<RGB, Error>)
      reads this
      ensures Valid() ==>
        (r.Ok? <==> -(height as int) <= x < height && -(width as int) <= y < width)
      ensures 0 <= x < |pixels| && 0 <= y < |pixels[x]| ==> r == Ok(pixels[x][y])
      ensures Valid() && -(height as int) <= x < height && -(width as int) <= y < width ==>
        r == Ok(pixels[if x < 0 then x + height else x][if y < 0 then y + width else y])
    {
      if Valid() then LocateShaped(pixels, height, width, x, y); PixelAt(pixels, x, y)
      else PixelAt(pixels, x, y)
    }

    /** Stores `rgb` at row `x`, column `y`, or fails and changes nothing
        when the indices are outside the grid. */
    method SetPixel(x: int, y: int, rgb: RGB) returns (r: Result<(), Error>)
      modifies this`pixels
      ensures width == old(width) && height == old(height)
      ensures r.Ok? <==> WithPixel(old(pixels), x, y, rgb).Ok?
      ensures pixels == if r.Ok? then WithPixel(old(pixels), x, y, rgb).value else old(pixels)
      ensures old(Valid()) ==> Valid()
    {
      match Locate(pixels, x, y)
      case None =>
        r := Err(OutOfBounds);
      case Some((row, column)) =>
        pixels := pixels[row := pixels[row][column := rgb]];
        r := Ok(());
    }

    /** Nearest-neighbour rescale by `scale`: builds a fresh grid of
        `floor(height*scale)` rows of `floor(width*scale)` pixels, fills each
        entry from the sampled source pixel, then replaces all three fields. */
    method ResizeImage(scale: Scale)
      requires Valid()
      modifies this
      ensures Valid()
      ensures height == Scaled(old(height), scale) && width == Scaled(old(width), scale)
      ensures pixels == Rescale(old(pixels), old(height), old(width), scale)
    {
      var newHeight := Scaled(height, scale);
      var newWidth := Scaled(width, scale);
      var newPixels := Blank(newHeight, newWidth);
      ghost var target := Rescale(pixels, height, width, scale);
      RescaleAt(pixels, height, width, scale);

      var row := 0;
      while row < newHeight
        invariant 0 <= row <= newHeight
        invariant Shaped(newPixels, newHeight, newWidth)
        invariant forall r :: 0 <= r < row ==> newPixels[r] == target[r]
      {
        var column := 0;
        while column < newWidth
          invariant 0 <= column <= newWidth
          invariant Shaped(newPixels, newHeight, newWidth)
          invariant forall r :: 0 <= r < row ==> newPixels[r] == target[r]
          invariant forall c :: 0 <= c < column ==> newPixels[row][c] == target[row][c]
        {
          var origin := GetPixel(Sample(row, height, scale), Sample(column, width, scale));
          newPixels := newPixels[row := newPixels[row][column := origin.value]];
          column := column + 1;
        }
        assert newPixels[row] == target[row];
        row := row + 1;
      }

      height := newHeight;
      width := newWidth;
      pixels := newPixels;
    }

    /** Mirrors every row in place, swapping column `c` with column
        `width-1-c` for each `c` below the floored half width. */
    method FlipHorizontal()
      requires Valid()
      modifies this`pixels
      ensures Valid() && width == old(width) && height == old(height)
      ensures pixels == HorizontalMirror(old(pixels))
    {
      ghost var original := pixels;
      var row := 0;
      while row < height
        invariant 0 <= row <= height
        invariant Valid()
        invariant pixels == MirroredAbove(original, row)
      {
        ghost var line := original[row];
        ReversedOutsideStart(line);
        var column := 0;
        while column < width / 2
          invariant 0 <= column <= width / 2
          invariant pixels == MirroredAbove(original, row)[row := ReversedOutside(line, column)]
        {
          var inverseColumn := Opposite(width, column);
          var temp := pixels[row][column];
          pixels := pixels[row := pixels[row][column := pixels[row][inverseColumn]]];
          pixels := pixels[row := pixels[row][inverseColumn := temp]];
          ReversedOutsideStep(line, column);
          column := column + 1;
        }
        ReversedOutsideDone(line);
        assert pixels == MirroredAbove(original, row + 1);
        row := row + 1;
      }
      assert pixels == HorizontalMirror(original);
    }

    /** Mirrors the order of the rows in place, swapping row `r` with row
        `height-1-r` for each `r` below the floored half height, one column
        at a time. */
    method FlipVertical()
      requires Valid()
      modifies this`pixels
      ensures Valid() && width == old(width) && height == old(height)
      ensures pixels == VerticalMirror(old(pixels))
    {
      ghost var original := pixels;
      ReversedOutsideStart(original);
      var row := 0;
      while row < height / 2
        invariant 0 <= row <= height / 2
        invariant Valid()
        invariant pixels == ReversedOutside(original, row)
      {
        ghost var start := pixels;
        ghost var top, bottom := original[row], original[height - 1 - row];
        SplicedStart(bottom, top);
        SplicedStart(top, bottom);
        var column := 0;
        while column < width
          invariant 0 <= column <= width
          invariant pixels == start[row := Spliced(bottom, top, column)][height - 1 - row := Spliced(top, bottom, column)]
        {
          var inverseRow := Opposite(height, row);
          var temp := pixels[row][column];
          pixels := pixels[row := pixels[row][column := pixels[inverseRow][column]]];
          pixels := pixels[inverseRow := pixels[inverseRow][column := temp]];
          SplicedStep(bottom, top, column);
          SplicedStep(top, bottom, column);
          column := column + 1;
        }
        SplicedDone(bottom, top);
        SplicedDone(top, bottom);
        ReversedOutsideStep(original, row);
        row := row + 1;
      }
      ReversedOutsideDone(original);
    }
  }
}
