/** Pure values behind the image buffer: colours, row-major pixel grids, and
    the specification functions that the `Image` methods are proved against. */
module Grids {

  /** One 8-bit colour channel. */
  newtype Channel = x: int | 0 <= x < 256

  /** An RGB triple, compared and copied by value. */
  datatype RGB = RGB(red: Channel, green: Channel, blue: Channel)

  const Black: RGB := RGB(0, 0, 0)

  /** A grid of pixels, row-major: `g[row][column]`. */
  type Grid = seq<seq<RGB>>

  datatype Option<T> = None | Some(value: T)

  datatype Result<T, E> = Ok(value: T) | Err(error: E)

  /** The only failure of the pixel accessors: an index outside the grid. */
  datatype Error = OutOfBounds

  /** `g` has exactly `height` rows of `width` entries each. */
  predicate Shaped(g: Grid, height: nat, width: nat) {
    |g| == height && forall r :: 0 <= r < |g| ==> |g[r]| == width
  }

  /** The all-black grid that `setSize` allocates. */
  function Blank(height: nat, width: nat): (g: Grid)
    ensures Shaped(g, height, width)
    ensures forall r, c :: 0 <= r < height && 0 <= c < width ==> g[r][c] == Black
  {
    seq(height, _ => seq(width, _ => Black))
  }

  // ---------------------------------------------------------------------
  // Pixel access

  /** Indexing a list of length `n` with `i`: a negative index counts from
      the end, and anything outside `-n .. n-1` is rejected. */
  function ResolveIndex(i: int, n: nat): (k: Option<nat>)
    ensures k.Some? <==> -(n as int) <= i < n
    ensures k.Some? ==> k.value < n && (k.value == i || k.value == i + n)
  {
    if 0 <= i < n then Some(i)
    else if -(n as int) <= i < 0 then Some(i + n)
    else None
  }

  /** The cell that `g[x][y]` designates, if any. */
  function Locate(g: Grid, x: int, y: int): (cell: Option<(nat, nat)>)
    ensures cell.Some? ==> cell.value.0 < |g| && cell.value.1 < |g[cell.value.0]|
  {
    match ResolveIndex(x, |g|)
    case None => None
    case Some(row) =>
      match ResolveIndex(y, |g[row]|)
      case None => None
      case Some(column) => Some((row, column))
  }

  /** Reading `g[x][y]`. */
  function PixelAt(g: Grid, x: int, y: int): (p: Result<RGB, Error>) {
    match Locate(g, x, y)
    case None => Err(OutOfBounds)
    case Some((row, column)) => Ok(g[row][column])
  }

  /** Assigning `g[x][y] := v`. */
  function WithPixel(g: Grid, x: int, y: int, v: RGB): (r: Result<Grid, Error>) {
    match Locate(g, x, y)
    case None => Err(OutOfBounds)
    case Some((row, column)) => Ok(g[row := g[row][column := v]])
  }

  /** On a grid of `height` rows of `width` entries, an access succeeds
      exactly when both indices are within Python's list bounds. */
  lemma LocateShaped(g: Grid, height: nat, width: nat, x: int, y: int)
    requires Shaped(g, height, width)
    ensures Locate(g, x, y).Some? <==> -(height as int) <= x < height && -(width as int) <= y < width
    ensures PixelAt(g, x, y).Ok? <==> -(height as int) <= x < height && -(width as int) <= y < width
  {
  }

  /** Writing a pixel keeps the shape, fails exactly when reading fails, makes
      the next read at the same indices return the value written, and leaves
      every other cell as it was. */
  lemma SetThenGet(g: Grid, x: int, y: int, v: RGB)
    ensures WithPixel(g, x, y, v).Ok? <==> PixelAt(g, x, y).Ok?
    ensures WithPixel(g, x, y, v).Ok? ==>
      var g' := WithPixel(g, x, y, v).value;
      |g'| == |g| && (forall r :: 0 <= r < |g| ==> |g'[r]| == |g[r]|) &&
      PixelAt(g', x, y) == Ok(v) &&
      forall x', y' :: Locate(g, x', y') != Locate(g, x, y) ==> PixelAt(g', x', y') == PixelAt(g, x', y')
  {
  }

  // ---------------------------------------------------------------------
  // Flips

  /** The partner that index `i` is swapped with when a line of `n` entries
      is mirrored. */
  function Opposite(n: nat, i: nat): (j: nat)
    requires i < n
    ensures j < n
    ensures i < n / 2 <==> (n - 1) / 2 < j
    ensures n % 2 == 1 && i == n / 2 ==> j == i
  {
    n - 1 - i
  }

  /** A line read back to front: a row for `flipHorizontal`, the list of
      rows for `flipVertical`. */
  function Reversed<T>(s: seq<T>): (m: seq<T>) {
    seq(|s|, i requires 0 <= i < |s| => s[Opposite(|s|, i)])
  }

  /** Every row reversed: what `flipHorizontal` produces. */
  function HorizontalMirror(g: Grid): (m: Grid) {
    seq(|g|, r requires 0 <= r < |g| => Reversed(g[r]))
  }

  /** The order of the rows reversed: what `flipVertical` produces. */
  function VerticalMirror(g: Grid): (m: Grid) {
    Reversed(g)
  }

  /** Mirroring an index twice gives it back. */
  lemma {:induction false} OppositeInvolution(n: nat, i: nat)
    requires i < n
    ensures Opposite(n, Opposite(n, i)) == i
  {
  }

  /** `flipHorizontal` keeps the shape and moves column `c` of every row to
      column `width-1-c`. */
  lemma HorizontalMirrorAt(g: Grid, height: nat, width: nat)
    requires Shaped(g, height, width)
    ensures Shaped(HorizontalMirror(g), height, width)
    ensures forall r, c :: 0 <= r < height && 0 <= c < width ==>
      HorizontalMirror(g)[r][c] == g[r][width - 1 - c]
  {
  }

  /** `flipVertical` keeps the shape and moves row `r` to row `height-1-r`. */
  lemma VerticalMirrorAt(g: Grid, height: nat, width: nat)
    requires Shaped(g, height, width)
    ensures Shaped(VerticalMirror(g), height, width)
    ensures forall r, c :: 0 <= r < height && 0 <= c < width ==>
      VerticalMirror(g)[r][c] == g[height - 1 - r][c]
  {
  }

  /** Reversing a line twice restores it. */
  lemma ReversedInvolution<T>(s: seq<T>)
    ensures Reversed(Reversed(s)) == s
  {
    var m := Reversed(Reversed(s));
    forall i | 0 <= i < |s| ensures m[i] == s[i] {
      OppositeInvolution(|s|, i);
    }
  }

  /** Flipping horizontally twice restores the grid. */
  lemma HorizontalMirrorInvolution(g: Grid)
    ensures HorizontalMirror(HorizontalMirror(g)) == g
  {
    var m := HorizontalMirror(HorizontalMirror(g));
    forall r | 0 <= r < |g| ensures m[r] == g[r] {
      ReversedInvolution(g[r]);
    }
  }

  /** Flipping vertically twice restores the grid. */
  lemma VerticalMirrorInvolution(g: Grid)
    ensures VerticalMirror(VerticalMirror(g)) == g
  {
  }

  // Progress of the in-place swap loops.

  /** `s` after its first `k` entries have been swapped with their partners
      at the far end. */
  function ReversedOutside<T>(s: seq<T>, k: nat): (m: seq<T>)
    requires k <= |s| / 2
    ensures |m| == |s|
  {
    seq(|s|, i requires 0 <= i < |s| => if i < k || |s| - k <= i then s[Opposite(|s|, i)] else s[i])
  }

  lemma ReversedOutsideStart<T>(s: seq<T>)
    ensures ReversedOutside(s, 0) == s
  {
  }

  /** One more swap, of entry `k` with its partner, extends the reversed
      border by one. */
  lemma ReversedOutsideStep<T>(s: seq<T>, k: nat)
    requires k < |s| / 2
    ensures ReversedOutside(s, k)[k := s[Opposite(|s|, k)]][Opposite(|s|, k) := s[k]] == ReversedOutside(s, k + 1)
  {
  }

  /** Once the swaps have reached the floored half, the line is reversed;
      an odd line's middle entry never moves. */
  lemma ReversedOutsideDone<T>(s: seq<T>)
    ensures ReversedOutside(s, |s| / 2) == Reversed(s)
  {
  }

  /** `b` with its first `k` entries taken from `a`. */
  function Spliced<T>(a: seq<T>, b: seq<T>, k: nat): (m: seq<T>)
    requires |a| == |b| && k <= |b|
    ensures |m| == |b|
  {
    seq(|b|, i requires 0 <= i < |b| => if i < k then a[i] else b[i])
  }

  lemma SplicedStart<T>(a: seq<T>, b: seq<T>)
    requires |a| == |b|
    ensures Spliced(a, b, 0) == b
  {
  }

  lemma SplicedStep<T>(a: seq<T>, b: seq<T>, k: nat)
    requires |a| == |b| && k < |b|
    ensures Spliced(a, b, k)[k := a[k]] == Spliced(a, b, k + 1)
  {
  }

  lemma SplicedDone<T>(a: seq<T>, b: seq<T>)
    requires |a| == |b|
    ensures Spliced(a, b, |b|) == a
  {
  }

  /** `g` with rows before `k` already reversed. */
  function MirroredAbove(g: Grid, k: nat): (m: Grid)
    requires k <= |g|
    ensures |m| == |g|
  {
    seq(|g|, r requires 0 <= r < |g| => if r < k then Reversed(g[r]) else g[r])
  }

  // ---------------------------------------------------------------------
  // Resize

  /** An exact, non-negative scale factor `num / den`. */
  datatype Ratio = Ratio(num: nat, den: nat)
  type Scale = s: Ratio | s.den > 0 witness Ratio(1, 1)

  /** `floor(n * scale)`: a dimension after resizing. */
  function Scaled(n: nat, s: Scale): (m: nat) {
    n * s.num / s.den
  }

  /** `floor(i / scale)`: the source index sampled for destination index `i`;
      it lies inside the source for every destination index. */
  function Sample(i: nat, n: nat, s: Scale): (k: nat)
    requires i < Scaled(n, s)
    ensures k < n
  {
    SampleInBounds(i, n, s);
    i * s.den / s.num
  }

  /** A destination index below `floor(n * scale)` has a positive scale and
      samples a source index below `n`. */
  lemma SampleInBounds(i: nat, n: nat, s: Scale)
    requires i < Scaled(n, s)
    ensures s.num > 0 && i * s.den / s.num < n
  {
    var p, q := s.num, s.den;
    var m := n * p / q;
    assert m * q <= n * p;
    assert (i + 1) * q <= m * q by { MulMonotone(i + 1, m, q); }
    assert i * q < n * p;
    if p == 0 {
      assert false;
    }
    var k := i * q / p;
    assert k * p <= i * q;
    if k >= n {
      MulMonotone(n, k, p);
      assert false;
    }
  }

  lemma MulMonotone(a: nat, b: nat, c: nat)
    requires a <= b
    ensures a * c <= b * c
  {
  }

  /** The nearest-neighbour rescale that `resizeImage` computes. */
  function Rescale(g: Grid, height: nat, width: nat, s: Scale): (r: Grid)
    requires Shaped(g, height, width)
  {
    seq(Scaled(height, s), r requires 0 <= r < Scaled(height, s) =>
      seq(Scaled(width, s), c requires 0 <= c < Scaled(width, s) =>
        g[Sample(r, height, s)][Sample(c, width, s)]))
  }

  /** The rescaled grid has `floor(height*scale)` rows of `floor(width*scale)`
      entries, and each entry is the source pixel at the sampled row and
      column. */
  lemma RescaleAt(g: Grid, height: nat, width: nat, s: Scale)
    requires Shaped(g, height, width)
    ensures Shaped(Rescale(g, height, width, s), Scaled(height, s), Scaled(width, s))
    ensures forall r, c :: 0 <= r < Scaled(height, s) && 0 <= c < Scaled(width, s) ==>
      Rescale(g, height, width, s)[r][c] == g[Sample(r, height, s)][Sample(c, width, s)]
  {
  }

  /** A unit scale leaves every dimension and every index as it is. */
  lemma UnitScale(n: nat, i: nat, s: Scale)
    requires s.num == s.den
    ensures Scaled(n, s) == n
    ensures i < n ==> Sample(i, n, s) == i
  {
    var p := s.num;
    DivCancel(n, p);
    DivCancel(i, p);
  }

  lemma DivCancel(a: nat, p: nat)
    requires p > 0
    ensures a * p / p == a
  {
    var k := a * p / p;
    assert k * p + a * p % p == a * p;
    if k < a {
      MulMonotone(k + 1, a, p);
    } else if k > a {
      MulMonotone(a + 1, k, p);
    }
  }

  /** Resizing by a scale of one gives back the same grid. */
  lemma RescaleIdentity(g: Grid, height: nat, width: nat, s: Scale)
    requires Shaped(g, height, width)
    requires s.num == s.den
    ensures Rescale(g, height, width, s) == g
  {
    var g' := Rescale(g, height, width, s);
    UnitScale(height, 0, s);
    UnitScale(width, 0, s);
    forall r | 0 <= r < height ensures g'[r] == g[r] {
      forall c | 0 <= c < width ensures g'[r][c] == g[r][c] {
        UnitScale(height, r, s);
        UnitScale(width, c, s);
      }
    }
  }

  /** Resizing an all-black grid gives the all-black grid of the new size. */
  lemma RescaleBlank(height: nat, width: nat, s: Scale)
    ensures Rescale(Blank(height, width), height, width, s) == Blank(Scaled(height, s), Scaled(width, s))
  {
    var g', b := Rescale(Blank(height, width), height, width, s), Blank(Scaled(height, s), Scaled(width, s));
    forall r | 0 <= r < Scaled(height, s) ensures g'[r] == b[r] {
      assert forall c :: 0 <= c < Scaled(width, s) ==> g'[r][c] == b[r][c];
    }
  }
}
