/** The application layer around the image: choosing a file format from a
    path's suffix, and dispatching the flip button to one of the flips. */
module App {
  import opened Grids
  import opened Images

  /** The file formats the application can open. */
  datatype Format = JPG | PNG | BMP

  /** The suffix that selects each format. */
  function SuffixOf(f: Format): (suffix: string) {
    match f
    case JPG => ".jpg"
    case PNG => ".png"
    case BMP => ".bmp"
  }

  /** The format selected by an already-extracted path suffix. Matching is
      exact and case-sensitive; any other suffix selects nothing. */
  function FormatForSuffix(suffix: string): (f: Option<Format>)
    ensures f.Some? <==> suffix in {".jpg", ".png", ".bmp"}
    ensures f.Some? ==> SuffixOf(f.value) == suffix
  {
    if suffix == ".jpg" then Some(JPG)
    else if suffix == ".png" then Some(PNG)
    else if suffix == ".bmp" then Some(BMP)
    else None
  }

  /** Each format is selected by its own suffix and by no other. */
  lemma FormatForSuffixExact(suffix: string, f: Format)
    ensures FormatForSuffix(suffix) == Some(f) <==> suffix == SuffixOf(f)
  {
    if suffix == SuffixOf(f) {
      match f
      case JPG =>
      case PNG => assert suffix != ".jpg";
      case BMP => assert suffix != ".jpg" && suffix != ".png";
    }
  }

  /** Upper-case suffixes are not recognised. */
  lemma SuffixCaseSensitive()
    ensures FormatForSuffix(".JPG") == None
    ensures FormatForSuffix(".PNG") == None
    ensures FormatForSuffix(".BMP") == None
  {
  }

  /** The file-backed image the application opens: a format and a path. */
  datatype FileImage = FileImage(format: Format, path: string)

  /** Opening fails when no branch of the suffix match assigned the image
      attribute, so the following `load` finds nothing to call. */
  datatype OpenError = ImageNotAssigned

  /** The application start-up: the suffix of `path` picks the file image;
      without a match, loading fails. `pathSuffix` stands for
      `pathlib.Path(path).suffix`, which the model takes as already
      extracted; nothing here computes it from `path`. */
  function Open(path: string, pathSuffix: string): (r: Result<FileImage, OpenError>)
    ensures r.Ok? <==> pathSuffix in {".jpg", ".png", ".bmp"}
    ensures r.Ok? ==> r.value.path == path && SuffixOf(r.value.format) == pathSuffix
    ensures r.Err? ==> r.error == ImageNotAssigned
  {
    match FormatForSuffix(pathSuffix)
    case None => Err(ImageNotAssigned)
    case Some(f) => Ok(FileImage(f, path))
  }

  /** The grid the flip button leaves behind. */
  function Flipped(horizontal: bool, g: Grid): (m: Grid) {
    if horizontal then HorizontalMirror(g) else VerticalMirror(g)
  }

  /** Pressing the flip button twice with the same choice restores the image. */
  lemma FlippedTwice(horizontal: bool, g: Grid)
    ensures Flipped(horizontal, Flipped(horizontal, g)) == g
  {
    if horizontal {
      HorizontalMirrorInvolution(g);
    } else {
      VerticalMirrorInvolution(g);
    }
  }

  /** The user interface holding the image being edited. */
  class ImageAppUI {
    var image: Image

    constructor (image: Image)
      ensures this.image == image
    {
      this.image := image;
    }

    /** Flips the image horizontally when `horizontal` holds, vertically
        otherwise. */
    method OnFlipClicked(horizontal: bool)
      requires image.Valid()
      modifies image`pixels
      ensures image.Valid()
      ensures image.width == old(image.width) && image.height == old(image.height)
      ensures image.pixels == Flipped(horizontal, old(image.pixels))
    {
      if horizontal {
        image.FlipHorizontal();
      } else {
        image.FlipVertical();
      }
    }
  }
}
