/**
 * The logic of ImagickTsplImage (src/PrintImages/ImagickTsplImage.php) that
 * is not an Imagick call: the width handed to the scaler, the per-pixel
 * threshold loop that fills the image buffer, and the parser that strips the
 * header off a PBM "P4" blob. What Imagick computes (the decoded and scaled
 * pixels, the PBM blob) arrives as parameters.
 */
module ImagickImage {
  import opened Wrappers
  import opened Strings

  newtype Byte = b: int | 0 <= b < 256

  /** One colour channel as getcolor() reports it. */
  type Channel = c: int | 0 <= c <= 255

  datatype Rgb = Rgb(r: Channel, g: Channel, b: Channel)

  /**
   * (int)((r + g + b) / 3) >> 7: for a non-negative sum the float division
   * floored by the cast is integer division, and >> 7 is division by 128.
   * 1 stands for white, 0 for black.
   */
  function Greyness(c: Rgb): (v: int)
    ensures v == 0 || v == 1
    ensures v == 1 <==> (c.r + c.g + c.b) / 3 >= 128
  {
    ((c.r + c.g + c.b) / 3) / 128
  }

  /**
   * What `$imgData[$k] = $greyness` stores: assigning an integer to a string
   * offset stores the first character of its decimal form.
   */
  function StoredChar(c: Rgb): (ch: char)
    ensures ch == '0' || ch == '1'
    ensures ch == '1' <==> Greyness(c) == 1
  {
    if Greyness(c) == 1 then '1' else '0'
  }

  /** floor(w / 8) * 8: the largest multiple of 8 not above w. */
  function FloorToByte(w: nat): (r: nat)
    ensures r % 8 == 0 && r <= w < r + 8
  {
    (w / 8) * 8
  }

  lemma MulMono(a: nat, b: nat, w: nat)
    requires a <= b
    ensures a * w <= b * w
  {
  }

  lemma MulCancel(a: int, b: int, w: nat)
    requires a * w < b * w
    ensures a < b
  {
  }

  /** Quotient and remainder are the only q, r with k == q * w + r and r < w. */
  lemma DivModUnique(k: nat, w: nat, q: nat, r: nat)
    requires r < w && k == q * w + r
    ensures k / w == q && k % w == r
  {
    var d := q - k / w;
    assert d * w == k % w - r;
    MulCancel(d, 1, w);
    MulCancel(-1, d, w);
  }

  /** The flat index of pixel (x, y) in a row-major buffer of width w: in range, and it gives back x and y. */
  lemma RowMajor(w: nat, h: nat, x: nat, y: nat)
    requires x < w && y < h
    ensures y * w + x < h * w
    ensures (y * w + x) / w == y && (y * w + x) % w == x
  {
    MulMono(y + 1, h, w);
    DivModUnique(y * w + x, w, y, x);
  }

  /** Every flat index of a w-by-h buffer belongs to the pixel (k % w, k / w). */
  lemma RowMajorOnto(w: nat, h: nat, k: nat)
    requires k < h * w
    ensures k % w < w && k / w < h
    ensures (k / w) * w + k % w == k
  {
    assert w != 0;
    MulCancel(k / w, h, w);
  }

  /**
   * The stored character for flat index k of the buffer filled from pixels
   * (row-major, x fastest). The guard always holds for k in range (RowMajorOnto).
   */
  function FlatPixel(pixels: array2<Rgb>, k: nat): char
    reads pixels
    requires k < pixels.Length1 * pixels.Length0
  {
    var x, y := k % pixels.Length0, k / pixels.Length0;
    if x < pixels.Length0 && y < pixels.Length1 then StoredChar(pixels[x, y]) else '\0'
  }

  /** Pixel (x, y) lands at flat index y * width + x. */
  lemma PixelLandsAt(pixels: array2<Rgb>, x: nat, y: nat)
    requires x < pixels.Length0 && y < pixels.Length1
    ensures y * pixels.Length0 + x < pixels.Length1 * pixels.Length0
    ensures FlatPixel(pixels, y * pixels.Length0 + x) == StoredChar(pixels[x, y])
  {
    RowMajor(pixels.Length0, pixels.Length1, x, y);
  }

  /** Every flat index k of the buffer holds the stored character of the pixel (k % width, k / width). */
  lemma IndexFromPixel(pixels: array2<Rgb>, k: nat)
    requires k < pixels.Length1 * pixels.Length0
    ensures k % pixels.Length0 < pixels.Length0 && k / pixels.Length0 < pixels.Length1
    ensures (k / pixels.Length0) * pixels.Length0 + k % pixels.Length0 == k
    ensures FlatPixel(pixels, k) == StoredChar(pixels[k % pixels.Length0, k / pixels.Length0])
  {
    RowMajorOnto(pixels.Length0, pixels.Length1, k);
  }

  /** strpos(blob, "\n", from): the first newline at or after from, None for PHP's false. */
  function NextNewline(blob: seq<Byte>, from: nat): Option<nat>
  {
    FindFrom(blob, [0x0A], from)
  }

  /**
   * The loop of getRasterBlobFromImage from the newline at index i: while the
   * next line starts with '#' skip to that line's newline; then the index of
   * the newline that ends the following (dimensions) line, or None when a
   * newline it needs is missing.
   */
  function HeaderEndFrom(blob: seq<Byte>, i: nat): (r: Option<nat>)
    ensures r.Some? ==> i < r.value < |blob| && blob[r.value] == 0x0A
    decreases |blob| - i
  {
    if i + 1 < |blob| && blob[i + 1] == 0x23 then
      match NextNewline(blob, i + 1)
      case None => None
      case Some(j) => assert blob[j..j + 1] == [0x0A]; HeaderEndFrom(blob, j)
    else
      match NextNewline(blob, i + 1)
      case None => None
      case Some(j) => assert blob[j..j + 1] == [0x0A]; Some(j)
  }

  const Magic: seq<Byte> := [0x50, 0x34, 0x0A]

  /**
   * Where the raster data of a PBM blob starts: just past the newline that
   * ends the dimensions line after the first "P4\n" and its comment lines;
   * None when the blob has no "P4\n" or lacks a newline the header needs.
   */
  function RasterOffset(blob: seq<Byte>): (r: Option<nat>)
    ensures r.Some? ==> 0 < r.value <= |blob| && blob[r.value - 1] == 0x0A
  {
    match FindFrom(blob, Magic, 0)
    case None => None
    case Some(p) =>
      match HeaderEndFrom(blob, p + 2)
      case None => None
      case Some(e) => Some(e + 1)
  }

  /** The blobs getRasterBlobFromImage handles; on any other it crashes. */
  predicate WellFormedP4(blob: seq<Byte>)
  {
    RasterOffset(blob).Some?
  }

  /** A header line: no newline inside. */
  predicate OneLine(line: seq<Byte>)
  {
    0x0A !in line
  }

  predicate CommentLine(line: seq<Byte>)
  {
    OneLine(line) && |line| > 0 && line[0] == 0x23
  }

  /**
   * The header layout: the first "P4\n" at p, then the comment lines (each
   * starting with '#'), then a dimensions line that does not start with '#',
   * each ended by a newline; the raster data starts at start.
   */
  ghost predicate HeaderLayout(blob: seq<Byte>, p: nat, comments: seq<seq<Byte>>, dims: seq<Byte>, start: nat)
  {
    && FindFrom(blob, Magic, 0) == Some(p)
    && (forall i :: 0 <= i < |comments| ==> CommentLine(comments[i]))
    && OneLine(dims) && (|dims| == 0 || dims[0] != 0x23)
    && p + 3 <= start <= |blob|
    && blob[p + 3..start] == HeaderLines(comments, dims)
  }

  /** A stretch with no newline match in it holds no newline byte. */
  lemma NoNewlineBetween(blob: seq<Byte>, from: nat, to: nat)
    requires from <= to <= |blob|
    requires forall k: nat :: from <= k < to ==> !MatchAt(blob, [0x0A], k)
    ensures OneLine(blob[from..to])
  {
    forall m | 0 <= m < to - from ensures blob[from..to][m] != 0x0A {
      assert !MatchAt(blob, [0x0A], from + m);
      assert blob[from + m..from + m + 1] == [blob[from + m]];
    }
  }

  lemma TerminatedCons(line: seq<Byte>, rest: seq<seq<Byte>>)
    ensures Terminated([line] + rest, [0x0A]) == line + [0x0A] + Terminated(rest, [0x0A])
  {
    assert ([line] + rest)[1..] == rest;
  }

  /** Cutting a stretch of the blob at a newline. */
  lemma CutAtNewline(blob: seq<Byte>, from: nat, j: nat, to: nat)
    requires from <= j < to <= |blob| && MatchAt(blob, [0x0A], j)
    ensures blob[from..to] == blob[from..j] + [0x0A] + blob[j + 1..to]
  {
    assert blob[j..j + 1] == [0x0A];
  }

  /** The bytes a header walk passes over: the comment lines, then the dimensions line, each with its newline. */
  function HeaderLines(comments: seq<seq<Byte>>, dims: seq<Byte>): seq<Byte>
  {
    Terminated(comments, [0x0A]) + dims + [0x0A]
  }

  /** One step of the header walk from the newline at i, given where the next line ends. */
  lemma HeaderEndStep(blob: seq<Byte>, i: nat, j: nat)
    requires NextNewline(blob, i + 1) == Some(j)
    ensures i + 1 <= j < |blob| && MatchAt(blob, [0x0A], j)
    ensures i + 1 < |blob| && blob[i + 1] == 0x23 ==> i + 1 < j && HeaderEndFrom(blob, i) == HeaderEndFrom(blob, j)
    ensures !(i + 1 < |blob| && blob[i + 1] == 0x23) ==> HeaderEndFrom(blob, i) == Some(j)
  {
    assert blob[j..j + 1] == [0x0A];
  }

  /** One more comment line in front of the lines already walked. */
  lemma CommentStep(blob: seq<Byte>, i: nat, j: nat, e: nat, comments: seq<seq<Byte>>, rest: seq<seq<Byte>>, dims: seq<Byte>)
    requires i + 1 < j < e < |blob| && MatchAt(blob, [0x0A], j)
    requires comments == [blob[i + 1..j]] + rest
    requires CommentLine(blob[i + 1..j])
    requires forall k :: 0 <= k < |rest| ==> CommentLine(rest[k])
    requires blob[j + 1..e + 1] == HeaderLines(rest, dims)
    ensures forall k :: 0 <= k < |comments| ==> CommentLine(comments[k])
    ensures blob[i + 1..e + 1] == HeaderLines(comments, dims)
  {
    var line := blob[i + 1..j];
    CutAtNewline(blob, i + 1, j, e + 1);
    TerminatedCons(line, rest);
  }

  /** The dimensions line alone: no comment lines in front. */
  lemma DimsStep(blob: seq<Byte>, i: nat, j: nat)
    requires i + 1 <= j < |blob| && MatchAt(blob, [0x0A], j)
    requires OneLine(blob[i + 1..j]) && blob[i + 1] != 0x23
    ensures OneLine(blob[i + 1..j]) && (|blob[i + 1..j]| == 0 || blob[i + 1..j][0] != 0x23)
    ensures blob[i + 1..j + 1] == HeaderLines([], blob[i + 1..j])
  {
    CutAtNewline(blob, i + 1, j, j + 1);
  }

  /**
   * The header walk from the newline at i skips some comment lines and then
   * one dimensions line: the bytes it passes over are exactly those lines.
   */
  lemma {:induction false} WalkLayout(blob: seq<Byte>, i: nat) returns (comments: seq<seq<Byte>>, dims: seq<Byte>)
    requires HeaderEndFrom(blob, i).Some?
    ensures forall k :: 0 <= k < |comments| ==> CommentLine(comments[k])
    ensures OneLine(dims) && (|dims| == 0 || dims[0] != 0x23)
    ensures blob[i + 1..HeaderEndFrom(blob, i).value + 1] == HeaderLines(comments, dims)
    decreases |blob| - i
  {
    var e := HeaderEndFrom(blob, i).value;
    var j := NextNewline(blob, i + 1).value;
    NoNewlineBetween(blob, i + 1, j);
    HeaderEndStep(blob, i, j);
    if i + 1 < |blob| && blob[i + 1] == 0x23 {
      var rest, d := WalkLayout(blob, j);
      comments, dims := [blob[i + 1..j]] + rest, d;
      CommentStep(blob, i, j, e, comments, rest, d);
    } else {
      DimsStep(blob, i, j);
      comments, dims := [], blob[i + 1..j];
    }
  }

  /** Every blob the stripper accepts has the P4 header layout, ending where the raster starts. */
  lemma HeaderLayoutOf(blob: seq<Byte>) returns (p: nat, comments: seq<seq<Byte>>, dims: seq<Byte>)
    requires WellFormedP4(blob)
    ensures HeaderLayout(blob, p, comments, dims, RasterOffset(blob).value)
  {
    p := FindFrom(blob, Magic, 0).value;
    comments, dims := WalkLayout(blob, p + 2);
  }

  /** The first newline at or after from, when the bytes from there up to j are a line. */
  lemma LineEnd(blob: seq<Byte>, from: nat, line: seq<Byte>, j: nat)
    requires OneLine(line) && j == from + |line| < |blob|
    requires blob[from..j + 1] == line + [0x0A]
    ensures NextNewline(blob, from) == Some(j)
  {
    assert blob[j..j + 1] == [0x0A];
    forall k: nat | from <= k < j ensures !MatchAt(blob, [0x0A], k) {
      assert blob[k] == line[k - from];
    }
    FindFromFirst(blob, [0x0A], from, j);
  }

  /** Splits the first comment line, with its newline, off the lines a header walk passes over. */
  lemma CommentSplit(blob: seq<Byte>, i: nat, e: nat, line: seq<Byte>, rest: seq<seq<Byte>>, dims: seq<Byte>)
    requires i < e < |blob|
    requires blob[i + 1..e + 1] == HeaderLines([line] + rest, dims)
    ensures i + 1 + |line| < e
    ensures blob[i + 1..i + 1 + |line|] == line && MatchAt(blob, [0x0A], i + 1 + |line|)
    ensures blob[i + 1 + |line| + 1..e + 1] == HeaderLines(rest, dims)
  {
    var j := i + 1 + |line|;
    TerminatedCons(line, rest);
    var after := HeaderLines(rest, dims);
    assert blob[i + 1..e + 1] == (line + [0x0A]) + after;
    assert blob[i + 1..j + 1] == blob[i + 1..e + 1][..j - i] == line + [0x0A];
    assert blob[i + 1..j] == blob[i + 1..j + 1][..|line|];
    assert blob[j..j + 1] == blob[i + 1..j + 1][|line|..];
    assert blob[j + 1..e + 1] == blob[i + 1..e + 1][j - i..];
  }

  /** A walk standing in front of a comment line moves to that line's newline. */
  lemma CommentWalkStep(blob: seq<Byte>, i: nat, line: seq<Byte>, j: nat)
    requires CommentLine(line) && j == i + 1 + |line| < |blob|
    requires blob[i + 1..j + 1] == line + [0x0A]
    ensures HeaderEndFrom(blob, i) == HeaderEndFrom(blob, j)
  {
    assert blob[i + 1] == blob[i + 1..j + 1][0] == line[0];
    LineEnd(blob, i + 1, line, j);
    HeaderEndStep(blob, i, j);
  }

  /** A walk standing in front of the dimensions line ends at that line's newline. */
  lemma DimsWalkStep(blob: seq<Byte>, i: nat, dims: seq<Byte>, e: nat)
    requires OneLine(dims) && (|dims| == 0 || dims[0] != 0x23)
    requires e == i + 1 + |dims| < |blob|
    requires blob[i + 1..e + 1] == dims + [0x0A]
    ensures HeaderEndFrom(blob, i) == Some(e)
  {
    assert blob[i + 1] == blob[i + 1..e + 1][0];
    LineEnd(blob, i + 1, dims, e);
    HeaderEndStep(blob, i, e);
  }

  /**
   * Conversely, a walk started in front of such lines ends at the newline
   * that closes the dimensions line.
   */
  lemma {:induction false} LayoutWalk(blob: seq<Byte>, i: nat, comments: seq<seq<Byte>>, dims: seq<Byte>, e: nat)
    requires forall j :: 0 <= j < |comments| ==> CommentLine(comments[j])
    requires OneLine(dims) && (|dims| == 0 || dims[0] != 0x23)
    requires i < e < |blob|
    requires blob[i + 1..e + 1] == HeaderLines(comments, dims)
    ensures HeaderEndFrom(blob, i) == Some(e)
    decreases |comments|
  {
    if |comments| > 0 {
      var line, rest := comments[0], comments[1..];
      assert comments == [line] + rest;
      CommentSplit(blob, i, e, line, rest, dims);
      var j := i + 1 + |line|;
      assert blob[i + 1..j + 1] == line + [0x0A];
      CommentWalkStep(blob, i, line, j);
      LayoutWalk(blob, j, rest, dims, e);
    } else {
      assert blob[i + 1..e + 1] == dims + [0x0A];
      DimsWalkStep(blob, i, dims, e);
    }
  }

  /**
   * A blob laid out as "P4\n", comment lines and a dimensions line has its
   * raster exactly after that layout, whatever the number of comment lines.
   */
  lemma LayoutDeterminesOffset(blob: seq<Byte>, p: nat, comments: seq<seq<Byte>>, dims: seq<Byte>, start: nat)
    requires HeaderLayout(blob, p, comments, dims, start)
    ensures RasterOffset(blob) == Some(start)
  {
    assert blob[p..p + 3] == Magic;
    LayoutWalk(blob, p + 2, comments, dims, start - 1);
  }

  /**
   * getRasterBlobFromImage: find "P4\n", skip the comment lines, skip the
   * dimensions line, and return the rest of the blob.
   */
  method GetRasterBlobFromImage(blob: seq<Byte>) returns (raster: seq<Byte>)
    requires WellFormedP4(blob)
    ensures raster == blob[RasterOffset(blob).value..]
  {
    var p := FindFrom(blob, Magic, 0).value;
    var i := p + 2;
    assert blob[p..p + 3] == Magic;
    while i + 1 < |blob| && blob[i + 1] == 0x23
      invariant i < |blob|
      invariant HeaderEndFrom(blob, i) == HeaderEndFrom(blob, p + 2)
      decreases |blob| - i
    {
      i := NextNewline(blob, i + 1).value;
    }
    i := NextNewline(blob, i + 1).value;
    raster := blob[i + 1..];
  }

  class ImagickTsplImage {
    var imgWidth: nat
    var imgHeight: nat
    /** The generic path's buffer: one '0' (black) or '1' (white) per pixel, row-major. */
    var imgData: string
    /** The requested width; None and Some(0) are both falsy in the width branch. */
    var scaleWidth: Option<nat>

    /** An image with no pixels yet and the given requested width. */
    constructor (scaleWidth: Option<nat>)
      ensures this.scaleWidth == scaleWidth
      ensures imgWidth == 0 && imgHeight == 0 && imgData == ""
    {
      this.scaleWidth := scaleWidth;
      imgWidth, imgHeight, imgData := 0, 0, "";
    }

    /**
     * The width getImageFromFile asks scaleImage for: the requested width
     * when it is set and non-zero, otherwise the decoded width, floored to a
     * multiple of 8.
     */
    function ScaledWidth(sourceWidth: nat): (w: nat)
      reads this
      ensures w % 8 == 0
      ensures scaleWidth.Some? && scaleWidth.value != 0 ==> w <= scaleWidth.value < w + 8
      ensures !(scaleWidth.Some? && scaleWidth.value != 0) ==> w <= sourceWidth < w + 8
    {
      if scaleWidth.Some? && scaleWidth.value != 0 then FloorToByte(scaleWidth.value)
      else FloorToByte(sourceWidth)
    }

    /**
     * readImageFromImagick on the thresholded image, whose colour at column
     * x, row y is pixels[x, y]: one buffer character per pixel at y * width + x,
     * and the dimensions iterated over become the image's.
     */
    method ReadImageFromImagick(pixels: array2<Rgb>)
      modifies this`imgWidth, this`imgHeight, this`imgData
      ensures imgWidth == pixels.Length0 && imgHeight == pixels.Length1
      ensures |imgData| == imgWidth * imgHeight
      ensures forall k :: 0 <= k < |imgData| ==> imgData[k] == FlatPixel(pixels, k)
    {
      var height := pixels.Length1;
      var width := pixels.Length0;
      var data := new char[height * width](_ => '\0');
      var y, row := 0, 0;
      while y < height
        invariant 0 <= y <= height
        invariant row == y * width && row <= height * width
        invariant forall k :: 0 <= k < row ==> data[k] == FlatPixel(pixels, k)
      {
        var x := 0;
        while x < width
          invariant 0 <= x <= width
          invariant row + x <= height * width
          invariant forall k :: 0 <= k < row + x ==> data[k] == FlatPixel(pixels, k)
        {
          PixelLandsAt(pixels, x, y);
          data[row + x] := StoredChar(pixels[x, y]);
          x := x + 1;
        }
        MulMono(y + 1, height, width);
        y, row := y + 1, row + width;
      }
      assert row == height * width;
      imgWidth := width;
      imgHeight := height;
      imgData := data[..];
    }

    /**
     * loadImageData: a null filename is handed to the parent's blank-image
     * loader (reported as delegated); otherwise the decoded image is read in.
     * Imagick has scaled it to ScaledWidth of its source width when that is
     * non-zero; scaleImage(0, ...) chooses the width itself.
     */
    method LoadImageData(filename: Option<string>, sourceWidth: nat, pixels: array2<Rgb>)
      returns (delegated: bool)
      requires filename.Some? && ScaledWidth(sourceWidth) > 0 ==> pixels.Length0 == ScaledWidth(sourceWidth)
      modifies this`imgWidth, this`imgHeight, this`imgData
      ensures delegated <==> filename.None?
      ensures !delegated ==> imgWidth == pixels.Length0 && imgHeight == pixels.Length1
      ensures !delegated && ScaledWidth(sourceWidth) > 0 ==> imgWidth % 8 == 0
      ensures !delegated ==> |imgData| == imgWidth * imgHeight
      ensures !delegated ==> forall k :: 0 <= k < |imgData| ==> imgData[k] == FlatPixel(pixels, k)
    {
      if filename.None? {
        return true;
      }
      ReadImageFromImagick(pixels);
      delegated := false;
    }

    /**
     * getRasterFormatFromFile: no optimised raster for a null filename;
     * otherwise the scaled image's dimensions are stored and the raster is
     * the PBM blob with its header stripped.
     */
    method GetRasterFormatFromFile(filename: Option<string>, sourceWidth: nat,
                                   scaledWidth: nat, scaledHeight: nat, blob: seq<Byte>)
      returns (raster: Option<seq<Byte>>)
      requires filename.Some? ==> WellFormedP4(blob)
      requires filename.Some? && ScaledWidth(sourceWidth) > 0 ==> scaledWidth == ScaledWidth(sourceWidth)
      modifies this`imgWidth, this`imgHeight
      ensures filename.None? ==> raster.None? && imgWidth == old(imgWidth) && imgHeight == old(imgHeight)
      ensures filename.Some? ==> raster == Some(blob[RasterOffset(blob).value..])
      ensures filename.Some? ==> imgWidth == scaledWidth && imgHeight == scaledHeight
      ensures filename.Some? && ScaledWidth(sourceWidth) > 0 ==> imgWidth % 8 == 0
    {
      if filename.None? {
        return None;
      }
      imgWidth := scaledWidth;
      imgHeight := scaledHeight;
      var data := GetRasterBlobFromImage(blob);
      raster := Some(data);
    }
  }
}
