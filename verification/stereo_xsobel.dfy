/**
 * The horizontal Sobel prefilter (dlsc_xsobel): every output pixel is the
 * x-gradient of the 3x3 neighbourhood, weighted 1-2-1 over the rows above,
 * at and below, offset by data_max/2 and clamped to 0 .. data_max. The
 * first and last columns are set to data_max/2; at the top and bottom
 * edges the missing neighbour row is mirrored.
 */
module StereoXSobel {
  import opened StereoCost

  /** The (uint8_t) conversion: the value modulo 256. */
  function Byte(v: int): (r: int)
    ensures 0 <= r < 256
    ensures 0 <= v < 256 ==> r == v
  {
    v % 256
  }

  /** C's v/2 on int: halving truncated toward zero. */
  function Half(v: int): (h: int)
    ensures v >= 0 ==> h == v / 2
  {
    if v >= 0 then v / 2 else -((-v) / 2)
  }

  /** The clamp to 0 .. dataMax, the lower bound tested first. */
  function Clamp(v: int, dataMax: int): int
  {
    if v < 0 then 0 else if v > dataMax then dataMax else v
  }

  /** The row above row y, mirrored to the row below at the top edge. */
  function Above(img: Image, y: int): seq<int>
    requires |img| >= 2 && 0 <= y < |img|
  {
    if y > 0 then img[y - 1] else img[y + 1]
  }

  /** The row below row y, mirrored to the row above at the bottom edge. */
  function Below(img: Image, y: int): seq<int>
    requires |img| >= 2 && 0 <= y < |img|
  {
    if y < |img| - 1 then img[y + 1] else img[y - 1]
  }

  /** The gradient at interior pixel (y, x) before clamping: d0 + 2*d1 + d2 + data_max/2. */
  function Gradient(img: Image, cols: nat, y: int, x: int, dataMax: int): int
    requires Rect(img, cols) && |img| >= 2 && 0 <= y < |img| && 1 <= x < cols - 1
  {
    var r0 := Above(img, y);
    var r1 := img[y];
    var r2 := Below(img, y);
    (r0[x + 1] - r0[x - 1]) + 2 * (r1[x + 1] - r1[x - 1]) + (r2[x + 1] - r2[x - 1]) + Half(dataMax)
  }

  /** The output pixel at (y, x). */
  function SobelPixel(img: Image, cols: nat, y: int, x: int, dataMax: int): int
    requires Rect(img, cols) && |img| >= 2 && 0 <= y < |img| && 0 <= x < cols
  {
    if x == 0 || x == cols - 1 then Byte(Half(dataMax))
    else Byte(Clamp(Gradient(img, cols, y, x, dataMax), dataMax))
  }

  /**
   * What the filter needs of its image: none, or at least two rows (the
   * mirrored neighbour of row 0 is row 1) of at least one column.
   */
  ghost predicate Filterable(img: Image)
  {
    Rect(img, Cols(img)) && (img == [] || (|img| >= 2 && Cols(img) >= 1))
  }

  /** The filtered image as a whole, for callers that pass it on. */
  function SobelImage(img: Image, dataMax: int): (out: Image)
    requires Filterable(img)
    ensures |out| == |img| && Rect(out, Cols(img)) && Cols(out) == Cols(img)
    ensures forall y, x :: 0 <= y < |img| && 0 <= x < Cols(img) ==>
              out[y][x] == SobelPixel(img, Cols(img), y, x, dataMax)
  {
    seq(|img|, y requires 0 <= y < |img| =>
      seq(Cols(img), x requires 0 <= x < Cols(img) => SobelPixel(img, Cols(img), y, x, dataMax)))
  }

  /** dlsc_xsobel: the filtered image, row by row. */
  method XSobel(img: Image, dataMax: int) returns (out: Image)
    requires Filterable(img)
    ensures |out| == |img| && Rect(out, Cols(img))
    ensures forall y, x :: 0 <= y < |img| && 0 <= x < Cols(img) ==>
              out[y][x] == SobelPixel(img, Cols(img), y, x, dataMax)
    ensures out == SobelImage(img, dataMax)
  {
    var cols := Cols(img);
    out := [];
    var y := 0;
    while y < |img|
      invariant 0 <= y <= |img| && |out| == y && Rect(out, cols)
      invariant forall r, x :: 0 <= r < y && 0 <= x < cols ==> out[r][x] == SobelPixel(img, cols, r, x, dataMax)
    {
      var row := SobelRow(img, cols, y, dataMax);
      out := out + [row];
      y := y + 1;
    }
    assert forall r :: 0 <= r < |img| ==> out[r] == SobelImage(img, dataMax)[r];
  }

  /**
   * One row of the filter: the output row starts as the input row (the
   * output image is a clone of the input), both border pixels are set to
   * data_max/2, and every interior pixel gets its clamped gradient.
   */
  method SobelRow(img: Image, cols: nat, y: int, dataMax: int) returns (row: seq<int>)
    requires Rect(img, cols) && |img| >= 2 && cols >= 1 && 0 <= y < |img|
    ensures |row| == cols
    ensures forall x :: 0 <= x < cols ==> row[x] == SobelPixel(img, cols, y, x, dataMax)
  {
    var r0 := if y > 0 then img[y - 1] else img[y + 1];
    var r1 := img[y];
    var r2 := if y < |img| - 1 then img[y + 1] else img[y - 1];
    var d := new int[cols](i requires 0 <= i < cols => r1[i]);
    d[0] := Byte(Half(dataMax));
    d[cols - 1] := Byte(Half(dataMax));
    var x := 1;
    while x < cols - 1
      invariant 1 <= x && (cols >= 2 ==> x <= cols - 1)
      invariant d[0] == Byte(Half(dataMax)) && d[cols - 1] == Byte(Half(dataMax))
      invariant forall i :: 1 <= i < x && i < cols - 1 ==> d[i] == SobelPixel(img, cols, y, i, dataMax)
    {
      var d0 := r0[x + 1] - r0[x - 1];
      var d1 := r1[x + 1] - r1[x - 1];
      var d2 := r2[x + 1] - r2[x - 1];
      var v := d0 + 2 * d1 + d2 + Half(dataMax);
      if v < 0 {
        v := 0;
      } else if v > dataMax {
        v := dataMax;
      }
      d[x] := Byte(v);
      x := x + 1;
    }
    row := d[..];
  }

  /** The border columns read data_max/2 (as a byte). */
  lemma SobelBorders(img: Image, cols: nat, y: int, dataMax: int)
    requires Rect(img, cols) && |img| >= 2 && 0 <= y < |img| && cols >= 1
    requires 0 <= dataMax < 512
    ensures SobelPixel(img, cols, y, 0, dataMax) == dataMax / 2
    ensures SobelPixel(img, cols, y, cols - 1, dataMax) == dataMax / 2
  {
  }

  /**
   * With an 8-bit data_max every interior pixel is the gradient clamped to
   * 0 .. data_max, and the byte conversion changes nothing.
   */
  lemma SobelClamped(img: Image, cols: nat, y: int, x: int, dataMax: int)
    requires Rect(img, cols) && |img| >= 2 && 0 <= y < |img| && 1 <= x < cols - 1
    requires 0 <= dataMax < 256
    ensures var g := Gradient(img, cols, y, x, dataMax);
            var v := SobelPixel(img, cols, y, x, dataMax);
            && 0 <= v <= dataMax
            && (g < 0 ==> v == 0)
            && (g > dataMax ==> v == dataMax)
            && (0 <= g <= dataMax ==> v == g)
  {
  }

  /** The rows of an image in reverse order. */
  function Flip(img: Image): (f: Image)
    ensures |f| == |img|
    ensures forall y :: 0 <= y < |img| ==> f[y] == img[|img| - 1 - y]
  {
    seq(|img|, y requires 0 <= y < |img| => img[|img| - 1 - y])
  }

  /**
   * The mirroring at the edges is symmetric: filtering the upside-down
   * image gives the upside-down result.
   */
  lemma SobelFlip(img: Image, cols: nat, y: int, x: int, dataMax: int)
    requires Rect(img, cols) && |img| >= 2 && 0 <= y < |img| && 0 <= x < cols
    ensures Rect(Flip(img), cols)
    ensures SobelPixel(Flip(img), cols, y, x, dataMax) == SobelPixel(img, cols, |img| - 1 - y, x, dataMax)
  {
    var f := Flip(img);
    var n := |img|;
    assert Above(f, y) == Below(img, n - 1 - y);
    assert Below(f, y) == Above(img, n - 1 - y);
  }
}
