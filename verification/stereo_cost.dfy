/**
 * Images and window costs of the block matcher. An image (a single-channel
 * cv::Mat) is a sequence of rows of pixels. The matcher looks at the S rows
 * of the current window, given as an image of S rows: the cost of matching
 * left column x against right column x-d is the sum of absolute
 * differences (SAD) over those rows, and the cost of a window is the sum of
 * S consecutive column sums.
 */
module StereoCost {

  type Image = seq<seq<int>>

  /** The number of columns: that of the first row, 0 for an empty image. */
  function Cols(img: Image): nat
  {
    if img == [] then 0 else |img[0]|
  }

  /** Every row holds `cols` pixels. */
  ghost predicate Rect(img: Image, cols: int)
  {
    forall r :: 0 <= r < |img| ==> |img[r]| == cols
  }

  /** An image of `rows` rows of `cols` copies of `v`. */
  function Flat(rows: nat, cols: nat, v: int): (img: Image)
    ensures |img| == rows && Rect(img, cols)
    ensures forall r, c :: 0 <= r < rows && 0 <= c < cols ==> img[r][c] == v
  {
    seq(rows, _ => seq(cols, _ => v))
  }

  function Abs(v: int): nat
  {
    if v < 0 then -v else v
  }

  /** The sum of a sequence, adding the last element last. */
  function Sum(s: seq<int>): int
  {
    if s == [] then 0 else Sum(s[..|s| - 1]) + s[|s| - 1]
  }

  /** Sum can also be taken from the front: what leaves the delay line first is its first element. */
  lemma {:induction false} SumFront(s: seq<int>)
    requires s != []
    ensures Sum(s) == s[0] + Sum(s[1..])
    decreases |s|
  {
    if |s| > 1 {
      var t := s[..|s| - 1];
      SumFront(t);
      assert t[1..] == s[1..][..|s| - 2];
    }
  }

  /** The two windows hold the same number of rows of `cols` pixels each. */
  ghost predicate Windows(winL: Image, winR: Image, cols: int)
  {
    |winL| == |winR| && Rect(winL, cols) && Rect(winR, cols)
  }

  /** The SAD of left column x against right column x-d over the first n rows of the window. */
  function ColSad(winL: Image, winR: Image, cols: nat, x: int, d: int, n: nat): int
    requires Windows(winL, winR, cols) && n <= |winL|
    requires 0 <= d <= x < cols
  {
    if n == 0 then 0
    else ColSad(winL, winR, cols, x, d, n - 1) + Abs(winL[n - 1][x] - winR[n - 1][x - d])
  }

  /** The column sums of columns x0 .. x0+w-1 at disparity d, over all rows of the window. */
  function Columns(winL: Image, winR: Image, cols: nat, x0: int, w: nat, d: int): (r: seq<int>)
    requires Windows(winL, winR, cols)
    requires 0 <= d <= x0 && x0 + w <= cols
    ensures |r| == w
    ensures forall i :: 0 <= i < w ==> r[i] == ColSad(winL, winR, cols, x0 + i, d, |winL|)
  {
    if w == 0 then []
    else Columns(winL, winR, cols, x0, w - 1, d) + [ColSad(winL, winR, cols, x0 + w - 1, d, |winL|)]
  }

  /** Dropping the oldest column sum leaves the sums of the columns after it. */
  lemma ColumnsTail(winL: Image, winR: Image, cols: nat, x0: int, w: nat, d: int)
    requires Windows(winL, winR, cols)
    requires 0 <= d <= x0 && x0 + w <= cols && w >= 1
    ensures Columns(winL, winR, cols, x0, w, d)[1..] == Columns(winL, winR, cols, x0 + 1, w - 1, d)
  {
  }

  /**
   * The output column xd is produced once the window of S = |winL| columns
   * ending at xd + S/2 is complete: its first column is xd + S/2 - S + 1.
   */
  function WindowStart(xd: int, S: int): int
  {
    xd + S / 2 - S + 1
  }

  /**
   * Column xd receives a cost at disparity d when its whole window lies in
   * the row and no column of it is left of d (the right image's column
   * x - d must exist).
   */
  predicate Evaluated(xd: int, d: int, S: int, cols: int)
  {
    0 <= d && d <= WindowStart(xd, S) && WindowStart(xd, S) + S <= cols
  }

  /** The cost of output column xd at disparity d: the SAD over the S x S window. */
  function WinCost(winL: Image, winR: Image, cols: nat, xd: int, d: int): int
    requires Windows(winL, winR, cols)
    requires Evaluated(xd, d, |winL|, cols)
  {
    Sum(Columns(winL, winR, cols, WindowStart(xd, |winL|), |winL|, d))
  }

  /** The costs of column xd at disparities 0 .. n-1. */
  function CostList(winL: Image, winR: Image, cols: nat, xd: int, n: nat): (r: seq<int>)
    requires Windows(winL, winR, cols)
    requires n == 0 || Evaluated(xd, n - 1, |winL|, cols)
    ensures |r| == n
    ensures forall d :: 0 <= d < n ==> r[d] == WinCost(winL, winR, cols, xd, d)
  {
    if n == 0 then [] else CostList(winL, winR, cols, xd, n - 1) + [WinCost(winL, winR, cols, xd, n - 1)]
  }

  /**
   * The texture measure of output column xd: the window's SAD against a flat
   * image of value `half` (data_max/2), that is the sum of |L - half| over
   * the window.
   */
  function Texture(winL: Image, cols: nat, xd: int, half: int): int
    requires Rect(winL, cols)
    requires Evaluated(xd, 0, |winL|, cols)
  {
    WinCost(winL, Flat(|winL|, cols, half), cols, xd, 0)
  }
}
