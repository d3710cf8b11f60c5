/**
 * The block matcher (dlsc_stereobm). For every output row it takes the S
 * input rows of the window around it, and for every disparity d and column
 * runs a delay line of column sums whose running total is the S x S window
 * cost; the per-column bookkeeping of StereoSelect picks the best
 * disparity. A texture pass marks columns whose window is too flat, and a
 * post-processing pass writes the valid flag, the (sub-pixel) disparity
 * and the uniqueness flag of the columns where every disparity was
 * evaluated. Everything else in the three output images stays zero.
 */
module StereoBm {
  import opened StereoCost
  import opened StereoSelect
  import opened StereoPost
  import opened StereoXSobel

  /** UCHAR_MAX, the value of a set flag in the valid and filtered images. */
  const UCHAR_MAX: int := 255

  /** Output row r receives results: it is y - S/2 for some row y >= S-1. */
  predicate RowDone(r: int, rows: int, S: int)
  {
    S - 1 - S / 2 <= r <= rows - 1 - S / 2
  }

  /** Column c is post-processed: disparities-1+S/2 <= c < cols-S/2. */
  predicate ColValid(c: int, cols: int, p: Params)
  {
    p.disparities - 1 + p.sadWindow / 2 <= c < cols - p.sadWindow / 2
  }

  /** How many disparities, from 0 up, output column xd is evaluated at. */
  function Reach(xd: int, D: int, S: int, cols: int): (n: nat)
    ensures forall d :: 0 <= d < D ==> (Evaluated(xd, d, S, cols) <==> d < n)
    ensures n <= D || n == 0
    ensures n == 0 || Evaluated(xd, n - 1, S, cols)
  {
    var ws := WindowStart(xd, S);
    if ws < 0 || ws + S > cols || D <= 0 then 0
    else if ws + 1 < D then ws + 1 else D
  }

  /** In the post-processed columns every disparity is evaluated. */
  lemma ValidReachesAll(c: int, cols: int, p: Params)
    requires Supported(p) && ColValid(c, cols, p)
    ensures Reach(c, p.disparities, p.sadWindow, cols) == p.disparities
  {
  }

  /** The state of column xd once the disparity loop of its row is over. */
  function FinalState(winL: Image, winR: Image, cols: nat, p: Params, xd: int): ColState
    requires Windows(winL, winR, cols)
  {
    Scan(CostList(winL, winR, cols, xd, Reach(xd, p.disparities, |winL|, cols)))
  }

  /** The disparity written at column xd of an output row. */
  function RowDisp(winL: Image, winR: Image, cols: nat, p: Params, xd: int): int
    requires Windows(winL, winR, cols) && |winL| == p.sadWindow && Supported(p)
  {
    if ColValid(xd, cols, p) then
      ValidReachesAll(xd, cols, p);
      ScanBracketed(CostList(winL, winR, cols, xd, p.disparities), p.disparities);
      DispOut(FinalState(winL, winR, cols, p, xd), p)
    else 0
  }

  /** The valid flag written at column xd of an output row. */
  function RowValid(cols: nat, p: Params, xd: int): int
  {
    if ColValid(xd, cols, p) then UCHAR_MAX else 0
  }

  /** The texture test: the window's deviation from data_max/2 falls below `texture`. */
  predicate TooFlat(winL: Image, cols: nat, p: Params, xd: int)
    requires Rect(winL, cols)
  {
    p.texture != 0 && Evaluated(xd, 0, |winL|, cols) && Texture(winL, cols, xd, Half(p.dataMax)) < p.texture
  }

  /** The filtered flag written at column xd of an output row. */
  function RowFiltered(winL: Image, winR: Image, cols: nat, p: Params, xd: int): int
    requires Windows(winL, winR, cols) && Supported(p)
  {
    if TooFlat(winL, cols, p, xd)
       || (ColValid(xd, cols, p) && p.uniqueMul != 0 && Ambiguous(FinalState(winL, winR, cols, p, xd), p))
    then UCHAR_MAX else 0
  }

  /**
   * In a post-processed column the chosen disparity is the highest one
   * whose window cost is the smallest over all disparities, unless every
   * cost exceeds INIT, in which case disparity 0 is kept with cost INIT.
   */
  lemma {:induction false} ValidColumnBest(winL: Image, winR: Image, cols: nat, p: Params, xd: int)
    requires Windows(winL, winR, cols) && |winL| == p.sadWindow && Supported(p) && ColValid(xd, cols, p)
    ensures forall d :: 0 <= d < p.disparities ==> Evaluated(xd, d, |winL|, cols)
    ensures var st := FinalState(winL, winR, cols, p, xd);
            && 0 <= st.disp < p.disparities && st.sad <= INIT
            && (forall d :: 0 <= d < p.disparities ==> st.sad <= WinCost(winL, winR, cols, xd, d))
            && (forall d :: st.disp < d < p.disparities ==> st.sad < WinCost(winL, winR, cols, xd, d))
            && (st.sad == WinCost(winL, winR, cols, xd, st.disp)
                || (st.disp == 0 && st.sad == INIT
                    && forall d :: 0 <= d < p.disparities ==> INIT < WinCost(winL, winR, cols, xd, d)))
  {
    ValidReachesAll(xd, cols, p);
    var costs := CostList(winL, winR, cols, xd, p.disparities);
    ScanBest(costs);
    ScanNeighbours(costs);
  }

  /**
   * A post-processed column is marked filtered exactly when its window is
   * too flat, or the uniqueness test is on and INIT or the cost of some
   * disparity outside the chosen one's exclusion window is within
   * sads*(unique_mul+unique_div)/unique_div.
   */
  lemma {:induction false} ValidColumnFiltered(winL: Image, winR: Image, cols: nat, p: Params, xd: int)
    requires Windows(winL, winR, cols) && |winL| == p.sadWindow && Supported(p) && ColValid(xd, cols, p)
    requires p.uniqueMul != 0
    ensures forall d :: 0 <= d < p.disparities ==> Evaluated(xd, d, |winL|, cols)
    ensures var st := FinalState(winL, winR, cols, p, xd);
            var bound := CDiv(st.sad * (p.uniqueMul + p.uniqueDiv), p.uniqueDiv);
            RowFiltered(winL, winR, cols, p, xd) == UCHAR_MAX <==>
              || TooFlat(winL, cols, p, xd)
              || INIT <= bound
              || exists d :: 0 <= d < p.disparities && Outside(d, st.disp) && WinCost(winL, winR, cols, xd, d) <= bound
  {
    ValidReachesAll(xd, cols, p);
    var costs := CostList(winL, winR, cols, xd, p.disparities);
    AmbiguousMeaning(costs, p);
    var st := FinalState(winL, winR, cols, p, xd);
    var bound := CDiv(st.sad * (p.uniqueMul + p.uniqueDiv), p.uniqueDiv);
    if exists d :: 0 <= d < p.disparities && Outside(d, st.disp) && WinCost(winL, winR, cols, xd, d) <= bound {
      var d :| 0 <= d < p.disparities && Outside(d, st.disp) && WinCost(winL, winR, cols, xd, d) <= bound;
      assert costs[d] <= bound;
    }
  }

  /** The first input row of the window of output row r. */
  function Top(r: int, S: int): int
  {
    r + S / 2 - S + 1
  }

  /** The S input rows of the window of output row r. */
  function Win(img: Image, r: int, S: int): (w: Image)
    requires RowDone(r, |img|, S) && S >= 1
    ensures |w| == S
  {
    img[Top(r, S)..Top(r, S) + S]
  }

  /** The disparity image's pixel (r, c): zero outside the rows that receive results. */
  function ExpectedDisp(il: Image, ir: Image, p: Params, r: int, c: int): int
    requires Rect(il, Cols(il)) && |ir| == |il| && Rect(ir, Cols(il)) && Supported(p)
  {
    var S := p.sadWindow;
    if RowDone(r, |il|, S) then RowDisp(Win(il, r, S), Win(ir, r, S), Cols(il), p, c) else 0
  }

  /** The valid image's pixel (r, c). */
  function ExpectedValid(il: Image, p: Params, r: int, c: int): int
  {
    if RowDone(r, |il|, p.sadWindow) then RowValid(Cols(il), p, c) else 0
  }

  /** The filtered image's pixel (r, c). */
  function ExpectedFiltered(il: Image, ir: Image, p: Params, r: int, c: int): int
    requires Rect(il, Cols(il)) && |ir| == |il| && Rect(ir, Cols(il)) && Supported(p)
  {
    var S := p.sadWindow;
    if RowDone(r, |il|, S) then RowFiltered(Win(il, r, S), Win(ir, r, S), Cols(il), p, c) else 0
  }

  /**
   * The three expected output images, pixel by pixel; a lemma so that the
   * solver sees only the pixels it is asked about.
   */
  lemma ExpectedImages(il: Image, ir: Image, p: Params) returns (eD: Image, eV: Image, eF: Image)
    requires Rect(il, Cols(il)) && |ir| == |il| && Rect(ir, Cols(il)) && Supported(p)
    ensures |eD| == |il| && |eV| == |il| && |eF| == |il|
    ensures Rect(eD, Cols(il)) && Rect(eV, Cols(il)) && Rect(eF, Cols(il))
    ensures forall r, c {:trigger eD[r][c]} :: 0 <= r < |il| && 0 <= c < Cols(il) ==> eD[r][c] == ExpectedDisp(il, ir, p, r, c)
    ensures forall r, c {:trigger eV[r][c]} :: 0 <= r < |il| && 0 <= c < Cols(il) ==> eV[r][c] == ExpectedValid(il, p, r, c)
    ensures forall r, c {:trigger eF[r][c]} :: 0 <= r < |il| && 0 <= c < Cols(il) ==> eF[r][c] == ExpectedFiltered(il, ir, p, r, c)
  {
    var rows, cols := |il|, Cols(il);
    eD := seq(rows, r requires 0 <= r < rows => seq(cols, c => ExpectedDisp(il, ir, p, r, c)));
    eV := seq(rows, r requires 0 <= r < rows => seq(cols, c => ExpectedValid(il, p, r, c)));
    eF := seq(rows, r requires 0 <= r < rows => seq(cols, c => ExpectedFiltered(il, ir, p, r, c)));
  }

  /** The expected disparity image as a whole. */
  ghost function DispImage(il: Image, ir: Image, p: Params): (img: Image)
    requires Rect(il, Cols(il)) && |ir| == |il| && Rect(ir, Cols(il)) && Supported(p)
    ensures |img| == |il| && Rect(img, Cols(il))
    ensures forall r, c {:trigger img[r][c]} :: 0 <= r < |il| && 0 <= c < Cols(il) ==> img[r][c] == ExpectedDisp(il, ir, p, r, c)
  {
    seq(|il|, r requires 0 <= r < |il| => seq(Cols(il), c => ExpectedDisp(il, ir, p, r, c)))
  }

  /** The expected valid image as a whole. */
  ghost function ValidImage(il: Image, p: Params): (img: Image)
    ensures |img| == |il| && Rect(img, Cols(il))
    ensures forall r, c {:trigger img[r][c]} :: 0 <= r < |il| && 0 <= c < Cols(il) ==> img[r][c] == ExpectedValid(il, p, r, c)
  {
    seq(|il|, r requires 0 <= r < |il| => seq(Cols(il), c => ExpectedValid(il, p, r, c)))
  }

  /** The expected filtered image as a whole. */
  ghost function FilteredImage(il: Image, ir: Image, p: Params): (img: Image)
    requires Rect(il, Cols(il)) && |ir| == |il| && Rect(ir, Cols(il)) && Supported(p)
    ensures |img| == |il| && Rect(img, Cols(il))
    ensures forall r, c {:trigger img[r][c]} :: 0 <= r < |il| && 0 <= c < Cols(il) ==> img[r][c] == ExpectedFiltered(il, ir, p, r, c)
  {
    seq(|il|, r requires 0 <= r < |il| => seq(Cols(il), c => ExpectedFiltered(il, ir, p, r, c)))
  }

  /** Images that agree with the expected pixels everywhere are the expected images. */
  lemma ResultImages(il: Image, ir: Image, p: Params, id: Image, valid: Image, filtered: Image)
    requires Rect(il, Cols(il)) && |ir| == |il| && Rect(ir, Cols(il)) && Supported(p)
    requires |id| == |il| && |valid| == |il| && |filtered| == |il|
    requires Rect(id, Cols(il)) && Rect(valid, Cols(il)) && Rect(filtered, Cols(il))
    requires forall r, c :: 0 <= r < |il| && 0 <= c < Cols(il) ==>
               && id[r][c] == ExpectedDisp(il, ir, p, r, c)
               && valid[r][c] == ExpectedValid(il, p, r, c)
               && filtered[r][c] == ExpectedFiltered(il, ir, p, r, c)
    ensures id == DispImage(il, ir, p) && valid == ValidImage(il, p) && filtered == FilteredImage(il, ir, p)
  {
    var eD, eV, eF := DispImage(il, ir, p), ValidImage(il, p), FilteredImage(il, ir, p);
    assert forall r :: 0 <= r < |il| ==> id[r] == eD[r];
    assert forall r :: 0 <= r < |il| ==> valid[r] == eV[r];
    assert forall r :: 0 <= r < |il| ==> filtered[r] == eF[r];
  }

  /**
   * The rows before output row y - S/2 hold their expected values and the
   * rest are still zero.
   */
  ghost predicate Filled(img: Image, want: Image, cols: nat, S: int, y: int)
  {
    && |img| == |want|
    && forall r {:trigger img[r]} :: 0 <= r < |img| ==>
         img[r] == if r + S / 2 < y then want[r] else seq(cols, _ => 0)
  }

  /** Output row y - S/2 takes its expected value once input row y is read. */
  lemma FilledNext(img: Image, want: Image, cols: nat, S: int, y: int, row: seq<int>)
    requires Filled(img, want, cols, S, y) && 0 <= y - S / 2 < |img| && row == want[y - S / 2]
    ensures Filled(img[y - S / 2 := row], want, cols, S, y + 1)
  {
  }

  /** Reading input row y changes nothing when output row y - S/2 receives no results. */
  lemma FilledSkip(img: Image, want: Image, cols: nat, S: int, y: int)
    requires Filled(img, want, cols, S, y)
    requires 0 <= y - S / 2 < |img| ==> want[y - S / 2] == seq(cols, _ => 0)
    ensures Filled(img, want, cols, S, y + 1)
  {
  }

  /** The first input row the deques hold before row y is read. */
  function Oldest(y: int, S: int): int
  {
    if y - S + 1 > 0 then y - S + 1 else 0
  }

  /**
   * The deque of input rows: row y is pushed; once it holds S rows they are
   * the window of output row y - S/2, and the oldest is popped.
   */
  lemma DequeNext(img: Image, y: int, S: int, rows: Image)
    requires 0 <= y < |img| && S >= 1 && rows == img[Oldest(y, S)..y]
    ensures rows + [img[y]] == img[Oldest(y, S)..y + 1]
    ensures y >= S - 1 ==>
              && RowDone(y - S / 2, |img|, S)
              && rows + [img[y]] == Win(img, y - S / 2, S)
              && (rows + [img[y]])[1..] == img[Oldest(y + 1, S)..y + 1]
    ensures y < S - 1 ==> Oldest(y + 1, S) == Oldest(y, S)
  {
    assert img[Oldest(y, S)..y + 1] == img[Oldest(y, S)..y] + [img[y]];
  }

  /** The rows the matcher computes for a window are the expected output rows. */
  lemma RowsMatch(il: Image, ir: Image, p: Params, eD: Image, eV: Image, eF: Image, r0: int,
                  winL: Image, winR: Image, dRow: seq<int>, vRow: seq<int>, fRow: seq<int>)
    requires Rect(il, Cols(il)) && |ir| == |il| && Rect(ir, Cols(il)) && Supported(p)
    requires |eD| == |il| && |eV| == |il| && |eF| == |il|
    requires Rect(eD, Cols(il)) && Rect(eV, Cols(il)) && Rect(eF, Cols(il))
    requires forall r, c {:trigger eD[r][c]} :: 0 <= r < |il| && 0 <= c < Cols(il) ==> eD[r][c] == ExpectedDisp(il, ir, p, r, c)
    requires forall r, c {:trigger eV[r][c]} :: 0 <= r < |il| && 0 <= c < Cols(il) ==> eV[r][c] == ExpectedValid(il, p, r, c)
    requires forall r, c {:trigger eF[r][c]} :: 0 <= r < |il| && 0 <= c < Cols(il) ==> eF[r][c] == ExpectedFiltered(il, ir, p, r, c)
    requires 0 <= r0 < |il| && RowDone(r0, |il|, p.sadWindow)
    requires winL == Win(il, r0, p.sadWindow) && winR == Win(ir, r0, p.sadWindow)
    requires |dRow| == Cols(il) && |vRow| == Cols(il) && |fRow| == Cols(il)
    requires forall xd :: 0 <= xd < Cols(il) ==>
               && dRow[xd] == RowDisp(winL, winR, Cols(il), p, xd)
               && vRow[xd] == RowValid(Cols(il), p, xd)
               && fRow[xd] == RowFiltered(winL, winR, Cols(il), p, xd)
    ensures dRow == eD[r0] && vRow == eV[r0] && fRow == eF[r0]
  {
    assert forall c :: 0 <= c < Cols(il) ==> dRow[c] == eD[r0][c];
    assert forall c :: 0 <= c < Cols(il) ==> vRow[c] == eV[r0][c];
    assert forall c :: 0 <= c < Cols(il) ==> fRow[c] == eF[r0][c];
  }

  /** An output row that receives no results is zero in the expected images. */
  lemma ZeroRows(il: Image, ir: Image, p: Params, eD: Image, eV: Image, eF: Image, r: int)
    requires Rect(il, Cols(il)) && |ir| == |il| && Rect(ir, Cols(il)) && Supported(p)
    requires |eD| == |il| && |eV| == |il| && |eF| == |il|
    requires Rect(eD, Cols(il)) && Rect(eV, Cols(il)) && Rect(eF, Cols(il))
    requires forall r, c {:trigger eD[r][c]} :: 0 <= r < |il| && 0 <= c < Cols(il) ==> eD[r][c] == ExpectedDisp(il, ir, p, r, c)
    requires forall r, c {:trigger eV[r][c]} :: 0 <= r < |il| && 0 <= c < Cols(il) ==> eV[r][c] == ExpectedValid(il, p, r, c)
    requires forall r, c {:trigger eF[r][c]} :: 0 <= r < |il| && 0 <= c < Cols(il) ==> eF[r][c] == ExpectedFiltered(il, ir, p, r, c)
    requires 0 <= r < |il| && !RowDone(r, |il|, p.sadWindow)
    ensures eD[r] == eV[r] == eF[r] == seq(Cols(il), _ => 0)
  {
  }

  /**
   * dlsc_stereobm: the three zero-filled output images, then one output
   * row per input row y >= S-1, computed from the window of the last S
   * input rows (the `rowsl`/`rowsr` deques).
   */
  method Stereobm(il: Image, ir: Image, p: Params) returns (id: Image, valid: Image, filtered: Image)
    requires Rect(il, Cols(il)) && |ir| == |il| && Rect(ir, Cols(il)) && Supported(p)
    ensures |id| == |il| && |valid| == |il| && |filtered| == |il|
    ensures Rect(id, Cols(il)) && Rect(valid, Cols(il)) && Rect(filtered, Cols(il))
    ensures forall r, c :: 0 <= r < |il| && 0 <= c < Cols(il) ==>
              && id[r][c] == ExpectedDisp(il, ir, p, r, c)
              && valid[r][c] == ExpectedValid(il, p, r, c)
              && filtered[r][c] == ExpectedFiltered(il, ir, p, r, c)
  {
    var rows, cols, S := |il|, Cols(il), p.sadWindow;
    ghost var eD, eV, eF := ExpectedImages(il, ir, p);
    id, valid, filtered := Flat(rows, cols, 0), Flat(rows, cols, 0), Flat(rows, cols, 0);
    var st := new ColState[cols](_ => START);
    var rowsL: Image, rowsR: Image := [], [];
    var y := 0;
    while y < rows
      invariant 0 <= y <= rows && st.Length == cols
      invariant rowsL == il[Oldest(y, S)..y] && rowsR == ir[Oldest(y, S)..y]
      invariant Filled(id, eD, cols, S, y) && Filled(valid, eV, cols, S, y) && Filled(filtered, eF, cols, S, y)
    {
      rowsL, rowsR, id, valid, filtered := NextRow(il, ir, p, y, rowsL, rowsR, st, id, valid, filtered, eD, eV, eF);
      y := y + 1;
    }
    forall r | 0 <= r < rows && r + S / 2 >= rows
      ensures eD[r] == eV[r] == eF[r] == seq(cols, _ => 0)
    {
      ZeroRows(il, ir, p, eD, eV, eF, r);
    }
    assert id == eD && valid == eV && filtered == eF;
  }

  /**
   * One iteration of the row loop: input row y joins the deques; once they
   * hold S rows, output row y - S/2 is matched and the oldest row leaves.
   */
  method NextRow(il: Image, ir: Image, p: Params, y: int, rowsL: Image, rowsR: Image, st: array<ColState>,
                 id: Image, valid: Image, filtered: Image, ghost eD: Image, ghost eV: Image, ghost eF: Image)
    returns (rowsL': Image, rowsR': Image, id': Image, valid': Image, filtered': Image)
    requires Rect(il, Cols(il)) && |ir| == |il| && Rect(ir, Cols(il)) && Supported(p)
    requires |eD| == |il| && |eV| == |il| && |eF| == |il|
    requires Rect(eD, Cols(il)) && Rect(eV, Cols(il)) && Rect(eF, Cols(il))
    requires forall r, c {:trigger eD[r][c]} :: 0 <= r < |il| && 0 <= c < Cols(il) ==> eD[r][c] == ExpectedDisp(il, ir, p, r, c)
    requires forall r, c {:trigger eV[r][c]} :: 0 <= r < |il| && 0 <= c < Cols(il) ==> eV[r][c] == ExpectedValid(il, p, r, c)
    requires forall r, c {:trigger eF[r][c]} :: 0 <= r < |il| && 0 <= c < Cols(il) ==> eF[r][c] == ExpectedFiltered(il, ir, p, r, c)
    requires 0 <= y < |il| && st.Length == Cols(il)
    requires rowsL == il[Oldest(y, p.sadWindow)..y] && rowsR == ir[Oldest(y, p.sadWindow)..y]
    requires Filled(id, eD, Cols(il), p.sadWindow, y) && Filled(valid, eV, Cols(il), p.sadWindow, y)
    requires Filled(filtered, eF, Cols(il), p.sadWindow, y)
    modifies st
    ensures rowsL' == il[Oldest(y + 1, p.sadWindow)..y + 1] && rowsR' == ir[Oldest(y + 1, p.sadWindow)..y + 1]
    ensures Filled(id', eD, Cols(il), p.sadWindow, y + 1) && Filled(valid', eV, Cols(il), p.sadWindow, y + 1)
    ensures Filled(filtered', eF, Cols(il), p.sadWindow, y + 1)
  {
    var cols, S := Cols(il), p.sadWindow;
    DequeNext(il, y, S, rowsL);
    DequeNext(ir, y, S, rowsR);
    rowsL' := rowsL + [il[y]];
    rowsR' := rowsR + [ir[y]];
    id', valid', filtered' := id, valid, filtered;
    if y >= S - 1 {
      var r0 := y - S / 2;
      var dRow, vRow, fRow := MatchRow(rowsL', rowsR', cols, p, st);
      RowsMatch(il, ir, p, eD, eV, eF, r0, rowsL', rowsR', dRow, vRow, fRow);
      FilledNext(id, eD, cols, S, y, dRow);
      FilledNext(valid, eV, cols, S, y, vRow);
      FilledNext(filtered, eF, cols, S, y, fRow);
      id' := id[r0 := dRow];
      valid' := valid[r0 := vRow];
      filtered' := filtered[r0 := fRow];
      rowsL' := rowsL'[1..];
      rowsR' := rowsR'[1..];
    } else {
      if 0 <= y - S / 2 {
        ZeroRows(il, ir, p, eD, eV, eF, y - S / 2);
      }
      FilledSkip(id, eD, cols, S, y);
      FilledSkip(valid, eV, cols, S, y);
      FilledSkip(filtered, eF, cols, S, y);
    }
  }

  /**
   * The body of `if (y >= sad_window-1)`: reset the column states, visit
   * every disparity, run the texture pass when `texture` is set, and
   * post-process. The output rows start zero-filled.
   */
  method MatchRow(winL: Image, winR: Image, cols: nat, p: Params, st: array<ColState>)
    returns (dRow: seq<int>, vRow: seq<int>, fRow: seq<int>)
    requires Windows(winL, winR, cols) && |winL| == p.sadWindow && Supported(p) && st.Length == cols
    modifies st
    ensures |dRow| == cols && |vRow| == cols && |fRow| == cols
    ensures forall xd :: 0 <= xd < cols ==>
              && dRow[xd] == RowDisp(winL, winR, cols, p, xd)
              && vRow[xd] == RowValid(cols, p, xd)
              && fRow[xd] == RowFiltered(winL, winR, cols, p, xd)
  {
    ScanRow(winL, winR, cols, p, st);
    var dptr := new int[cols](_ => 0);
    var vptr := new int[cols](_ => 0);
    var fptr := new int[cols](_ => 0);
    if p.texture != 0 {
      TexturePass(winL, cols, p, fptr);
    }
    forall x | 0 <= x < cols && ColValid(x, cols, p)
      ensures Bracketed(st[x], p.disparities)
    {
      FinalBracketed(winL, winR, cols, p, x);
    }
    PostProcess(st, cols, p, dptr, vptr, fptr);
    dRow, vRow, fRow := dptr[..], vptr[..], fptr[..];
    forall xd | 0 <= xd < cols
      ensures dRow[xd] == RowDisp(winL, winR, cols, p, xd) && fRow[xd] == RowFiltered(winL, winR, cols, p, xd)
    {
      RowResults(winL, winR, cols, p, xd, st[xd]);
    }
  }

  /** The state of a post-processed column meets what the sub-pixel division needs. */
  lemma FinalBracketed(winL: Image, winR: Image, cols: nat, p: Params, x: int)
    requires Windows(winL, winR, cols) && |winL| == p.sadWindow && Supported(p) && ColValid(x, cols, p)
    ensures Bracketed(FinalState(winL, winR, cols, p, x), p.disparities)
  {
    ValidReachesAll(x, cols, p);
    ScanBracketed(CostList(winL, winR, cols, x, p.disparities), p.disparities);
  }

  /** The disparity and filtered flag of a column, from its final state. */
  lemma RowResults(winL: Image, winR: Image, cols: nat, p: Params, xd: int, st: ColState)
    requires Windows(winL, winR, cols) && |winL| == p.sadWindow && Supported(p)
    requires st == FinalState(winL, winR, cols, p, xd)
    ensures ColValid(xd, cols, p) ==> Bracketed(st, p.disparities)
    ensures RowDisp(winL, winR, cols, p, xd) == if ColValid(xd, cols, p) then DispOut(st, p) else 0
    ensures RowFiltered(winL, winR, cols, p, xd)
            == if TooFlat(winL, cols, p, xd) || (ColValid(xd, cols, p) && p.uniqueMul != 0 && Ambiguous(st, p))
               then UCHAR_MAX else 0
  {
    if ColValid(xd, cols, p) {
      FinalBracketed(winL, winR, cols, p, xd);
    }
  }

  /** Every column state holds the fold of its costs at the disparities below d it is evaluated at. */
  ghost predicate Visited(now: seq<ColState>, winL: Image, winR: Image, cols: nat, p: Params, d: int)
    requires Windows(winL, winR, cols)
  {
    && 0 <= d && |now| == cols
    && forall j {:trigger now[j]} :: 0 <= j < cols ==>
         now[j] == Scan(CostList(winL, winR, cols, j, Min(d, Reach(j, p.disparities, |winL|, cols))))
  }

  /** The scan of disparity d extends every evaluated column's fold by one step. */
  lemma VisitedNext(before: seq<ColState>, after: seq<ColState>, winL: Image, winR: Image, cols: nat, p: Params, d: int)
    requires Windows(winL, winR, cols) && 0 <= d < p.disparities
    requires Visited(before, winL, winR, cols, p, d) && |after| == cols
    requires Stepped(after, before, winL, winR, cols, d)
    ensures Visited(after, winL, winR, cols, p, d + 1)
  {
    forall j | 0 <= j < cols
      ensures after[j] == Scan(CostList(winL, winR, cols, j, Min(d + 1, Reach(j, p.disparities, |winL|, cols))))
    {
      if Evaluated(j, d, |winL|, cols) {
        ScanCostStep(winL, winR, cols, j, d);
      }
    }
  }

  /** Reset columns have visited no disparity. */
  lemma VisitedStart(now: seq<ColState>, winL: Image, winR: Image, cols: nat, p: Params)
    requires Windows(winL, winR, cols) && |now| == cols
    requires forall j :: 0 <= j < cols ==> now[j] == START
    ensures Visited(now, winL, winR, cols, p, 0)
  {
  }

  /** Once every disparity is visited, each column holds its final state. */
  lemma VisitedAll(now: seq<ColState>, winL: Image, winR: Image, cols: nat, p: Params)
    requires Windows(winL, winR, cols) && Visited(now, winL, winR, cols, p, p.disparities)
    ensures forall j :: 0 <= j < cols ==> now[j] == FinalState(winL, winR, cols, p, j)
  {
  }

  /** The reset of the column states and the loop over every disparity. */
  method ScanRow(winL: Image, winR: Image, cols: nat, p: Params, st: array<ColState>)
    requires Windows(winL, winR, cols) && |winL| == p.sadWindow && Supported(p) && st.Length == cols
    modifies st
    ensures forall j :: 0 <= j < cols ==> st[j] == FinalState(winL, winR, cols, p, j)
  {
    ResetColumns(st);
    VisitedStart(st[..], winL, winR, cols, p);
    var d := 0;
    while d < p.disparities
      invariant 0 <= d <= p.disparities
      invariant Visited(st[..], winL, winR, cols, p, d)
    {
      ghost var before := st[..];
      ScanDisparity(winL, winR, cols, d, st);
      VisitedNext(before, st[..], winL, winR, cols, p, d);
      d := d + 1;
    }
    VisitedAll(st[..], winL, winR, cols, p);
  }

  function Min(a: int, b: int): int
  {
    if a < b then a else b
  }

  /** One more disparity extends a column's fold by one step. */
  lemma ScanCostStep(winL: Image, winR: Image, cols: nat, xd: int, d: nat)
    requires Windows(winL, winR, cols) && Evaluated(xd, d, |winL|, cols)
    ensures Scan(CostList(winL, winR, cols, xd, d + 1))
            == Step(Scan(CostList(winL, winR, cols, xd, d)), d, WinCost(winL, winR, cols, xd, d))
  {
    var a := CostList(winL, winR, cols, xd, d);
    var c := CostList(winL, winR, cols, xd, d + 1);
    assert c == a + [WinCost(winL, winR, cols, xd, d)];
    ScanSnoc(a, WinCost(winL, winR, cols, xd, d));
  }

  /** The initialisation loop of the row disparity buffers. */
  method ResetColumns(st: array<ColState>)
    modifies st
    ensures forall j :: 0 <= j < st.Length ==> st[j] == START
  {
    var x := 0;
    while x < st.Length
      invariant 0 <= x <= st.Length
      invariant forall j :: 0 <= j < x ==> st[j] == START
    {
      st[x] := START;
      x := x + 1;
    }
  }

  /** The sum of one column over the window: |L[ys][x] - R[ys][x-d]| for every window row ys. */
  method ColumnSad(winL: Image, winR: Image, cols: nat, x: int, d: int) returns (sad: int)
    requires Windows(winL, winR, cols) && 0 <= d <= x < cols
    ensures sad == ColSad(winL, winR, cols, x, d, |winL|)
  {
    sad := 0;
    var ys := 0;
    while ys < |winL|
      invariant 0 <= ys <= |winL|
      invariant sad == ColSad(winL, winR, cols, x, d, ys)
    {
      sad := sad + Abs(winL[ys][x] - winR[ys][x - d]);
      ys := ys + 1;
    }
  }

  /** The first column of the delay line before column x is fed at disparity d. */
  function First(x: int, d: int, S: int): int
  {
    if x - S + 1 > d then x - S + 1 else d
  }

  /**
   * The delay line holds the column sums of columns lo, lo+1, ... at
   * disparity d, and `accum` is their total.
   */
  ghost predicate Holds(winL: Image, winR: Image, cols: nat, d: int, lo: int, delay: seq<int>, accum: int)
    requires Windows(winL, winR, cols)
  {
    && 0 <= d <= lo
    && (delay == [] || (lo + |delay| <= cols && delay == Columns(winL, winR, cols, lo, |delay|, d)))
    && accum == Sum(delay)
  }

  /** How many column sums the delay line holds before column x is fed: those of First(x) .. x-1. */
  function Fill(x: int, d: int, S: int): int
  {
    if x > d then x - First(x, d, S) else 0
  }

  /**
   * Feeding column x: the delay line becomes full exactly when the window
   * ending at x lies right of d, and what it then holds.
   */
  lemma FillNext(x: int, d: int, S: int)
    requires 0 <= d <= x && S >= 1 && Fill(x, d, S) < S
    ensures Fill(x, d, S) + 1 <= S
    ensures Fill(x, d, S) + 1 == S <==> x - S + 1 >= d
    ensures x - S + 1 >= d ==>
              First(x, d, S) == x - S + 1 && First(x + 1, d, S) == x - S + 2 && Fill(x + 1, d, S) == S - 1
    ensures x - S + 1 < d ==> First(x + 1, d, S) == First(x, d, S) == d && Fill(x + 1, d, S) == Fill(x, d, S) + 1
  {
  }

  /** Column j's cost at disparity d is complete once the scan is past column j + S/2. */
  predicate Produced(j: int, d: int, S: int, cols: int, x: int)
  {
    Evaluated(j, d, S, cols) && j + S / 2 < x
  }

  /**
   * Feeding column x completes the cost of column x - S/2 exactly when the
   * delay line then holds S sums, and of no other column.
   */
  lemma ProducedNext(d: int, S: int, cols: int, x: int)
    requires 0 <= d && S >= 1 && 0 <= x < cols
    ensures x - S + 1 >= d ==> Evaluated(x - S / 2, d, S, cols) && WindowStart(x - S / 2, S) == x - S + 1
    ensures forall j :: Produced(j, d, S, cols, x + 1) <==> (Produced(j, d, S, cols, x) || (x - S + 1 >= d && j == x - S / 2))
  {
  }

  /** Once the scan has passed every column, exactly the evaluated columns are complete. */
  lemma ProducedAll(d: int, S: int, cols: int)
    requires S >= 1
    ensures forall j :: Produced(j, d, S, cols, cols) <==> Evaluated(j, d, S, cols)
  {
  }

  /** The push onto the delay line: the next column sum enters, and the total grows by it. */
  lemma PushHolds(winL: Image, winR: Image, cols: nat, d: int, lo: int, sad: int, delay: seq<int>, accum: int)
    requires Windows(winL, winR, cols) && Holds(winL, winR, cols, d, lo, delay, accum) && lo + |delay| < cols
    requires sad == ColSad(winL, winR, cols, lo + |delay|, d, |winL|)
    ensures Holds(winL, winR, cols, d, lo, delay + [sad], accum + sad)
  {
    assert (delay + [sad])[..|delay|] == delay;
  }

  /** The pop from the delay line: the oldest column sum leaves, and the total drops by it. */
  lemma PopHolds(winL: Image, winR: Image, cols: nat, d: int, lo: int, delay: seq<int>, accum: int)
    requires Windows(winL, winR, cols) && Holds(winL, winR, cols, d, lo, delay, accum) && |delay| >= 1
    ensures Holds(winL, winR, cols, d, lo + 1, delay[1..], accum - delay[0])
  {
    SumFront(delay);
    ColumnsTail(winL, winR, cols, lo, |delay|, d);
  }

  /**
   * One column through the delay line: the column sum of x enters; when
   * the line is then full its total is the window cost of column x - S/2
   * and the oldest sum leaves. Either way the line is ready for x + 1.
   */
  lemma LineNext(winL: Image, winR: Image, cols: nat, d: int, x: int, sad: int, delay: seq<int>, accum: int)
    requires Windows(winL, winR, cols) && |winL| >= 1 && 0 <= d <= x < cols
    requires |delay| == Fill(x, d, |winL|) < |winL| && Holds(winL, winR, cols, d, First(x, d, |winL|), delay, accum)
    requires sad == ColSad(winL, winR, cols, x, d, |winL|)
    ensures var S := |winL|;
            var line := delay + [sad];
            && (|line| == S <==> x - S + 1 >= d)
            && (|line| == S ==>
                  && Evaluated(x - S / 2, d, S, cols)
                  && accum + sad == WinCost(winL, winR, cols, x - S / 2, d)
                  && |line[1..]| == Fill(x + 1, d, S)
                  && Holds(winL, winR, cols, d, First(x + 1, d, S), line[1..], accum + sad - line[0]))
            && (|line| < S ==>
                  |line| == Fill(x + 1, d, S) && Holds(winL, winR, cols, d, First(x + 1, d, S), line, accum + sad))
  {
    var S := |winL|;
    var lo := First(x, d, S);
    FillNext(x, d, S);
    PushHolds(winL, winR, cols, d, lo, sad, delay, accum);
    var line := delay + [sad];
    if |line| == S {
      PopHolds(winL, winR, cols, d, lo, line, accum + sad);
      ProducedNext(d, S, cols, x);
    }
  }

  /** Before column d the delay line stays empty. */
  lemma LineIdle(winL: Image, winR: Image, cols: nat, d: int, x: int)
    requires Windows(winL, winR, cols) && |winL| >= 1 && 0 <= x < d
    ensures Fill(x + 1, d, |winL|) == 0 && Holds(winL, winR, cols, d, First(x + 1, d, |winL|), [], 0)
  {
  }

  /**
   * The costs of the columns of a row at disparity d, 0 where a column is
   * not evaluated; a lemma so that the solver sees only what it ensures.
   */
  lemma CostRow(winL: Image, winR: Image, cols: nat, d: int) returns (c: seq<int>)
    requires Windows(winL, winR, cols)
    ensures |c| == cols
    ensures forall j {:trigger WinCost(winL, winR, cols, j, d)} ::
              0 <= j < cols && Evaluated(j, d, |winL|, cols) ==> c[j] == WinCost(winL, winR, cols, j, d)
  {
    c := seq(cols, j requires 0 <= j < cols =>
           if Evaluated(j, d, |winL|, cols) then WinCost(winL, winR, cols, j, d) else 0);
  }

  /**
   * The column states after the scan of disparity d has fed columns
   * 0 .. x-1: the columns whose cost is complete have taken their step.
   */
  ghost predicate Scanned(now: seq<ColState>, before: seq<ColState>, cost: seq<int>, d: int, S: int, x: int)
  {
    && |now| == |before| == |cost|
    && forall j {:trigger now[j]} :: 0 <= j < |now| ==>
         now[j] == if Produced(j, d, S, |now|, x) then Step(before[j], d, cost[j]) else before[j]
  }

  /** Feeding column x steps column x - S/2 when its cost completes, and no other. */
  lemma ScannedNext(now: seq<ColState>, before: seq<ColState>, cost: seq<int>, d: int, S: int, x: int)
    requires Scanned(now, before, cost, d, S, x) && 0 <= d && S >= 1 && 0 <= x < |now|
    ensures x - S + 1 < d ==> Scanned(now, before, cost, d, S, x + 1)
    ensures x - S + 1 >= d ==>
              var xd := x - S / 2;
              0 <= xd < |now| && Scanned(now[xd := Step(now[xd], d, cost[xd])], before, cost, d, S, x + 1)
  {
    ProducedNext(d, S, |now|, x);
  }

  /** The update of column xd = x - S/2 with its completed window cost. */
  method Record(st: array<ColState>, ghost before: seq<ColState>, ghost cost: seq<int>, d: int, S: int, x: int, accum: int)
    requires Scanned(st[..], before, cost, d, S, x) && 0 <= d && S >= 1 && 0 <= x < st.Length && x - S + 1 >= d
    requires 0 <= x - S / 2 < |cost| && accum == cost[x - S / 2]
    modifies st
    ensures Scanned(st[..], before, cost, d, S, x + 1)
  {
    ghost var now := st[..];
    ScannedNext(now, before, cost, d, S, x);
    var xd := x - S / 2;
    st[xd] := Step(st[xd], d, accum);
    assert st[..] == now[xd := Step(now[xd], d, cost[xd])];
  }

  /**
   * One column of the scan of disparity d: its column sum enters the delay
   * line; when the line is full its total is the cost of column x - S/2,
   * which takes its step, and the oldest sum leaves.
   */
  method Feed(winL: Image, winR: Image, cols: nat, d: int, x: int, delay: seq<int>, accum: int,
              st: array<ColState>, ghost before: seq<ColState>, ghost cost: seq<int>)
    returns (delay': seq<int>, accum': int)
    requires Windows(winL, winR, cols) && |winL| >= 1 && st.Length == cols && 0 <= d && 0 <= x < cols
    requires |delay| == Fill(x, d, |winL|) < |winL| && Holds(winL, winR, cols, d, First(x, d, |winL|), delay, accum)
    requires Scanned(st[..], before, cost, d, |winL|, x)
    requires forall j {:trigger WinCost(winL, winR, cols, j, d)} ::
               0 <= j < cols && Evaluated(j, d, |winL|, cols) ==> cost[j] == WinCost(winL, winR, cols, j, d)
    modifies st
    ensures |delay'| == Fill(x + 1, d, |winL|) < |winL| && Holds(winL, winR, cols, d, First(x + 1, d, |winL|), delay', accum')
    ensures Scanned(st[..], before, cost, d, |winL|, x + 1)
  {
    var S := |winL|;
    delay', accum' := delay, accum;
    if d <= x {
      var sad := ColumnSad(winL, winR, cols, x, d);
      LineNext(winL, winR, cols, d, x, sad, delay', accum');
      accum' := accum' + sad;
      delay' := delay' + [sad];
      if |delay'| == S {
        Record(st, before, cost, d, S, x, accum');
        accum' := accum' - delay'[0];
        delay' := delay'[1..];
      } else {
        ScannedNext(st[..], before, cost, d, S, x);
      }
    } else {
      LineIdle(winL, winR, cols, d, x);
      ScannedNext(st[..], before, cost, d, S, x);
    }
  }

  /**
   * Every column evaluated at disparity d has taken the step for its window
   * cost at d; every other column is as before.
   */
  ghost predicate Stepped(now: seq<ColState>, before: seq<ColState>, winL: Image, winR: Image, cols: nat, d: int)
    requires Windows(winL, winR, cols)
  {
    && |now| == |before| == cols
    && forall j {:trigger now[j]} :: 0 <= j < cols ==>
         now[j] == if Evaluated(j, d, |winL|, cols) then Step(before[j], d, WinCost(winL, winR, cols, j, d)) else before[j]
  }

  /**
   * One disparity across the row: column sums enter a delay line, and
   * once it holds S of them their running total is the cost of the column
   * S/2 to the left, which updates that column's state; then the oldest
   * sum leaves.
   */
  method ScanDisparity(winL: Image, winR: Image, cols: nat, d: int, st: array<ColState>)
    requires Windows(winL, winR, cols) && |winL| >= 1 && st.Length == cols && d >= 0
    modifies st
    ensures Stepped(st[..], old(st[..]), winL, winR, cols, d)
  {
    var S := |winL|;
    var accum := 0;
    var delay: seq<int> := [];
    ghost var before := st[..];
    ghost var cost := CostRow(winL, winR, cols, d);
    var x := 0;
    while x < cols
      invariant 0 <= x <= cols
      invariant |delay| == Fill(x, d, S) < S && Holds(winL, winR, cols, d, First(x, d, S), delay, accum)
      invariant Scanned(st[..], before, cost, d, S, x)
    {
      delay, accum := Feed(winL, winR, cols, d, x, delay, accum, st, before, cost);
      x := x + 1;
    }
    ProducedAll(d, S, cols);
  }

  /** The window deviation of one column from `half`: |L[ys][x] - half| over every window row ys. */
  method TextureColumn(winL: Image, cols: nat, x: int, half: int) returns (sad: int)
    requires Rect(winL, cols) && 0 <= x < cols
    ensures sad == ColSad(winL, Flat(|winL|, cols, half), cols, x, 0, |winL|)
  {
    ghost var flat := Flat(|winL|, cols, half);
    sad := 0;
    var ys := 0;
    while ys < |winL|
      invariant 0 <= ys <= |winL|
      invariant sad == ColSad(winL, flat, cols, x, 0, ys)
    {
      sad := sad + Abs(winL[ys][x] - half);
      ys := ys + 1;
    }
  }

  /**
   * The filtered flags after the texture pass has fed columns 0 .. x-1:
   * the columns whose total is complete and below `texture` are set.
   */
  ghost predicate Flagged(now: seq<int>, before: seq<int>, cost: seq<int>, texture: int, S: int, x: int)
  {
    && |now| == |before| == |cost|
    && forall j {:trigger now[j]} :: 0 <= j < |now| ==>
         now[j] == if Produced(j, 0, S, |now|, x) && cost[j] < texture then UCHAR_MAX else before[j]
  }

  /** Feeding column x settles the flag of column x - S/2 once its total completes, and no other. */
  lemma FlaggedNext(now: seq<int>, before: seq<int>, cost: seq<int>, texture: int, S: int, x: int)
    requires Flagged(now, before, cost, texture, S, x) && S >= 1 && 0 <= x < |now|
    ensures x - S + 1 < 0 ==> Flagged(now, before, cost, texture, S, x + 1)
    ensures x - S + 1 >= 0 ==>
              var xd := x - S / 2;
              && 0 <= xd < |now|
              && (cost[xd] < texture ==> Flagged(now[xd := UCHAR_MAX], before, cost, texture, S, x + 1))
              && (cost[xd] >= texture ==> Flagged(now, before, cost, texture, S, x + 1))
  {
    ProducedNext(0, S, |now|, x);
  }

  /** The texture test of column xd = x - S/2 with its completed window total. */
  method Mark(fptr: array<int>, ghost before: seq<int>, ghost cost: seq<int>, texture: int, S: int, x: int, accum: int)
    requires Flagged(fptr[..], before, cost, texture, S, x) && S >= 1 && 0 <= x < fptr.Length && x - S + 1 >= 0
    requires 0 <= x - S / 2 < |cost| && accum == cost[x - S / 2]
    modifies fptr
    ensures Flagged(fptr[..], before, cost, texture, S, x + 1)
  {
    ghost var now := fptr[..];
    FlaggedNext(now, before, cost, texture, S, x);
    var xd := x - S / 2;
    if accum < texture {
      fptr[xd] := UCHAR_MAX;
      assert fptr[..] == now[xd := UCHAR_MAX];
    }
  }

  /** One column of the texture pass: the delay line as in Feed, then the texture test. */
  method FeedTexture(winL: Image, cols: nat, half: int, texture: int, x: int, delay: seq<int>, accum: int,
                     fptr: array<int>, ghost before: seq<int>, ghost cost: seq<int>)
    returns (delay': seq<int>, accum': int)
    requires Rect(winL, cols) && |winL| >= 1 && fptr.Length == cols && 0 <= x < cols
    requires Windows(winL, Flat(|winL|, cols, half), cols)
    requires |delay| == Fill(x, 0, |winL|) < |winL|
    requires Holds(winL, Flat(|winL|, cols, half), cols, 0, First(x, 0, |winL|), delay, accum)
    requires Flagged(fptr[..], before, cost, texture, |winL|, x)
    requires forall j {:trigger WinCost(winL, Flat(|winL|, cols, half), cols, j, 0)} ::
               0 <= j < cols && Evaluated(j, 0, |winL|, cols) ==> cost[j] == WinCost(winL, Flat(|winL|, cols, half), cols, j, 0)
    modifies fptr
    ensures |delay'| == Fill(x + 1, 0, |winL|) < |winL|
    ensures Holds(winL, Flat(|winL|, cols, half), cols, 0, First(x + 1, 0, |winL|), delay', accum')
    ensures Flagged(fptr[..], before, cost, texture, |winL|, x + 1)
  {
    var S := |winL|;
    var sad := TextureColumn(winL, cols, x, half);
    LineNext(winL, Flat(S, cols, half), cols, 0, x, sad, delay, accum);
    accum' := accum + sad;
    delay' := delay + [sad];
    if |delay'| == S {
      Mark(fptr, before, cost, texture, S, x, accum');
      accum' := accum' - delay'[0];
      delay' := delay'[1..];
    } else {
      FlaggedNext(fptr[..], before, cost, texture, S, x);
    }
  }

  /**
   * The texture pass: the same delay line over the deviation of the left
   * window from data_max/2; a column whose total stays below `texture` is
   * marked filtered.
   */
  method TexturePass(winL: Image, cols: nat, p: Params, fptr: array<int>)
    requires Rect(winL, cols) && |winL| >= 1 && fptr.Length == cols
    requires p.texture != 0
    modifies fptr
    ensures forall j :: 0 <= j < cols ==>
              fptr[j] == if TooFlat(winL, cols, p, j) then UCHAR_MAX else old(fptr[j])
  {
    var S := |winL|;
    var half := Half(p.dataMax);
    ghost var flat := Flat(S, cols, half);
    var accum := 0;
    var delay: seq<int> := [];
    ghost var before := fptr[..];
    ghost var cost := CostRow(winL, flat, cols, 0);
    var x := 0;
    while x < cols
      invariant 0 <= x <= cols
      invariant |delay| == Fill(x, 0, S) < S && Holds(winL, flat, cols, 0, First(x, 0, S), delay, accum)
      invariant Flagged(fptr[..], before, cost, p.texture, S, x)
    {
      delay, accum := FeedTexture(winL, cols, half, p.texture, x, delay, accum, fptr, before, cost);
      x := x + 1;
    }
    ProducedAll(0, S, cols);
  }

  /**
   * The post-processing pass over disparities-1+S/2 <= x < cols-S/2: set
   * the valid flag, write the disparity shifted up by sub_bits with its
   * sub-pixel correction, and mark the column filtered when the uniqueness
   * test is on and fails.
   */
  method PostProcess(st: array<ColState>, cols: nat, p: Params, dptr: array<int>, vptr: array<int>, fptr: array<int>)
    requires Supported(p) && st.Length == cols && dptr.Length == cols && vptr.Length == cols && fptr.Length == cols
    requires dptr != vptr && dptr != fptr && vptr != fptr
    requires forall x :: 0 <= x < cols && ColValid(x, cols, p) ==> Bracketed(st[x], p.disparities)
    modifies dptr, vptr, fptr
    ensures forall x :: 0 <= x < cols ==>
              && vptr[x] == (if ColValid(x, cols, p) then UCHAR_MAX else old(vptr[x]))
              && dptr[x] == (if ColValid(x, cols, p) then DispOut(st[x], p) else old(dptr[x]))
              && fptr[x] == (if ColValid(x, cols, p) && p.uniqueMul != 0 && Ambiguous(st[x], p)
                             then UCHAR_MAX else old(fptr[x]))
  {
    var S := p.sadWindow;
    var x := p.disparities - 1 + S / 2;
    while x < cols - S / 2
      invariant p.disparities - 1 + S / 2 <= x && (x <= cols - S / 2 || x == p.disparities - 1 + S / 2)
      invariant forall j :: 0 <= j < cols ==>
                  var done := ColValid(j, cols, p) && j < x;
                  && vptr[j] == (if done then UCHAR_MAX else old(vptr[j]))
                  && dptr[j] == (if done then DispOut(st[j], p) else old(dptr[j]))
                  && fptr[j] == (if done && p.uniqueMul != 0 && Ambiguous(st[j], p) then UCHAR_MAX else old(fptr[j]))
    {
      vptr[x] := UCHAR_MAX;
      dptr[x] := DispOut(st[x], p);
      if p.uniqueMul != 0 && Ambiguous(st[x], p) {
        fptr[x] := UCHAR_MAX;
      }
      x := x + 1;
    }
  }
}
