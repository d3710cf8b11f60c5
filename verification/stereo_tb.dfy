/**
 * The testbench flavour of the block matcher (dlsc_stereobm_tb_models):
 * the same matcher and prefilter with their parameters fixed at compile
 * time, and the packing of the results into the records the testbench
 * compares the hardware against. One record covers MULT_R rows of one
 * column; records come in raster order, one input record per output record.
 */
module StereoTb {
  import opened Bits
  import opened StereoCost
  import opened StereoSelect
  import opened StereoPost
  import opened StereoXSobel
  import opened StereoBm

  /** The compile-time parameters: IMG_WIDTH, IMG_HEIGHT, MULT_R, DISPARITIES, SAD, TEXTURE, DATA_MAX, SUB_BITS, SUB_BITS_EXTRA, UNIQUE_MUL, UNIQUE_DIV. */
  datatype TbConfig = TbConfig(
    width: nat,
    height: nat,
    multR: nat,
    disparities: int,
    sadWindow: int,
    texture: int,
    dataMax: int,
    subBits: int,
    subBitsExtra: int,
    uniqueMul: int,
    uniqueDiv: int)

  /**
   * The matcher parameters the compile-time ones amount to: the texture
   * pass and the uniqueness test are compiled in only for positive TEXTURE
   * and UNIQUE_MUL.
   */
  function TbParams(cfg: TbConfig): Params
  {
    Params(
      xsobel := false,
      disparities := cfg.disparities,
      sadWindow := cfg.sadWindow,
      texture := if cfg.texture > 0 then cfg.texture else 0,
      dataMax := cfg.dataMax,
      subBits := cfg.subBits,
      subBitsExtra := cfg.subBitsExtra,
      uniqueMul := if cfg.uniqueMul > 0 then cfg.uniqueMul else 0,
      uniqueDiv := cfg.uniqueDiv,
      width := cfg.width,
      height := cfg.height,
      scale := false)
  }

  /**
   * A texture threshold that is not positive filters nothing, so compiling
   * the pass out for TEXTURE <= 0 agrees with running it: the window sum
   * of absolute differences is never negative.
   */
  lemma TextureOffAgrees(winL: Image, cols: nat, p: Params, xd: int)
    requires Rect(winL, cols) && p.texture <= 0
    ensures !TooFlat(winL, cols, p, xd)
  {
    if p.texture != 0 && Evaluated(xd, 0, |winL|, cols) {
      var half := Half(p.dataMax);
      var flat := Flat(|winL|, cols, half);
      SumColumnsNonNegative(winL, flat, cols, WindowStart(xd, |winL|), |winL|, 0);
    }
  }

  /** Column sums of absolute differences, and so their sums, are never negative. */
  lemma {:induction false} SumColumnsNonNegative(winL: Image, winR: Image, cols: nat, x0: int, w: nat, d: int)
    requires Windows(winL, winR, cols) && 0 <= d <= x0 && x0 + w <= cols
    ensures Sum(Columns(winL, winR, cols, x0, w, d)) >= 0
    decreases w
  {
    if w > 0 {
      var cs := Columns(winL, winR, cols, x0, w, d);
      SumColumnsNonNegative(winL, winR, cols, x0, w - 1, d);
      assert cs[..w - 1] == Columns(winL, winR, cols, x0, w - 1, d);
      ColSadNonNegative(winL, winR, cols, x0 + w - 1, d, |winL|);
    }
  }

  lemma {:induction false} ColSadNonNegative(winL: Image, winR: Image, cols: nat, x: int, d: int, n: nat)
    requires Windows(winL, winR, cols) && n <= |winL| && 0 <= d <= x < cols
    ensures ColSad(winL, winR, cols, x, d, n) >= 0
    decreases n
  {
    if n > 0 {
      ColSadNonNegative(winL, winR, cols, x, d, n - 1);
    }
  }

  /**
   * The testbench's dlsc_stereobm: the matcher with the compile-time
   * parameters. Its progress indicator takes y modulo rows/10, so an image
   * of 1 to 9 rows divides by zero.
   */
  method TbStereobm(il: Image, ir: Image, cfg: TbConfig) returns (id: Image, valid: Image, filtered: Image)
    requires Rect(il, Cols(il)) && |ir| == |il| && Rect(ir, Cols(il)) && Supported(TbParams(cfg))
    requires |il| == 0 || |il| >= 10
    ensures |id| == |il| && |valid| == |il| && |filtered| == |il|
    ensures Rect(id, Cols(il)) && Rect(valid, Cols(il)) && Rect(filtered, Cols(il))
    ensures forall r, c :: 0 <= r < |il| && 0 <= c < Cols(il) ==>
              && id[r][c] == ExpectedDisp(il, ir, TbParams(cfg), r, c)
              && valid[r][c] == ExpectedValid(il, TbParams(cfg), r, c)
              && filtered[r][c] == ExpectedFiltered(il, ir, TbParams(cfg), r, c)
  {
    id, valid, filtered := Stereobm(il, ir, TbParams(cfg));
  }

  /** The testbench's dlsc_xsobel: the prefilter with DATA_MAX. */
  method TbXSobel(img: Image, cfg: TbConfig) returns (out: Image)
    requires Filterable(img)
    ensures out == SobelImage(img, cfg.dataMax)
  {
    out := XSobel(img, cfg.dataMax);
  }

  /** in_type: the unfiltered left and right pixels of the MULT_R rows of one column. */
  datatype InRec = InRec(left: seq<int>, right: seq<int>)

  /** out_type: the expected results and filtered pixels of one column of MULT_R rows, with its position flags. */
  datatype OutRec = OutRec(
    disp: seq<int>,
    dispValid: seq<bool>,
    dispValidAny: bool,
    dispFiltered: seq<bool>,
    left: seq<int>,
    right: seq<int>,
    frameFirst: bool,
    frameLast: bool,
    rowFirst: bool,
    rowLast: bool,
    x: int,
    y: int)

  /** The top-left IMG_HEIGHT x IMG_WIDTH part of an image. */
  function TopLeft(img: Image, width: nat, height: nat): (c: Image)
    requires Rect(img, Cols(img)) && width <= Cols(img) && height <= |img|
    ensures |c| == height && Rect(c, width) && (height != 0 ==> Cols(c) == width)
    ensures forall r, k :: 0 <= r < height && 0 <= k < width ==> c[r][k] == img[r][k]
  {
    seq(height, r requires 0 <= r < height => img[r][..width])
  }

  /** The image the matcher sees: the crop, through the prefilter when it is used. */
  ghost function Prefiltered(img: Image, sobel: bool, cfg: TbConfig): (f: Image)
    requires Rect(img, Cols(img)) && (sobel ==> Filterable(img))
    ensures |f| == |img| && Rect(f, Cols(img)) && Cols(f) == Cols(img)
  {
    if sobel then SobelImage(img, cfg.dataMax) else img
  }

  /**
   * The seven images the records are read from: the cropped pair, the
   * prefiltered pair and the three results.
   */
  datatype Frames = Frames(ilc: Image, irc: Image, ilf: Image, irf: Image, id: Image, valid: Image, filtered: Image)

  /** All seven images have the same number of rows of `cols` pixels. */
  ghost predicate Framed(f: Frames, cols: nat)
  {
    && |f.irc| == |f.ilc| && |f.ilf| == |f.ilc| && |f.irf| == |f.ilc|
    && |f.id| == |f.ilc| && |f.valid| == |f.ilc| && |f.filtered| == |f.ilc|
    && Rect(f.ilc, cols) && Rect(f.irc, cols) && Rect(f.ilf, cols) && Rect(f.irf, cols)
    && Rect(f.id, cols) && Rect(f.valid, cols) && Rect(f.filtered, cols)
  }

  /** What one pass of the inner loop reads for row y at column x. */
  datatype Lane = Lane(disp: int, valid: bool, filtered: bool, left: int, right: int, inLeft: int, inRight: int)

  /**
   * Row y at column x: the disparity (a short read as an unsigned int), the
   * valid and filtered flags (a byte read as a bool), the prefiltered
   * pixels for the output record and the unfiltered ones for the input record.
   */
  function LaneAt(f: Frames, cols: nat, y: nat, x: nat): Lane
    requires Framed(f, cols) && y < |f.ilc| && x < cols
  {
    Lane(f.id[y][x] % UINT32_LIMIT, f.valid[y][x] != 0, f.filtered[y][x] != 0,
         f.ilf[y][x], f.irf[y][x], f.ilc[y][x], f.irc[y][x])
  }

  /** The lanes of rows yr .. yr+MULT_R-1 at column x. */
  ghost function LanesAt(f: Frames, cfg: TbConfig, yr: nat, x: nat): (ls: seq<Lane>)
    requires Framed(f, cfg.width) && yr + cfg.multR <= |f.ilc| && x < cfg.width
    ensures |ls| == cfg.multR
  {
    seq(cfg.multR, i requires 0 <= i < cfg.multR => LaneAt(f, cfg.width, yr + i, x))
  }

  /** The input record of a group of lanes: the unfiltered pixels. */
  function InOf(ls: seq<Lane>): InRec
  {
    InRec(seq(|ls|, i requires 0 <= i < |ls| => ls[i].inLeft), seq(|ls|, i requires 0 <= i < |ls| => ls[i].inRight))
  }

  /** The output record of a group of lanes starting at row yr, column x, with its position flags. */
  function OutOf(ls: seq<Lane>, cfg: TbConfig, yr: nat, x: nat): OutRec
  {
    OutRec(
      disp := seq(|ls|, i requires 0 <= i < |ls| => ls[i].disp),
      dispValid := seq(|ls|, i requires 0 <= i < |ls| => ls[i].valid),
      dispValidAny := exists i :: 0 <= i < |ls| && ls[i].valid,
      dispFiltered := seq(|ls|, i requires 0 <= i < |ls| => ls[i].filtered),
      left := seq(|ls|, i requires 0 <= i < |ls| => ls[i].left),
      right := seq(|ls|, i requires 0 <= i < |ls| => ls[i].right),
      frameFirst := x == 0 && yr == 0,
      frameLast := x == cfg.width - 1 && yr == cfg.height - cfg.multR,
      rowFirst := x == 0,
      rowLast := x == cfg.width - 1,
      x := x,
      y := yr)
  }

  /** The images the testbench expects for a cropped pair: the prefiltered pair and the matcher's results on it. */
  ghost function ExpectedFrames(ilc: Image, irc: Image, sobel: bool, cfg: TbConfig): (f: Frames)
    requires |irc| == |ilc| && Rect(ilc, Cols(ilc)) && Rect(irc, Cols(ilc)) && Rect(ilc, cfg.width) && Supported(TbParams(cfg))
    requires sobel ==> Filterable(ilc) && Filterable(irc)
    ensures Framed(f, cfg.width)
  {
    var p := TbParams(cfg);
    var ilf, irf := Prefiltered(ilc, sobel, cfg), Prefiltered(irc, sobel, cfg);
    Frames(ilc, irc, ilf, irf, DispImage(ilf, irf, p), ValidImage(ilf, p), FilteredImage(ilf, irf, p))
  }

  /** What run_test_cv demands: equal images at least IMG_WIDTH x IMG_HEIGHT, whole groups of MULT_R rows. */
  ghost predicate TbInputs(il: Image, ir: Image, cfg: TbConfig, sobel: bool)
  {
    && Rect(il, Cols(il)) && |ir| == |il| && Rect(ir, Cols(il))
    && cfg.width <= Cols(il) && cfg.height <= |il|
    && cfg.multR >= 1 && cfg.height % cfg.multR == 0
    && Supported(TbParams(cfg))
    && (cfg.height == 0 || cfg.height >= 10)
    && (sobel && cfg.height != 0 ==> cfg.width >= 1)
  }

  /** The number of records: IMG_HEIGHT/MULT_R groups of rows, IMG_WIDTH columns each. */
  function Records(cfg: TbConfig): nat
    requires cfg.multR >= 1
  {
    (cfg.height / cfg.multR) * cfg.width
  }

  /**
   * One column of one group of rows: the inner loop over the MULT_R rows,
   * which also ORs the valid flags together into disp_valid_any.
   */
  method Pack(f: Frames, cfg: TbConfig, yr: nat, x: nat) returns (inRec: InRec, chk: OutRec)
    requires Framed(f, cfg.width) && yr + cfg.multR <= |f.ilc| && x < cfg.width
    ensures inRec == InOf(LanesAt(f, cfg, yr, x))
    ensures chk == OutOf(LanesAt(f, cfg, yr, x), cfg, yr, x)
  {
    var m := cfg.multR;
    var lanes: seq<Lane> := [];
    var any := false;
    var i := 0;
    while i < m
      invariant 0 <= i <= m && |lanes| == i
      invariant forall k :: 0 <= k < i ==> lanes[k] == LaneAt(f, cfg.width, yr + k, x)
      invariant any <==> exists k :: 0 <= k < i && lanes[k].valid
    {
      var lane := LaneAt(f, cfg.width, yr + i, x);
      ghost var before := lanes;
      lanes := lanes + [lane];
      assert lanes[i] == lane && lanes[..i] == before;
      if lane.valid {
        any := true;
      }
      i := i + 1;
    }
    assert lanes == LanesAt(f, cfg, yr, x);
    inRec := InOf(lanes);
    chk := OutOf(lanes, cfg, yr, x).(dispValidAny := any);
  }

  /**
   * dlsc_stereobm_run_test_cv: crop to the top-left IMG_WIDTH x IMG_HEIGHT,
   * prefilter when asked to, run the matcher, and append one input and one
   * output record per column of every group of MULT_R rows, in raster
   * order: record k covers rows (k / IMG_WIDTH) * MULT_R onward at column
   * k % IMG_WIDTH.
   */
  method RunTestCv(il: Image, ir: Image, cfg: TbConfig, sobel: bool, inVals: seq<InRec>, outVals: seq<OutRec>)
    returns (ins: seq<InRec>, outs: seq<OutRec>)
    requires TbInputs(il, ir, cfg, sobel)
    ensures |ins| == |inVals| + Records(cfg) && |outs| == |outVals| + Records(cfg)
    ensures ins[..|inVals|] == inVals && outs[..|outVals|] == outVals
    ensures forall k :: 0 <= k < Records(cfg) ==>
              ins[|inVals| + k] == RecordAt(il, ir, sobel, cfg, k).0 && outs[|outVals| + k] == RecordAt(il, ir, sobel, cfg, k).1
  {
    var f := Prepare(il, ir, cfg, sobel);
    ins, outs := EmitRecords(f, cfg, inVals, outVals);
    RunRecsAt(f, cfg, cfg.height / cfg.multR);
  }

  /**
   * The loops of run_test_cv over the groups of MULT_R rows and, within
   * each, over the columns: the records of every group, appended in order.
   */
  method EmitRecords(f: Frames, cfg: TbConfig, inVals: seq<InRec>, outVals: seq<OutRec>)
    returns (ins: seq<InRec>, outs: seq<OutRec>)
    requires Framed(f, cfg.width) && |f.ilc| == cfg.height && cfg.multR >= 1 && cfg.height % cfg.multR == 0
    ensures (cfg.height / cfg.multR) * cfg.multR == cfg.height
    ensures ins == inVals + InsOf(RunRecs(f, cfg, cfg.height / cfg.multR))
    ensures outs == outVals + OutsOf(RunRecs(f, cfg, cfg.height / cfg.multR))
  {
    var H, m := cfg.height, cfg.multR;
    ins, outs := inVals, outVals;
    var yr := 0;
    ghost var j := 0;
    while yr < H
      invariant yr == j * m && yr <= H
      invariant ins == inVals + InsOf(RunRecs(f, cfg, j)) && outs == outVals + OutsOf(RunRecs(f, cfg, j))
      decreases H - yr
    {
      GroupFits(H, m, j);
      EmitStep(f, cfg, inVals, outVals, ins, outs, j);
      ins, outs := PackRow(f, cfg, yr, ins, outs);
      yr := yr + m;
      j := j + 1;
    }
    DivModUnique(H, m, j, 0);
  }

  /**
   * Record k of a run: the records of the group of MULT_R rows from
   * (k / IMG_WIDTH) * MULT_R at column k % IMG_WIDTH of the expected images.
   */
  ghost function RecordAt(il: Image, ir: Image, sobel: bool, cfg: TbConfig, k: nat): (InRec, OutRec)
    requires TbInputs(il, ir, cfg, sobel) && k < Records(cfg)
  {
    TopLeftReady(il, ir, cfg, sobel);
    RecOf(ExpectedFrames(TopLeft(il, cfg.width, cfg.height), TopLeft(ir, cfg.width, cfg.height), sobel, cfg), cfg, k)
  }

  /** Record k lies within the frame: its group of rows ends by IMG_HEIGHT. */
  lemma RecordRows(H: nat, m: nat, W: nat, k: nat)
    requires m >= 1 && H % m == 0 && k < (H / m) * W
    ensures W > 0 && 0 <= k / W < H / m && 0 <= (k / W) * m && (k / W) * m + m <= H
  {
    var q := H / m;
    assert W > 0;
    var j, r := k / W, k % W;
    assert k == j * W + r && 0 <= r;
    if j >= q {
      MulMonotone(q, j, W);
    }
    assert j * m < H by {
      MulMonotone(j + 1, q, m);
      assert H == q * m;
    }
    GroupFits(H, m, j);
  }

  /**
   * The first half of run_test_cv: the top-left crop, the prefilter when it
   * is used, and the matcher's results on the prefiltered pair.
   */
  method Prepare(il: Image, ir: Image, cfg: TbConfig, sobel: bool) returns (f: Frames)
    requires TbInputs(il, ir, cfg, sobel)
    ensures CropReady(il, ir, cfg, sobel)
    ensures f == ExpectedFrames(TopLeft(il, cfg.width, cfg.height), TopLeft(ir, cfg.width, cfg.height), sobel, cfg)
    ensures Framed(f, cfg.width) && |f.ilc| == cfg.height
  {
    var W, H := cfg.width, cfg.height;
    TopLeftReady(il, ir, cfg, sobel);
    var ilc, irc := il, ir;
    if Cols(il) != W || |il| != H {
      ilc, irc := TopLeft(il, W, H), TopLeft(ir, W, H);
    } else {
      TopLeftWhole(il);
      TopLeftWhole(ir);
    }
    var ilf, irf := ilc, irc;
    if sobel {
      ilf := TbXSobel(ilc, cfg);
      irf := TbXSobel(irc, cfg);
    }
    assert ilf == Prefiltered(ilc, sobel, cfg) && irf == Prefiltered(irc, sobel, cfg);
    assert H == 0 || Cols(ilf) == W;
    var id, valid, filtered := TbStereobm(ilf, irf, cfg);
    ResultImages(ilf, irf, TbParams(cfg), id, valid, filtered);
    f := Frames(ilc, irc, ilf, irf, id, valid, filtered);
  }

  /** The cropped pair meets what the expected images need. */
  ghost predicate CropReady(il: Image, ir: Image, cfg: TbConfig, sobel: bool)
    requires TbInputs(il, ir, cfg, sobel)
  {
    var ilc, irc := TopLeft(il, cfg.width, cfg.height), TopLeft(ir, cfg.width, cfg.height);
    && Rect(ilc, Cols(ilc)) && Rect(irc, Cols(ilc)) && Rect(ilc, cfg.width)
    && (sobel ==> Filterable(ilc) && Filterable(irc))
  }

  /**
   * Record k of a run over the images f: the input and output records of
   * the group of MULT_R rows from (k / IMG_WIDTH) * MULT_R at column
   * k % IMG_WIDTH.
   */
  ghost function RecOf(f: Frames, cfg: TbConfig, k: nat): (InRec, OutRec)
    requires Framed(f, cfg.width) && |f.ilc| == cfg.height && cfg.multR >= 1 && cfg.height % cfg.multR == 0
    requires k < Records(cfg)
  {
    var W, m := cfg.width, cfg.multR;
    RecordRows(cfg.height, m, W, k);
    var ls := LanesAt(f, cfg, (k / W) * m, k % W);
    (InOf(ls), OutOf(ls, cfg, (k / W) * m, k % W))
  }

  /** Column x of group j of rows is record j * IMG_WIDTH + x. */
  lemma RecOfRow(f: Frames, cfg: TbConfig, j: nat, x: nat)
    requires Framed(f, cfg.width) && |f.ilc| == cfg.height && cfg.multR >= 1 && cfg.height % cfg.multR == 0
    requires j * cfg.multR + cfg.multR <= cfg.height && x < cfg.width
    ensures j * cfg.width + x < Records(cfg)
    ensures RecOf(f, cfg, j * cfg.width + x)
            == (InOf(LanesAt(f, cfg, j * cfg.multR, x)), OutOf(LanesAt(f, cfg, j * cfg.multR, x), cfg, j * cfg.multR, x))
  {
    var W, m := cfg.width, cfg.multR;
    var q := cfg.height / m;
    assert cfg.height == q * m;
    if j + 1 > q {
      MulMonotone(q, j + 1, m);
    }
    MulMonotone(j + 1, q, W);
    DivModUnique(j * W + x, W, j, x);
  }

  /** The records of the group of MULT_R rows from yr, one per column. */
  ghost function RowRecs(f: Frames, cfg: TbConfig, yr: nat): (rs: seq<(InRec, OutRec)>)
    requires Framed(f, cfg.width) && yr + cfg.multR <= |f.ilc|
    ensures |rs| == cfg.width
  {
    seq(cfg.width, x requires 0 <= x < cfg.width =>
      (InOf(LanesAt(f, cfg, yr, x)), OutOf(LanesAt(f, cfg, yr, x), cfg, yr, x)))
  }

  /** The records of the first j groups of rows, in raster order. */
  ghost function RunRecs(f: Frames, cfg: TbConfig, j: nat): (rs: seq<(InRec, OutRec)>)
    requires Framed(f, cfg.width) && j * cfg.multR <= |f.ilc|
  {
    if j == 0 then []
    else
      assert (j - 1) * cfg.multR + cfg.multR == j * cfg.multR;
      RunRecs(f, cfg, j - 1) + RowRecs(f, cfg, (j - 1) * cfg.multR)
  }

  function InsOf(rs: seq<(InRec, OutRec)>): (ins: seq<InRec>)
  {
    seq(|rs|, i requires 0 <= i < |rs| => rs[i].0)
  }

  function OutsOf(rs: seq<(InRec, OutRec)>): (outs: seq<OutRec>)
  {
    seq(|rs|, i requires 0 <= i < |rs| => rs[i].1)
  }

  /** Streams holding the records of j groups, extended by group j, hold those of j + 1. */
  lemma EmitStep(f: Frames, cfg: TbConfig, inVals: seq<InRec>, outVals: seq<OutRec>,
                 ins: seq<InRec>, outs: seq<OutRec>, j: nat)
    requires Framed(f, cfg.width) && j * cfg.multR + cfg.multR <= |f.ilc|
    requires ins == inVals + InsOf(RunRecs(f, cfg, j)) && outs == outVals + OutsOf(RunRecs(f, cfg, j))
    ensures (j + 1) * cfg.multR <= |f.ilc|
    ensures ins + InsOf(RowRecs(f, cfg, j * cfg.multR)) == inVals + InsOf(RunRecs(f, cfg, j + 1))
    ensures outs + OutsOf(RowRecs(f, cfg, j * cfg.multR)) == outVals + OutsOf(RunRecs(f, cfg, j + 1))
  {
    RunRecsStep(f, cfg, j);
  }

  /** One more group of rows appends its row of records to both streams. */
  lemma RunRecsStep(f: Frames, cfg: TbConfig, j: nat)
    requires Framed(f, cfg.width) && j * cfg.multR + cfg.multR <= |f.ilc|
    ensures (j + 1) * cfg.multR <= |f.ilc|
    ensures InsOf(RunRecs(f, cfg, j + 1)) == InsOf(RunRecs(f, cfg, j)) + InsOf(RowRecs(f, cfg, j * cfg.multR))
    ensures OutsOf(RunRecs(f, cfg, j + 1)) == OutsOf(RunRecs(f, cfg, j)) + OutsOf(RowRecs(f, cfg, j * cfg.multR))
  {
    assert (j + 1) * cfg.multR == j * cfg.multR + cfg.multR;
    assert RunRecs(f, cfg, j + 1) == RunRecs(f, cfg, j) + RowRecs(f, cfg, j * cfg.multR);
  }

  /**
   * The records of the first j groups of rows are j * IMG_WIDTH records,
   * and record k among them is RecOf(f, cfg, k).
   */
  lemma {:induction false} RunRecsAt(f: Frames, cfg: TbConfig, j: nat)
    requires Framed(f, cfg.width) && |f.ilc| == cfg.height && cfg.multR >= 1 && cfg.height % cfg.multR == 0
    requires j * cfg.multR <= cfg.height
    ensures |RunRecs(f, cfg, j)| == j * cfg.width && j * cfg.width <= Records(cfg)
    ensures forall k :: 0 <= k < j * cfg.width ==> RunRecs(f, cfg, j)[k] == RecOf(f, cfg, k)
  {
    var W, m := cfg.width, cfg.multR;
    if j == 0 {
      assert j * W == 0;
    } else {
      assert (j - 1) * m + m == j * m;
      RunRecsAt(f, cfg, j - 1);
      var n := (j - 1) * W;
      assert j * W == n + W;
      var rs := RunRecs(f, cfg, j);
      assert rs == RunRecs(f, cfg, j - 1) + RowRecs(f, cfg, (j - 1) * m);
      if W > 0 {
        RecOfRow(f, cfg, j - 1, W - 1);
      } else {
        assert j * W == 0;
      }
      forall k | 0 <= k < n + W
        ensures rs[k] == RecOf(f, cfg, k)
      {
        if n <= k {
          RecOfRow(f, cfg, j - 1, k - n);
        }
      }
    }
  }

  /** The top-left crop of images that pass the entry check is ready for the prefilter and the matcher. */
  lemma TopLeftReady(il: Image, ir: Image, cfg: TbConfig, sobel: bool)
    requires TbInputs(il, ir, cfg, sobel)
    ensures CropReady(il, ir, cfg, sobel)
  {
  }

  /** Another group of MULT_R rows starts below IMG_HEIGHT only if it ends there too. */
  lemma GroupFits(H: nat, m: nat, j: nat)
    requires m >= 1 && H % m == 0 && j * m < H
    ensures j * m + m <= H && j + 1 <= H / m
  {
    var q := H / m;
    assert H == q * m;
    if j >= q {
      MulMonotone(q, j, m);
    }
    MulMonotone(j + 1, q, m);
  }

  /** Cropping an image to its own size changes nothing. */
  lemma TopLeftWhole(img: Image)
    requires Rect(img, Cols(img))
    ensures TopLeft(img, Cols(img), |img|) == img
  {
    var c := TopLeft(img, Cols(img), |img|);
    assert forall r :: 0 <= r < |img| ==> c[r] == img[r];
  }

  /** The loop over the columns of one group of rows. */
  method PackRow(f: Frames, cfg: TbConfig, yr: nat, ins: seq<InRec>, outs: seq<OutRec>)
    returns (ins': seq<InRec>, outs': seq<OutRec>)
    requires Framed(f, cfg.width) && yr + cfg.multR <= |f.ilc|
    ensures |ins'| == |ins| + cfg.width && |outs'| == |outs| + cfg.width
    ensures ins'[..|ins|] == ins && outs'[..|outs|] == outs
    ensures ins' == ins + InsOf(RowRecs(f, cfg, yr)) && outs' == outs + OutsOf(RowRecs(f, cfg, yr))
  {
    ins', outs' := ins, outs;
    var x := 0;
    while x < cfg.width
      invariant 0 <= x <= cfg.width
      invariant |ins'| == |ins| + x && |outs'| == |outs| + x
      invariant ins'[..|ins|] == ins && outs'[..|outs|] == outs
      invariant forall i :: 0 <= i < x ==>
                  && ins'[|ins| + i] == InOf(LanesAt(f, cfg, yr, i))
                  && outs'[|outs| + i] == OutOf(LanesAt(f, cfg, yr, i), cfg, yr, i)
    {
      var inRec, chk := Pack(f, cfg, yr, x);
      outs' := outs' + [chk];
      ins' := ins' + [inRec];
      x := x + 1;
    }
    assert ins'[|ins|..] == InsOf(RowRecs(f, cfg, yr)) && outs'[|outs|..] == OutsOf(RowRecs(f, cfg, yr));
    assert ins' == ins'[..|ins|] + ins'[|ins|..] && outs' == outs'[..|outs|] + outs'[|outs|..];
  }

  /**
   * Where record k sits: column k % IMG_WIDTH of the group of rows from
   * (k / IMG_WIDTH) * MULT_R, first in its row exactly at column 0, last
   * exactly at column IMG_WIDTH-1, first in the frame exactly for k == 0
   * and last exactly for the final record.
   */
  lemma RecordPlace(f: Frames, cfg: TbConfig, k: nat)
    requires Framed(f, cfg.width) && |f.ilc| == cfg.height && cfg.multR >= 1 && cfg.height % cfg.multR == 0
    requires k < Records(cfg)
    ensures var o := RecOf(f, cfg, k).1;
            && o.x == k % cfg.width && o.y == (k / cfg.width) * cfg.multR
            && 0 <= o.x < cfg.width && 0 <= o.y && o.y + cfg.multR <= cfg.height
            && (o.rowFirst <==> o.x == 0) && (o.rowLast <==> o.x == cfg.width - 1)
            && (o.frameFirst <==> k == 0)
            && (o.frameLast <==> k == Records(cfg) - 1)
  {
    var W, m := cfg.width, cfg.multR;
    RecordIndex(cfg.height, m, W, k);
    var yr, x := (k / W) * m, k % W;
    var ls := LanesAt(f, cfg, yr, x);
    assert RecOf(f, cfg, k).1 == OutOf(ls, cfg, yr, x);
    OutOfPlace(ls, cfg, yr, x);
  }

  /** The place fields of a record: its column and first row, and the four edge flags. */
  lemma OutOfPlace(ls: seq<Lane>, cfg: TbConfig, yr: nat, x: nat)
    ensures var o := OutOf(ls, cfg, yr, x);
            && o.x == x && o.y == yr
            && (o.rowFirst <==> x == 0) && (o.rowLast <==> x == cfg.width - 1)
            && (o.frameFirst <==> x == 0 && yr == 0)
            && (o.frameLast <==> x == cfg.width - 1 && yr == cfg.height - cfg.multR)
  {
  }

  /** The arithmetic behind RecordPlace. */
  lemma RecordIndex(H: nat, m: nat, W: nat, k: nat)
    requires m >= 1 && H % m == 0 && k < (H / m) * W
    ensures W > 0 && k % W < W && 0 <= (k / W) * m && (k / W) * m + m <= H
    ensures k % W == 0 && (k / W) * m == 0 <==> k == 0
    ensures k % W == W - 1 && (k / W) * m == H - m <==> k == (H / m) * W - 1
  {
    RecordRows(H, m, W, k);
    var Q := H / m;
    assert H == Q * m;
    var q, x := k / W, k % W;
    assert k == q * W + x;
    assert q * m == 0 <==> q == 0;
    assert Q >= 1;
    assert H - m == (Q - 1) * m;
    if q * m == (Q - 1) * m {
      if q < Q - 1 {
        MulMonotone(q + 1, Q - 1, m);
      }
    }
    assert Q * W - 1 == (Q - 1) * W + (W - 1);
    if k == Q * W - 1 {
      DivModUnique(k, W, Q - 1, W - 1);
    }
  }

  /**
   * Records come out in raster order of their groups of rows: a later
   * record lies in a later group of rows, or in the same one further right.
   */
  lemma RasterOrder(f: Frames, cfg: TbConfig, k1: nat, k2: nat)
    requires Framed(f, cfg.width) && |f.ilc| == cfg.height && cfg.multR >= 1 && cfg.height % cfg.multR == 0
    requires k1 < k2 < Records(cfg)
    ensures var o1, o2 := RecOf(f, cfg, k1).1, RecOf(f, cfg, k2).1;
            o1.y < o2.y || (o1.y == o2.y && o1.x < o2.x)
  {
    RecordPlace(f, cfg, k1);
    RecordPlace(f, cfg, k2);
    RasterIndex(cfg.width, cfg.multR, k1, k2);
  }

  /** The arithmetic behind RasterOrder. */
  lemma RasterIndex(W: nat, m: nat, k1: nat, k2: nat)
    requires W > 0 && m >= 1 && k1 < k2
    ensures (k1 / W) * m < (k2 / W) * m || (k1 / W == k2 / W && k1 % W < k2 % W)
  {
    var q1, q2 := k1 / W, k2 / W;
    assert k1 == q1 * W + k1 % W && k2 == q2 * W + k2 % W;
    if q1 > q2 {
      MulMonotone(q2 + 1, q1, W);
    } else if q1 < q2 {
      MulMonotone(q1 + 1, q2, m);
    }
  }

  /**
   * disp_valid_any of the output record of rows yr .. yr+MULT_R-1 at
   * column x is set exactly when the valid flag of one of those rows is.
   */
  lemma ValidAnyLanes(f: Frames, cfg: TbConfig, yr: nat, x: nat)
    requires Framed(f, cfg.width) && yr + cfg.multR <= |f.ilc| && x < cfg.width
    ensures OutOf(LanesAt(f, cfg, yr, x), cfg, yr, x).dispValidAny
            <==> exists r :: yr <= r < yr + cfg.multR && f.valid[r][x] != 0
  {
    var ls := LanesAt(f, cfg, yr, x);
    if exists r :: yr <= r < yr + cfg.multR && f.valid[r][x] != 0 {
      var r :| yr <= r < yr + cfg.multR && f.valid[r][x] != 0;
      assert ls[r - yr] == LaneAt(f, cfg.width, r, x);
    }
    if exists i :: 0 <= i < |ls| && ls[i].valid {
      var i :| 0 <= i < |ls| && ls[i].valid;
      assert ls[i] == LaneAt(f, cfg.width, yr + i, x);
    }
  }

  /**
   * disp_valid_any of a record is set exactly when its column is
   * post-processed and at least one of its MULT_R rows is complete.
   */
  lemma ValidAnyMeaning(il: Image, ir: Image, sobel: bool, cfg: TbConfig, k: nat)
    requires TbInputs(il, ir, cfg, sobel) && k < Records(cfg)
    ensures var o := RecordAt(il, ir, sobel, cfg, k).1;
            var p := TbParams(cfg);
            o.dispValidAny <==>
              ColValid(o.x, cfg.width, p) && exists r :: o.y <= r < o.y + cfg.multR && RowDone(r, cfg.height, p.sadWindow)
  {
    TopLeftReady(il, ir, cfg, sobel);
    var W, m := cfg.width, cfg.multR;
    var p := TbParams(cfg);
    var ef := ExpectedFrames(TopLeft(il, W, cfg.height), TopLeft(ir, W, cfg.height), sobel, cfg);
    RecordRows(cfg.height, m, W, k);
    var y, x := (k / W) * m, k % W;
    ValidAnyLanes(ef, cfg, y, x);
    assert Cols(ef.ilf) == W;
    assert forall r :: y <= r < y + m ==>
             (ef.valid[r][x] != 0 <==> ColValid(x, W, p) && RowDone(r, cfg.height, p.sadWindow));
  }

  /** The records hold n rows each: every per-row field has length n. */
  predicate Holds(inRec: InRec, o: OutRec, n: nat)
  {
    && |inRec.left| == n && |inRec.right| == n
    && |o.disp| == n && |o.dispValid| == n && |o.dispFiltered| == n && |o.left| == n && |o.right| == n
  }

  /** Row i of a pair of records, read back as what the inner loop read. */
  function Unpack(inRec: InRec, o: OutRec, i: nat): Lane
    requires Holds(inRec, o, |inRec.left|) && i < |inRec.left|
  {
    Lane(o.disp[i], o.dispValid[i], o.dispFiltered[i], o.left[i], o.right[i], inRec.left[i], inRec.right[i])
  }

  /** Packing lanes into records and reading row i back gives lane i. */
  lemma PackUnpack(ls: seq<Lane>, cfg: TbConfig, yr: nat, x: nat, i: nat)
    requires i < |ls|
    ensures Holds(InOf(ls), OutOf(ls, cfg, yr, x), |ls|)
    ensures Unpack(InOf(ls), OutOf(ls, cfg, yr, x), i) == ls[i]
  {
  }

  /**
   * Row i of record k of a run over f is what the inner loop reads at row
   * y + i, column x of the record's place.
   */
  lemma RecordLane(f: Frames, cfg: TbConfig, k: nat, i: nat)
    requires Framed(f, cfg.width) && |f.ilc| == cfg.height && cfg.multR >= 1 && cfg.height % cfg.multR == 0
    requires k < Records(cfg) && i < cfg.multR
    ensures var r := RecOf(f, cfg, k);
            && Holds(r.0, r.1, cfg.multR)
            && 0 <= r.1.y && r.1.y + i < cfg.height && 0 <= r.1.x < cfg.width
            && Unpack(r.0, r.1, i) == LaneAt(f, cfg.width, r.1.y + i, r.1.x)
  {
    RecordPlace(f, cfg, k);
    var W, m := cfg.width, cfg.multR;
    RecordRows(cfg.height, m, W, k);
    var y, x := (k / W) * m, k % W;
    var ls := LanesAt(f, cfg, y, x);
    PackUnpack(ls, cfg, y, x, i);
  }

  /**
   * What the inner loop reads from the expected images at row y, column x:
   * the matcher's results on the prefiltered pair (the disparity read as
   * an unsigned 32-bit value, the flags as booleans), the prefiltered
   * pixels, and the pixels of the original images.
   */
  lemma ExpectedLane(il: Image, ir: Image, sobel: bool, cfg: TbConfig, y: nat, x: nat)
    requires TbInputs(il, ir, cfg, sobel) && y < cfg.height && x < cfg.width
    ensures TbInputs(il, ir, cfg, sobel) && CropReady(il, ir, cfg, sobel)
    ensures var ilf := Prefiltered(TopLeft(il, cfg.width, cfg.height), sobel, cfg);
            var irf := Prefiltered(TopLeft(ir, cfg.width, cfg.height), sobel, cfg);
            var p := TbParams(cfg);
            var ef := ExpectedFrames(TopLeft(il, cfg.width, cfg.height), TopLeft(ir, cfg.width, cfg.height), sobel, cfg);
            && Cols(ilf) == cfg.width && |ilf| == cfg.height
            && LaneAt(ef, cfg.width, y, x)
               == Lane(ExpectedDisp(ilf, irf, p, y, x) % UINT32_LIMIT,
                       ExpectedValid(ilf, p, y, x) != 0,
                       ExpectedFiltered(ilf, irf, p, y, x) != 0,
                       ilf[y][x], irf[y][x], il[y][x], ir[y][x])
            && (!sobel ==> ilf[y][x] == il[y][x] && irf[y][x] == ir[y][x])
  {
    TopLeftReady(il, ir, cfg, sobel);
  }
}
