/**
 * The invoker of the block matcher (dlsc_stereobm_invoker): it settles the
 * output size (width and height default to the input's), uses the resized
 * pair when a resize is called for, takes the central width x height crop,
 * prefilters both images with the x-Sobel filter when asked to, runs the
 * matcher, and finally clears the filtered flag wherever the valid flag is
 * clear (`filtered &= valid`).
 *
 * The resize itself is floating-point work done by OpenCV: the resized
 * images are parameters, used exactly when the invoker would resize.
 */
module StereoInvoker {
  import opened Bits
  import opened StereoCost
  import opened StereoPost
  import opened StereoXSobel
  import opened StereoBm

  datatype Option<T> = None | Some(value: T)

  /** What the invoker hands back: the two prefiltered inputs and the three result images. */
  datatype Outputs = Outputs(ilf: Image, irf: Image, id: Image, valid: Image, filtered: Image)

  /** The output width: params.width, or the input's when that is not positive. */
  function TargetWidth(p: Params, cols: nat): nat
  {
    if p.width <= 0 then cols else p.width
  }

  /** The output height: params.height, or the input's when that is not positive. */
  function TargetHeight(p: Params, rows: nat): nat
  {
    if p.height <= 0 then rows else p.height
  }

  /** The invoker resizes when asked to or when the input is too small, unless it already has the output size. */
  predicate Rescaled(p: Params, cols: nat, rows: nat, width: nat, height: nat)
  {
    (p.scale || cols < width || rows < height) && (cols != width || rows != height)
  }

  /** The first index of the central crop of `w` out of `n`: n/2 - w/2. */
  function CropOrigin(n: nat, w: nat): int
  {
    n / 2 - w / 2
  }

  /** The height x width sub-image whose top-left pixel is (y, x). */
  function Crop(img: Image, x: int, y: int, width: nat, height: nat): (c: Image)
    requires Rect(img, Cols(img)) && 0 <= x && x + width <= Cols(img) && 0 <= y && y + height <= |img|
    ensures |c| == height && Rect(c, width)
    ensures forall r, k :: 0 <= r < height && 0 <= k < width ==> c[r][k] == img[y + r][x + k]
  {
    seq(height, r requires 0 <= r < height => img[y + r][x .. x + width])
  }

  /** The image the crop is taken from: the resized one when the invoker resizes. */
  function Source(p: Params, img: Image, scaled: Image, width: nat, height: nat): Image
  {
    if Rescaled(p, Cols(img), |img|, width, height) then scaled else img
  }

  /** The central crop fits whenever the image is at least as large as the crop. */
  predicate Fits(img: Image, width: nat, height: nat)
  {
    width <= Cols(img) && height <= |img|
  }

  /** The x-Sobel filter can run on a height x width image. */
  predicate SobelFits(width: nat, height: nat)
  {
    height == 0 || (height >= 2 && width >= 1)
  }

  /** Every pixel is an 8-bit value. */
  ghost predicate Bytes(img: Image)
  {
    forall r, c :: 0 <= r < |img| && 0 <= c < |img[r]| ==> 0 <= img[r][c] < 256
  }

  /**
   * The central crop lies inside the image and is centred: the margins on
   * either side differ by at most one pixel.
   */
  lemma CentralCrop(n: nat, w: nat)
    requires w <= n
    ensures var x := CropOrigin(n, w);
            && 0 <= x && x + w <= n
            && -1 <= (n - (x + w)) - x <= 1
  {
  }

  /** Cropping an image to its own size changes nothing. */
  lemma CropWhole(img: Image)
    requires Rect(img, Cols(img))
    ensures CropOrigin(Cols(img), Cols(img)) == 0 && CropOrigin(|img|, |img|) == 0
    ensures Crop(img, 0, 0, Cols(img), |img|) == img
  {
    var c := Crop(img, 0, 0, Cols(img), |img|);
    assert forall r :: 0 <= r < |img| ==> c[r] == img[r];
  }

  /** Without a resize the crop always fits: the input is then at least the output size. */
  lemma UnscaledFits(p: Params, img: Image)
    requires !Rescaled(p, Cols(img), |img|, TargetWidth(p, Cols(img)), TargetHeight(p, |img|))
    requires !p.scale
    ensures Fits(img, TargetWidth(p, Cols(img)), TargetHeight(p, |img|))
  {
  }

  /**
   * `filtered &= valid` on images whose flags are 0 or 255: the filtered
   * flag survives where valid is set and is cleared where it is not.
   */
  function AndImage(f: Image, v: Image, cols: nat): (m: Image)
    requires |f| == |v| && Rect(f, cols) && Rect(v, cols) && Bytes(f) && Bytes(v)
    ensures |m| == |f| && Rect(m, cols)
    ensures forall r, c :: 0 <= r < |f| && 0 <= c < cols && v[r][c] == 255 ==> m[r][c] == f[r][c]
    ensures forall r, c :: 0 <= r < |f| && 0 <= c < cols && v[r][c] == 0 ==> m[r][c] == 0
  {
    ByteMask();
    seq(|f|, r requires 0 <= r < |f| =>
      seq(cols, c requires 0 <= c < cols => And(f[r][c], v[r][c])))
  }

  /** AND with 255 keeps an 8-bit value. */
  lemma ByteMask()
    ensures forall a: nat {:trigger And(a, 255)} :: a < 256 ==> And(a, 255) == a
  {
    assert Pow2(8) == 256;
    forall a: nat | a < 256
      ensures And(a, 255) == a
    {
      AndLowMask(a, 8);
    }
  }

  /** The flags the matcher writes are 0 or 255. */
  lemma FlagsAreBytes(il: Image, ir: Image, p: Params, valid: Image, filtered: Image)
    requires Rect(il, Cols(il)) && |ir| == |il| && Rect(ir, Cols(il)) && Supported(p)
    requires |valid| == |il| && |filtered| == |il| && Rect(valid, Cols(il)) && Rect(filtered, Cols(il))
    requires forall r, c :: 0 <= r < |il| && 0 <= c < Cols(il) ==>
               valid[r][c] == ExpectedValid(il, p, r, c) && filtered[r][c] == ExpectedFiltered(il, ir, p, r, c)
    ensures Bytes(valid) && Bytes(filtered)
    ensures forall r, c :: 0 <= r < |il| && 0 <= c < Cols(il) ==>
              (valid[r][c] == 0 || valid[r][c] == 255) && (filtered[r][c] == 0 || filtered[r][c] == 255)
  {
  }

  /**
   * The cropped and prefiltered pair of a Fits source image: the central
   * w x h crop, passed through the x-Sobel filter when `sobel` is set.
   */
  function Prepared(img: Image, w: nat, h: nat, sobel: bool, dataMax: int): (f: Image)
    requires Rect(img, Cols(img)) && Fits(img, w, h) && (sobel ==> SobelFits(w, h))
    ensures |f| == h && Rect(f, w) && (h != 0 ==> Cols(f) == w)
  {
    CentralCrop(Cols(img), w);
    CentralCrop(|img|, h);
    var c := Crop(img, CropOrigin(Cols(img), w), CropOrigin(|img|, h), w, h);
    if sobel then SobelImage(c, dataMax) else c
  }

  /**
   * The first half of the invoker: the output size, the resize decision,
   * the central crop and the prefilter. None when the image to crop is
   * smaller than the output size, where OpenCV's range check stops the
   * program.
   */
  method PrepareInputs(il: Image, ir: Image, scaledL: Image, scaledR: Image, p: Params)
    returns (res: Option<(Image, Image)>)
    requires Rect(il, Cols(il)) && |ir| == |il| && Rect(ir, Cols(il))
    requires Rect(scaledL, Cols(scaledL)) && |scaledR| == |scaledL| && Rect(scaledR, Cols(scaledL))
    requires p.xsobel ==> SobelFits(TargetWidth(p, Cols(il)), TargetHeight(p, |il|))
    ensures var w, h := TargetWidth(p, Cols(il)), TargetHeight(p, |il|);
            var sl := Source(p, il, scaledL, w, h);
            var sr := Source(p, ir, scaledR, w, h);
            && (res.Some? <==> Fits(sl, w, h))
            && (res.Some? ==>
                  && Cols(sr) == Cols(sl) && |sr| == |sl|
                  && res.value.0 == Prepared(sl, w, h, p.xsobel, p.dataMax)
                  && res.value.1 == Prepared(sr, w, h, p.xsobel, p.dataMax))
  {
    var w, h := TargetWidth(p, Cols(il)), TargetHeight(p, |il|);
    var sl, sr := il, ir;
    if Rescaled(p, Cols(il), |il|, w, h) {
      sl, sr := scaledL, scaledR;
    }
    if !(w <= Cols(sl) && h <= |sl|) {
      return None;
    }
    var x, y := CropOrigin(Cols(sl), w), CropOrigin(|sl|, h);
    CentralCrop(Cols(sl), w);
    CentralCrop(|sl|, h);
    var cl, cr := sl, sr;
    if Cols(sl) != w || |sl| != h {
      cl, cr := Crop(sl, x, y, w, h), Crop(sr, x, y, w, h);
    } else {
      CropWhole(sl);
      CropWhole(sr);
    }
    var ilf, irf := cl, cr;
    if p.xsobel {
      ilf := XSobel(cl, p.dataMax);
      irf := XSobel(cr, p.dataMax);
    }
    res := Some((ilf, irf));
  }

  /**
   * dlsc_stereobm_invoker. `scaledL`/`scaledR` stand for the resized pair
   * and are used only when the invoker resizes. The filtered flag is
   * cleared wherever the valid flag is.
   */
  method Invoker(il: Image, ir: Image, scaledL: Image, scaledR: Image, p: Params) returns (res: Option<Outputs>)
    requires Rect(il, Cols(il)) && |ir| == |il| && Rect(ir, Cols(il))
    requires Rect(scaledL, Cols(scaledL)) && |scaledR| == |scaledL| && Rect(scaledR, Cols(scaledL))
    requires Supported(p)
    requires p.xsobel ==> SobelFits(TargetWidth(p, Cols(il)), TargetHeight(p, |il|))
    ensures var w, h := TargetWidth(p, Cols(il)), TargetHeight(p, |il|);
            var sl := Source(p, il, scaledL, w, h);
            res.Some? <==> Fits(sl, w, h)
    ensures res.Some? ==>
              var w, h := TargetWidth(p, Cols(il)), TargetHeight(p, |il|);
              var sl := Source(p, il, scaledL, w, h);
              var sr := Source(p, ir, scaledR, w, h);
              var o := res.value;
              && Fits(sl, w, h) && Cols(sr) == Cols(sl) && |sr| == |sl|
              && o.ilf == Prepared(sl, w, h, p.xsobel, p.dataMax)
              && o.irf == Prepared(sr, w, h, p.xsobel, p.dataMax)
              && |o.id| == h && |o.valid| == h && |o.filtered| == h
              && Rect(o.id, w) && Rect(o.valid, w) && Rect(o.filtered, w)
              && (forall r, c :: 0 <= r < h && 0 <= c < w ==>
                    && o.id[r][c] == ExpectedDisp(o.ilf, o.irf, p, r, c)
                    && o.valid[r][c] == ExpectedValid(o.ilf, p, r, c)
                    && o.filtered[r][c] == (if o.valid[r][c] == UCHAR_MAX then ExpectedFiltered(o.ilf, o.irf, p, r, c) else 0)
                    && (o.filtered[r][c] != 0 ==> o.valid[r][c] == UCHAR_MAX))
  {
    var inputs := PrepareInputs(il, ir, scaledL, scaledR, p);
    if inputs.None? {
      return None;
    }
    var (ilf, irf) := inputs.value;
    var id, valid, filtered := Stereobm(ilf, irf, p);
    FlagsAreBytes(ilf, irf, p, valid, filtered);
    filtered := AndImage(filtered, valid, Cols(ilf));
    res := Some(Outputs(ilf, irf, id, valid, filtered));
  }
}
