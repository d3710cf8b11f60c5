/**
 * The parameters of the block matcher (dlsc_stereobm_params) and the
 * post-processing of one column once every disparity has been visited:
 * the output disparity with its sub-pixel correction, and the uniqueness
 * test. C's integer conversions and operators are written out: the 16-bit
 * `short` store, truncating division, and shifts as multiplication or
 * flooring division by a power of two.
 */
module StereoPost {
  import opened Bits
  import opened StereoSelect
  import opened StereoCost

  datatype Params = Params(
    xsobel: bool,
    disparities: int,
    sadWindow: int,
    texture: int,
    dataMax: int,
    subBits: int,
    subBitsExtra: int,
    uniqueMul: int,
    uniqueDiv: int,
    width: int,
    height: int,
    scale: bool)

  /**
   * What the matcher needs of its parameters: a window of at least one row
   * and column, at least one disparity, shift amounts that are not
   * negative, and a divisor for the uniqueness test when that test is on.
   */
  ghost predicate Supported(p: Params)
  {
    && p.sadWindow >= 1
    && p.disparities >= 1
    && p.subBits >= 0 && p.subBitsExtra >= 0
    && (p.uniqueMul != 0 ==> p.uniqueDiv != 0)
  }

  /** Conversion to a 16-bit `short`: wrap into -32768 .. 32767. */
  function ToShort(v: int): (r: int)
    ensures -0x8000 <= r < 0x8000
    ensures (r - v) % 0x1_0000 == 0
  {
    (v + 0x8000) % 0x1_0000 - 0x8000
  }

  lemma ToShortInRange(v: int)
    requires -0x8000 <= v < 0x8000
    ensures ToShort(v) == v
  {
  }

  /** C's `/` on int: the quotient truncated toward zero. */
  function CDiv(a: int, b: int): (q: int)
    requires b != 0
    ensures a >= 0 && b > 0 ==> q == a / b
    ensures Abs(q) * Abs(b) <= Abs(a) < (Abs(q) + 1) * Abs(b)
  {
    var m := Abs(a) / Abs(b);
    if (a >= 0) == (b > 0) then m else -m
  }

  /**
   * The neighbouring costs of the best disparity are no smaller than its
   * own: what makes the sub-pixel division well defined.
   */
  ghost predicate Bracketed(st: ColState, disparities: int)
  {
    0 <= st.disp && (0 < st.disp < disparities - 1 ==> st.sad <= st.lo && st.sad <= st.hi)
  }

  /**
   * The sub-pixel correction from lo = sads_lo - sads and hi = sads_hi - sads:
   * d = (|lo-hi| << (sub_bits+sub_bits_extra-1)) / max(lo, hi), then a
   * rounding shift right by sub_bits_extra, added toward the cheaper side.
   */
  function SubPixel(lo: int, hi: int, subBits: nat, extra: nat): int
    requires lo >= 0 && hi >= 0 && lo != hi && subBits >= 1
  {
    var t := if lo > hi then lo - hi else hi - lo;
    var b := if lo > hi then lo else hi;
    var d := t * Pow2(subBits + extra - 1) / b;
    var e := Pow2(extra);
    if lo > hi then (d + (e - 1)) / e else ((e - 1) - d) / e
  }

  /** The post-processed output disparity of a column in the valid region. */
  function DispOut(st: ColState, p: Params): int
    requires Supported(p) && Bracketed(st, p.disparities)
  {
    var base := ToShort(st.disp * Pow2(p.subBits));
    var lo := st.lo - st.sad;
    var hi := st.hi - st.sad;
    if p.subBits != 0 && 0 < st.disp < p.disparities - 1 && lo != hi then
      ToShort(base + ToShort(SubPixel(lo, hi, p.subBits, p.subBitsExtra)))
    else base
  }

  /** The uniqueness test: some cost away from the best is within unique_mul/unique_div of it. */
  predicate Ambiguous(st: ColState, p: Params)
    requires p.uniqueDiv != 0
  {
    st.thresh <= CDiv(st.sad * (p.uniqueMul + p.uniqueDiv), p.uniqueDiv)
  }

  /** a / e lies in lo .. hi when a does in lo*e .. hi*e + e-1. */
  lemma FloorDivBetween(a: int, e: int, lo: int, hi: int)
    requires e > 0 && lo * e <= a < hi * e + e
    ensures lo <= a / e <= hi
  {
    var q := a / e;
    assert a == q * e + a % e && 0 <= a % e < e;
    if q < lo {
      MulLe(q + 1, lo, e);
    }
    if q > hi {
      MulLe(hi + 1, q, e);
    }
  }

  lemma MulLe(x: int, y: int, e: int)
    requires x <= y && e >= 0
    ensures x * e <= y * e
  {
  }

  /** t*P/b lies in 0 .. P when 0 <= t <= b. */
  lemma ScaledRatio(t: int, b: int, P: int)
    requires 0 <= t <= b && b > 0 && P >= 1
    ensures 0 <= t * P / b <= P
  {
    assert 0 <= t * P <= b * P;
    FloorDivBetween(t * P, b, 0, P);
  }

  /**
   * The correction moves the disparity by at most half a pixel
   * (2^(sub_bits-1) sub-pixel steps), toward the neighbour with the lower
   * cost: up when sad[d-1] is the larger, down when sad[d+1] is.
   */
  lemma SubPixelBounds(lo: int, hi: int, subBits: nat, extra: nat)
    requires lo >= 0 && hi >= 0 && lo != hi && subBits >= 1
    ensures var r := SubPixel(lo, hi, subBits, extra);
            && (lo > hi ==> 0 <= r <= Pow2(subBits - 1))
            && (lo < hi ==> -(Pow2(subBits - 1) as int) <= r <= 0)
  {
    var t := if lo > hi then lo - hi else hi - lo;
    var b := if lo > hi then lo else hi;
    var P := Pow2(subBits + extra - 1);
    var e := Pow2(extra);
    var h: int := Pow2(subBits - 1);
    Pow2Add(subBits - 1, extra);
    assert P == h * e;
    ScaledRatio(t, b, P);
    var d := t * P / b;
    if lo > hi {
      FloorDivBetween(d + (e - 1), e, 0, h);
    } else {
      FloorDivBetween((e - 1) - d, e, -h, 0);
    }
  }

  /**
   * For a column whose costs were scanned, the uniqueness test fails
   * exactly when INIT or some cost outside the exclusion window of the
   * chosen disparity is within the bound sads*(unique_mul+unique_div)/unique_div.
   */
  lemma AmbiguousMeaning(costs: seq<int>, p: Params)
    requires p.uniqueDiv != 0
    ensures var st := Scan(costs);
            var bound := CDiv(st.sad * (p.uniqueMul + p.uniqueDiv), p.uniqueDiv);
            Ambiguous(st, p) <==>
              (INIT <= bound || exists j :: 0 <= j < |costs| && Outside(j, st.disp) && costs[j] <= bound)
  {
    ScanThresh(costs);
  }

  /** A scanned column satisfies what the sub-pixel division needs. */
  lemma ScanBracketed(costs: seq<int>, disparities: int)
    requires |costs| == disparities
    ensures Bracketed(Scan(costs), disparities)
  {
    ScanBest(costs);
    ScanNeighbours(costs);
  }

  /**
   * The output disparity is the chosen one shifted up by sub_bits, moved
   * by at most half a pixel toward the cheaper neighbour, when the shifted
   * range fits a 16-bit short: unrefined columns get exactly disp << sub_bits.
   */
  lemma DispOutNear(st: ColState, p: Params)
    requires Supported(p) && Bracketed(st, p.disparities)
    requires st.disp < p.disparities && p.disparities * Pow2(p.subBits) <= 0x8000
    ensures var base := st.disp * Pow2(p.subBits);
            var r := DispOut(st, p);
            var lo := st.lo - st.sad;
            var hi := st.hi - st.sad;
            if p.subBits != 0 && 0 < st.disp < p.disparities - 1 && lo != hi then
              && (lo > hi ==> base <= r <= base + Pow2(p.subBits - 1))
              && (lo < hi ==> base - Pow2(p.subBits - 1) <= r <= base)
            else r == base
  {
    var P: int := Pow2(p.subBits);
    MulLe(st.disp + 1, p.disparities, P);
    var lo := st.lo - st.sad;
    var hi := st.hi - st.sad;
    if p.subBits != 0 && 0 < st.disp < p.disparities - 1 && lo != hi {
      DispOutRefined(st, p);
      SubPixelBounds(lo, hi, p.subBits, p.subBitsExtra);
    } else {
      ToShortInRange(st.disp * P);
    }
  }

  /** The refined case of DispOutNear: the correction is added without wrapping. */
  lemma DispOutRefined(st: ColState, p: Params)
    requires Supported(p) && Bracketed(st, p.disparities)
    requires p.subBits != 0 && 0 < st.disp < p.disparities - 1 && st.lo - st.sad != st.hi - st.sad
    requires st.disp * Pow2(p.subBits) + Pow2(p.subBits) <= 0x8000
    ensures var c := SubPixel(st.lo - st.sad, st.hi - st.sad, p.subBits, p.subBitsExtra);
            DispOut(st, p) == st.disp * Pow2(p.subBits) + c
  {
    var s := p.subBits;
    var P: int := Pow2(s);
    var base := st.disp * P;
    ToShortInRange(base);
    var lo := st.lo - st.sad;
    var hi := st.hi - st.sad;
    var h: int := Pow2(s - 1);
    Pow2Add(s - 1, 1);
    MulLe(1, st.disp, P);
    SubPixelBounds(lo, hi, s, p.subBitsExtra);
    var c := SubPixel(lo, hi, s, p.subBitsExtra);
    ShortNear(base, c, h);
    assert DispOut(st, p) == ToShort(base + ToShort(c));
  }

  /** Adding a correction of at most h to a base in h .. 0x7FFF-h needs no wrapping. */
  lemma ShortNear(base: int, c: int, h: int)
    requires h <= base && base + h < 0x8000 && -h <= c <= h
    ensures ToShort(base + ToShort(c)) == base + c
  {
    ToShortInRange(c);
    ToShortInRange(base + c);
  }
}
