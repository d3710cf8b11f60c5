/**
 * The per-column bookkeeping of the block matcher (dlsc_stereobm). The
 * disparities of one output row are visited in increasing order, and for
 * each column the matcher keeps six numbers: the best disparity so far
 * (`disps`), its window cost (`sads`), the smallest cost outside the best
 * one's exclusion window (`sads_thresh`), the cost at the previous
 * disparity (`sads_prev`), and the costs on either side of the best one
 * (`sads_lo`, `sads_hi`). The six per-column arrays are one array of
 * `ColState` records here.
 *
 * `Step` is one update exactly as written; `Scan` folds it over the costs
 * of disparities 0, 1, 2, ...; the lemmas say what the fold computes.
 */
module StereoSelect {

  /** INT_MAX/256 with a 32-bit int: the starting value of every cost slot. */
  const INIT: int := 0x7FFF_FFFF / 256

  /** disps[x], sads[x], sads_thresh[x], sads_prev[x], sads_lo[x], sads_hi[x]. */
  datatype ColState = ColState(disp: int, sad: int, thresh: int, prev: int, lo: int, hi: int)

  /** The state every column starts each output row with. */
  const START := ColState(0, INIT, INIT, INIT, INIT, INIT)

  /**
   * One column's update for disparity `d` with window cost `accum`: a cost
   * no larger than the best so far becomes the best (so ties go to the
   * higher disparity), the threshold is kept as the smallest cost away from
   * the best, and the costs beside the best are captured.
   */
  function Step(st: ColState, d: int, accum: int): ColState
  {
    var s1 :=
      if accum <= st.sad then
        var th := if st.disp != d - 1 then st.sad
                  else if st.lo < st.thresh then st.lo else st.thresh;
        st.(thresh := th, disp := d, sad := accum)
      else if accum < st.thresh && st.disp != d - 1 then st.(thresh := accum)
      else st;
    var s2 := if s1.disp == d then s1.(lo := s1.prev) else s1;
    var s3 := if s2.disp == d - 1 then s2.(hi := accum) else s2;
    s3.(prev := accum)
  }

  /** The state of a column once disparities 0 .. |costs|-1 have been visited, costs[d] being the cost at d. */
  function Scan(costs: seq<int>): ColState
    decreases |costs|
  {
    if costs == [] then START
    else Step(Scan(costs[..|costs| - 1]), |costs| - 1, costs[|costs| - 1])
  }

  /** Disparity j is outside the exclusion window best-1 .. best+1. */
  predicate Outside(j: int, best: int)
  {
    j < best - 1 || j > best + 1
  }

  /**
   * `disp` is the highest disparity reaching the smallest cost `sad`, when
   * some cost is at most INIT; when every cost exceeds INIT, nothing is
   * chosen and the slot keeps disparity 0 and cost INIT.
   */
  ghost predicate IsBest(costs: seq<int>, disp: int, sad: int)
  {
    && sad <= INIT
    && (forall j :: 0 <= j < |costs| ==> sad <= costs[j])
    && (forall j :: 0 <= j < |costs| && disp < j ==> sad < costs[j])
    && ((0 <= disp < |costs| && costs[disp] == sad)
        || (disp == 0 && sad == INIT && forall j :: 0 <= j < |costs| ==> INIT < costs[j]))
  }

  /** `thresh` is the smallest of INIT and the costs outside the exclusion window around `best`. */
  ghost predicate IsThresh(costs: seq<int>, best: int, thresh: int)
  {
    && thresh <= INIT
    && (forall j :: 0 <= j < |costs| && Outside(j, best) ==> thresh <= costs[j])
    && (thresh == INIT || exists j :: 0 <= j < |costs| && Outside(j, best) && costs[j] == thresh)
  }

  /** Visiting one more disparity is one more step of the fold. */
  lemma ScanSnoc(costs: seq<int>, accum: int)
    ensures Scan(costs + [accum]) == Step(Scan(costs), |costs|, accum)
  {
    assert (costs + [accum])[..|costs|] == costs;
  }

  /** The fold keeps the best disparity: the smallest cost, ties to the higher disparity. */
  lemma {:induction false} ScanBest(costs: seq<int>)
    ensures IsBest(costs, Scan(costs).disp, Scan(costs).sad)
    decreases |costs|
  {
    if costs != [] {
      var n := |costs| - 1;
      var pre := costs[..n];
      ScanBest(pre);
      assert forall j :: 0 <= j < n ==> pre[j] == costs[j];
    }
  }

  /**
   * The fold keeps the cost at the last disparity visited, the cost just
   * below the best disparity (INIT for disparity 0), and, once visited,
   * the cost just above it.
   */
  lemma {:induction false} ScanNeighbours(costs: seq<int>)
    ensures var st := Scan(costs);
            && st.prev == (if costs == [] then INIT else costs[|costs| - 1])
            && 0 <= st.disp && (costs != [] ==> st.disp < |costs|)
            && st.lo == (if st.disp == 0 then INIT else costs[st.disp - 1])
            && (st.disp + 1 < |costs| ==> st.hi == costs[st.disp + 1])
    decreases |costs|
  {
    if costs != [] {
      var n := |costs| - 1;
      var pre := costs[..n];
      ScanNeighbours(pre);
      ScanBest(pre);
      assert forall j :: 0 <= j < n ==> pre[j] == costs[j];
      StepNeighbours(Scan(pre), n, costs[n]);
    }
  }

  /** One step either keeps the best disparity or moves it to d, and tracks the costs around it. */
  lemma StepNeighbours(st: ColState, d: int, accum: int)
    ensures var r := Step(st, d, accum);
            && r.prev == accum
            && (r.disp == d || r.disp == st.disp)
            && (r.disp == d ==> r.lo == st.prev)
            && (r.disp != d ==> r.lo == st.lo)
            && (r.disp == d - 1 ==> r.hi == accum)
            && (r.disp != d - 1 ==> r.hi == st.hi)
  {
  }

  /** The fold keeps the smallest cost outside the best disparity's exclusion window. */
  lemma {:induction false} ScanThresh(costs: seq<int>)
    ensures IsThresh(costs, Scan(costs).disp, Scan(costs).thresh)
    decreases |costs|
  {
    if costs != [] {
      var d := |costs| - 1;
      var pre := costs[..d];
      var st := Scan(pre);
      var accum := costs[d];
      ScanThresh(pre);
      ScanBest(pre);
      ScanNeighbours(pre);
      assert forall j :: 0 <= j < d ==> pre[j] == costs[j];
      var r := Scan(costs);
      assert r == Step(st, d, accum);
      if accum <= st.sad {
        assert r.disp == d;
        if st.disp != d - 1 {
          assert r.thresh == st.sad;
          if st.sad != INIT {
            assert costs[st.disp] == r.thresh && Outside(st.disp, d);
          }
        } else if st.lo < st.thresh {
          assert r.thresh == st.lo;
          if d >= 2 {
            assert costs[d - 2] == r.thresh && Outside(d - 2, d);
          }
        } else {
          assert r.thresh == st.thresh;
          if st.thresh != INIT {
            var w :| 0 <= w < d && Outside(w, st.disp) && pre[w] == st.thresh;
            assert costs[w] == r.thresh && Outside(w, d);
          }
        }
      } else {
        assert r.disp == st.disp;
        if accum < st.thresh && st.disp != d - 1 {
          assert r.thresh == accum && Outside(d, r.disp);
        } else {
          assert r.thresh == st.thresh;
          if st.thresh != INIT {
            var w :| 0 <= w < d && Outside(w, st.disp) && pre[w] == st.thresh;
            assert costs[w] == r.thresh;
          }
        }
      }
    }
  }
}
