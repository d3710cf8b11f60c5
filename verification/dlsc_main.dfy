/**
 * Integer helpers and the run-wide bookkeeping of the simulation main program:
 * the power-of-two test, the floor and ceiling base-2 logarithms, the seed
 * counter handed to every random generator, and the PASSED/FAILED verdict.
 */
module DlscMain {
  import opened Bits

  /** dlsc_is_power_of_2 on a uint64: non-zero and clearing the lowest set bit leaves nothing. */
  predicate IsPowerOf2(i: nat)
    requires i < UINT64_LIMIT
  {
    i != 0 && And(i, i - 1) == 0
  }

  /** The floor base-2 logarithm, with 0 for an input of 0 (as dlsc_log2 does). */
  function FloorLog2(i: nat): (r: nat)
    ensures i >= 1 ==> Pow2(r) <= i < Pow2(r + 1)
    ensures i <= 1 ==> r == 0
  {
    if i <= 1 then 0 else 1 + FloorLog2(i / 2)
  }

  /** dlsc_log2: shift right until nothing is left, counting the shifts that left something. */
  method Log2(i: nat) returns (l: nat)
    requires i < UINT64_LIMIT
    ensures l == FloorLog2(i)
    ensures i >= 1 ==> Pow2(l) <= i < Pow2(l + 1)
    ensures i == 0 ==> l == 0
  {
    l := 0;
    var v: nat := i / 2;
    while v != 0
      invariant FloorLog2(i) == l + (if v == 0 then 0 else 1 + FloorLog2(v))
      decreases v
    {
      l := l + 1;
      v := v / 2;
    }
  }

  /** dlsc_clog2, the Verilog $clog2: the least r with 2^r >= i. */
  function Clog2(i: nat): (r: nat)
    requires i < UINT64_LIMIT
    ensures i <= Pow2(r)
    ensures r > 0 ==> Pow2(r - 1) < i
  {
    if i <= 1 then 0 else FloorLog2(i - 1) + 1
  }

  lemma {:induction false} AndSelf(a: nat)
    ensures And(a, a) == a
  {
    if a != 0 {
      AndSelf(a / 2);
    }
  }

  /** The power-of-two test holds exactly of the numbers with a single bit set. */
  lemma {:induction false} IsPowerOf2Exactly(i: nat)
    requires i < UINT64_LIMIT
    ensures IsPowerOf2(i) <==> (i != 0 && Pow2(FloorLog2(i)) == i)
  {
    if i <= 1 {
    } else if i % 2 == 0 {
      var j := i / 2;
      assert (i - 1) / 2 == j - 1 && (i - 1) % 2 == 1;
      assert And(i, i - 1) == 2 * And(j, j - 1);
      assert FloorLog2(i) == 1 + FloorLog2(j);
      assert Pow2(FloorLog2(i)) == 2 * Pow2(FloorLog2(j));
      IsPowerOf2Exactly(j);
    } else {
      var j := i / 2;
      assert (i - 1) / 2 == j && (i - 1) % 2 == 0;
      AndSelf(j);
      assert And(i, i - 1) == 2 * j;
      assert FloorLog2(i) == 1 + FloorLog2(j);
      assert Pow2(FloorLog2(i)) == 2 * Pow2(FloorLog2(j));
    }
  }

  /** Every power of two below 2^64 passes the test. */
  lemma PowersOf2Pass(k: nat)
    requires Pow2(k) < UINT64_LIMIT
    ensures IsPowerOf2(Pow2(k))
  {
    FloorLog2OfPow2(k);
    IsPowerOf2Exactly(Pow2(k));
  }

  lemma {:induction false} FloorLog2OfPow2(k: nat)
    ensures FloorLog2(Pow2(k)) == k
  {
    if k > 0 {
      FloorLog2OfPow2(k - 1);
    }
  }

  /** The static seed counter shared by every random generator. */
  class SeedCounter {
    var seed: nat

    ghost predicate Valid()
      reads this
    {
      seed < UINT32_LIMIT
    }

    /** The counter starts at the configured seed (PARAM_RAND_SEED), or 0 when none is configured. */
    constructor (configured: nat)
      requires configured < UINT32_LIMIT
      ensures Valid() && seed == configured
    {
      seed := configured;
    }

    /** get_seed: pre-increment the 32-bit counter and hand out the new value. */
    method GetSeed() returns (s: nat)
      requires Valid()
      modifies this
      ensures Valid()
      ensures s == (old(seed) + 1) % UINT32_LIMIT && seed == s
    {
      seed := (seed + 1) % UINT32_LIMIT;
      s := seed;
    }
  }

  /** Outcome printed by dlsc_assert_report. */
  datatype Verdict = Failed | Passed(withWarnings: bool)

  /** The report rule: a run fails when an error was seen or no check was evaluated. */
  function AssertReport(errCnt: int, chkCnt: int, warnCnt: int): (v: Verdict)
    ensures v.Failed? <==> (errCnt > 0 || chkCnt == 0)
    ensures v.Passed? ==> (v.withWarnings <==> warnCnt > 0)
  {
    if errCnt > 0 || chkCnt == 0 then Failed else Passed(warnCnt > 0)
  }

  /** What one dlsc_okay, dlsc_error or dlsc_warn records. */
  datatype Check = Okay | Error | Warn

  /** dlsc_assert: an okay when the condition holds, an error when it does not. */
  function Assert(cond: bool): (c: Check)
    ensures c != Warn
    ensures c == Okay <==> cond
  {
    if cond then Okay else Error
  }

  /** The global counters _dlsc_chk_cnt, _dlsc_warn_cnt and _dlsc_err_cnt. */
  datatype Counters = Counters(chk: nat, warn: nat, err: nat)

  /**
   * The counters after a run of checks from zero: an okay counts a check,
   * an error counts a check and an error, a warning counts a warning.
   */
  function Tally(run: seq<Check>): (n: Counters)
    ensures n.err <= n.chk
    ensures n.chk + n.warn == |run|
  {
    if run == [] then Counters(0, 0, 0)
    else
      var n := Tally(run[..|run| - 1]);
      match run[|run| - 1]
      case Okay => n.(chk := n.chk + 1)
      case Error => n.(chk := n.chk + 1, err := n.err + 1)
      case Warn => n.(warn := n.warn + 1)
  }

  /** Each counter is zero exactly when the run holds none of the checks it counts. */
  lemma {:induction false} TallyCounts(run: seq<Check>)
    ensures Tally(run).err == 0 <==> Error !in run
    ensures Tally(run).chk == 0 <==> Okay !in run && Error !in run
    ensures Tally(run).warn == 0 <==> Warn !in run
  {
    if run != [] {
      var init := run[..|run| - 1];
      TallyCounts(init);
      assert run == init + [run[|run| - 1]];
      assert forall c :: c in run <==> c in init || c == run[|run| - 1];
    }
  }

  /**
   * The report of a whole run: it fails exactly when some assertion failed
   * or no assertion was evaluated at all, and a pass carries warnings
   * exactly when a warning was issued.
   */
  lemma ReportOfRun(run: seq<Check>)
    ensures var n := Tally(run);
            AssertReport(n.err, n.chk, n.warn).Failed? <==> Error in run || Okay !in run
    ensures var n := Tally(run);
            AssertReport(n.err, n.chk, n.warn).Passed? ==>
              (AssertReport(n.err, n.chk, n.warn).withWarnings <==> Warn in run)
  {
    TallyCounts(run);
  }

  /** n successive calls to get_seed from a counter at s0 yield s0+1, ..., s0+n (mod 2^32). */
  method DrawSeeds(c: SeedCounter, n: nat) returns (seeds: seq<nat>)
    requires c.Valid()
    modifies c
    ensures c.Valid()
    ensures |seeds| == n
    ensures forall k :: 0 <= k < n ==> seeds[k] == (old(c.seed) + k + 1) % UINT32_LIMIT
    ensures c.seed == (old(c.seed) + n) % UINT32_LIMIT
  {
    seeds := [];
    while |seeds| < n
      invariant c.Valid()
      invariant |seeds| <= n
      invariant forall k :: 0 <= k < |seeds| ==> seeds[k] == (old(c.seed) + k + 1) % UINT32_LIMIT
      invariant c.seed == (old(c.seed) + |seeds|) % UINT32_LIMIT
    {
      var s := c.GetSeed();
      seeds := seeds + [s];
    }
  }
}
