/**
 * The memory tester's bookkeeping: per-word counters of pending reads and
 * writes, an "initialised" flag and the expected value of every word of
 * the region under test, the wrapping scan that finds a run of words a new
 * read or write may use, the launch of a random transaction and the
 * completion that checks and updates the expectations.
 *
 * The tester's rand() draws are parameters; the transactions it hands to
 * the initiator are recorded as Request values.
 */
module TlmMemtest {
  import opened Bits
  import opened Tlm

  /** Bytes per burst-boundary window of the tester. */
  const BURST_BYTES: nat := 4096
  /** Largest value of a uint8 counter before the tester refuses to increment it. */
  const PENDING_LIMIT: nat := 0xFF

  // ---------------------------------------------------------------------------
  // The upper bound of a random burst (find_region).

  /** The unsigned subtraction of the source, modulo 2^32. */
  function SubU32(a: nat, b: nat): (r: nat)
    ensures r < UINT32_LIMIT
    ensures a < UINT32_LIMIT && b <= a ==> r == a - b
  {
    (a - b) % UINT32_LIMIT
  }

  /** The shortest burst the tester aims for: one word, or just over half the maximum. */
  function MinLength(draw: nat, maxLength: nat): (r: nat)
    ensures r >= 1
    ensures maxLength >= 1 ==> r <= maxLength
  {
    if draw % 2 == 1 then 1 else maxLength / 2 + 1
  }

  /** The bound as written: rand() % (max_length - min) + min, with None when the divisor is zero. */
  function MaxLengthAsWritten(draw: nat, min: nat, maxLength: nat): (r: Option<nat>)
    ensures r.None? <==> SubU32(maxLength, min) == 0
  {
    var span := SubU32(maxLength, min);
    if span == 0 then None else Some(draw % span + min)
  }

  /** As written, no draw ever yields a bound of max_length, although the intended range includes it. */
  lemma AsWrittenNeverReachesMax(draw: nat, min: nat, maxLength: nat)
    requires maxLength < UINT32_LIMIT && 1 <= min <= maxLength
    ensures MaxLengthAsWritten(draw, min, maxLength) != Some(maxLength)
  {
  }

  /** As written, a maximum burst of 2 with the "not-small" choice divides by zero. */
  lemma AsWrittenDividesByZero(draw: nat)
    ensures MinLength(0, 2) == 2 && MaxLengthAsWritten(draw, MinLength(0, 2), 2).None?
  {
  }

  /** The intended bound: uniform over [min, max_length]. */
  function MaxLength(draw: nat, min: nat, maxLength: nat): (r: nat)
    requires 1 <= min <= maxLength
    ensures min <= r <= maxLength
  {
    draw % (maxLength - min + 1) + min
  }

  /** Every bound in [min, max_length] is drawn by some draw, max_length included. */
  lemma MaxLengthCovers(min: nat, maxLength: nat, v: nat)
    requires 1 <= min <= v <= maxLength
    ensures MaxLength(v - min, min, maxLength) == v
  {
    DivModUnique(v - min, maxLength - min + 1, 0, v - min);
  }

  // ---------------------------------------------------------------------------
  // Counters.

  /** The counters after open_region: one more pending access on every word of the run. */
  function Opened(s: seq<nat>, index: nat, length: nat): (r: seq<nat>)
    ensures |r| == |s|
  {
    seq(|s|, j requires 0 <= j < |s| => if index <= j < index + length then s[j] + 1 else s[j])
  }

  /** The counters after close_region: one fewer pending access on every word of the run. */
  function Closed(s: seq<nat>, index: nat, length: nat): (r: seq<nat>)
    requires forall j :: index <= j < index + length && j < |s| ==> s[j] > 0
    ensures |r| == |s|
  {
    seq(|s|, j requires 0 <= j < |s| => if index <= j < index + length then s[j] - 1 else s[j])
  }

  /** Closing a run just opened restores every counter. */
  lemma CloseAfterOpen(s: seq<nat>, index: nat, length: nat)
    ensures Closed(Opened(s, index, length), index, length) == s
  {
    var o := Opened(s, index, length);
    assert forall j :: index <= j < index + length && j < |o| ==> o[j] > 0;
    var c := Closed(o, index, length);
    assert forall j :: 0 <= j < |s| ==> c[j] == s[j];
  }

  /** Opening a run whose counters are below 0xFF keeps every counter within a uint8. */
  lemma OpenedStaysByte(s: seq<nat>, index: nat, length: nat)
    requires forall j :: 0 <= j < |s| ==> s[j] <= PENDING_LIMIT
    requires forall j :: index <= j < index + length && j < |s| ==> s[j] < PENDING_LIMIT
    ensures forall j :: 0 <= j < |s| ==> Opened(s, index, length)[j] <= PENDING_LIMIT
  {
  }

  // ---------------------------------------------------------------------------
  // Addresses.

  /** The byte address of word index: base_addr + index*W, a uint64. */
  function WordAddress(baseAddr: nat, index: nat, width: nat): nat
  {
    (baseAddr + index * width) % UINT64_LIMIT
  }

  /** complete recovers the word index from the address: (addr - base_addr)/W, in uint64 arithmetic. */
  function IndexOf(address: nat, baseAddr: nat, width: nat): nat
    requires width >= 1
  {
    ((address - baseAddr) % UINT64_LIMIT) / width
  }

  /** The index complete recovers is the one launched, whatever the base address. */
  lemma IndexRoundTrip(baseAddr: nat, index: nat, width: nat)
    requires 1 <= width <= 8 && index < UINT32_LIMIT
    ensures IndexOf(WordAddress(baseAddr, index, width), baseAddr, width) == index
  {
    var t := index * width;
    assert t < UINT64_LIMIT by {
      MulMonotone(width, 8, index);
    }
    var q := (baseAddr + t) / UINT64_LIMIT;
    assert WordAddress(baseAddr, index, width) - baseAddr == t + (0 - q) * UINT64_LIMIT;
    ModAddMultiple(t, 0 - q, UINT64_LIMIT);
    DivModUnique(t, width, index, 0);
  }

  /** Adding whole multiples of m, positive or negative, does not change a remainder. */
  lemma ModAddMultiple(t: int, q: int, m: int)
    requires m > 0 && 0 <= t < m
    ensures (t + q * m) % m == t
  {
    var x := t + q * m;
    var d, r := x / m, x % m;
    var k := d - q;
    assert k * m == t - r by {
      assert x == d * m + r;
    }
    if k > 0 {
      MulMonotone(1, k, m);
    } else if k < 0 {
      MulMonotone(1, -k, m);
    }
  }

  /** Each value reduced modulo m, as the assignment of a rand() draw to a narrower type does. */
  function Truncated(s: seq<nat>, m: nat): (r: seq<nat>)
    requires m >= 1
    ensures |r| == |s| && forall i :: 0 <= i < |s| ==> r[i] == s[i] % m
  {
    if s == [] then [] else Truncated(s[..|s| - 1], m) + [s[|s| - 1] % m]
  }

  /** n zero statistics counters. */
  function Zeros(n: nat): (r: seq<nat>)
    ensures |r| == n && forall i :: 0 <= i < n ==> r[i] == 0
  {
    if n == 0 then [] else Zeros(n - 1) + [0]
  }

  /** n empty queues of transactions in flight. */
  function NoRequests(n: nat): (r: seq<seq<Request>>)
    ensures |r| == n && forall i :: 0 <= i < n ==> r[i] == []
  {
    if n == 0 then [] else NoRequests(n - 1) + [[]]
  }

  /** The four arrays of init: expected values, then zeroed flags and pending counters. */
  method NewArrays(n: nat) returns (expected: array<nat>, done: array<nat>, readCounts: array<nat>, writeCounts: array<nat>)
    ensures fresh(expected) && fresh(done) && fresh(readCounts) && fresh(writeCounts)
    ensures expected.Length == done.Length == readCounts.Length == writeCounts.Length == n
    ensures expected != done && expected != readCounts && expected != writeCounts
    ensures done != readCounts && done != writeCounts && readCounts != writeCounts
    ensures forall j :: 0 <= j < n ==> done[j] == 0 && readCounts[j] == 0 && writeCounts[j] == 0
  {
    expected := new nat[n];
    done := new nat[n](_ => 0);
    readCounts := new nat[n](_ => 0);
    writeCounts := new nat[n](_ => 0);
  }

  // ---------------------------------------------------------------------------
  // The tester.

  /** One transaction handed to the initiator: its socket, direction, run of words and write data. */
  datatype Request = Request(
    socket: nat,
    read: bool,
    address: nat,
    index: nat,
    length: nat,
    data: seq<nat>,
    /** One strobe word per data word for a strobed write, empty otherwise. */
    strobes: seq<nat>)

  /**
   * has_strobes: the payload keeps its byte enables, which the initiator
   * drops when every lane of every strobe word is enabled.
   */
  predicate HasStrobes(r: Request, width: nat)
  {
    exists i :: 0 <= i < |r.strobes| && r.strobes[i] % Pow2(width) != Pow2(width) - 1
  }

  /** The draws one find_region call makes: the start, the small/large choice and the bound. */
  datatype RegionDraws = RegionDraws(begin: nat, small: nat, bound: nat)

  /** The draws one launch_write makes: the data words, the strobe choice and the strobe words. */
  datatype WriteDraws = WriteDraws(data: seq<nat>, strobeChoice: nat, strobes: seq<nat>)

  class MemTest {
    /** Bytes per word (sizeof(DATATYPE)) and the longest burst in words. */
    const width: nat
    const maxLength: nat
    /** Number of initiator sockets. */
    const sockets: nat

    var baseAddr: nat
    var size: nat
    var iterations: nat
    var strbPct: nat

    /** Expected value, initialised flag and pending read/write counters of every word under test. */
    var memArray: array<nat>
    var initDone: array<nat>
    var readPending: array<nat>
    var writePending: array<nat>

    /** Per-socket byte counters (uint32). */
    var errors: seq<nat>
    var bytesRead: seq<nat>
    var bytesWritten: seq<nat>
    /** Per-socket queues of transactions in flight. */
    var outstanding: seq<seq<Request>>

    ghost predicate Valid()
      reads this
    {
      && (width == 1 || width == 2 || width == 4 || width == 8)
      && strbPct <= 100
      && memArray != initDone && memArray != readPending && memArray != writePending
      && initDone != readPending && initDone != writePending && readPending != writePending
    }

    /** The arrays are sized for the region under test and the per-socket vectors for the sockets. */
    ghost predicate Ready()
      reads this, readPending, writePending
    {
      ArraysReady() && StatsReady()
    }

    /** The word arrays hold size words and the pending counters fit a uint8. */
    ghost predicate ArraysReady()
      reads this, readPending, writePending
    {
      && Valid()
      && 0 < size < UINT32_LIMIT
      && memArray.Length == size && initDone.Length == size
      && readPending.Length == size && writePending.Length == size
      && (forall j :: 0 <= j < size ==> readPending[j] <= PENDING_LIMIT)
      && (forall j :: 0 <= j < size ==> writePending[j] <= PENDING_LIMIT)
    }

    /** One statistics counter and one queue per socket. */
    ghost predicate StatsReady()
      reads this
    {
      |errors| == sockets && |bytesRead| == sockets && |bytesWritten| == sockets && |outstanding| == sockets
    }

    constructor(width: nat, maxLength: nat, sockets: nat)
      requires (width == 1 || width == 2 || width == 4 || width == 8)
      ensures Valid()
      ensures this.width == width && this.maxLength == maxLength && this.sockets == sockets
      ensures strbPct == 20 && size == 0
    {
      this.width := width;
      this.maxLength := maxLength;
      this.sockets := sockets;
      baseAddr, size, iterations, strbPct := 0, 0, 0, 20;
      memArray := new nat[0];
      initDone := new nat[0];
      readPending := new nat[0];
      writePending := new nat[0];
      errors, bytesRead, bytesWritten, outstanding := [], [], [], [];
    }

    /** set_strobe_rate: a percentage. */
    method SetStrobeRate(pct: nat)
      requires Valid() && pct <= 100
      modifies this
      ensures Valid() && strbPct == pct
      ensures size == old(size) && baseAddr == old(baseAddr)
    {
      strbPct := pct;
    }

    /** test: the region under test; its base must be a multiple of the maximum burst. */
    method Test(addr: nat, length: nat, iters: nat)
      requires Valid() && maxLength > 0 && addr % maxLength == 0
      modifies this
      ensures Valid() && baseAddr == addr && size == length && iterations == iters
      ensures baseAddr % maxLength == 0
    {
      baseAddr, size, iterations := addr, length, iters;
    }

    /** init: the region must hold a power-of-two number of words (size > 0 and size & (size-1) == 0). */
    method Init()
      requires Valid() && size < UINT32_LIMIT && size > 0 && And(size, size - 1) == 0
      modifies this
      ensures Ready() && size == old(size) && baseAddr == old(baseAddr)
      ensures forall j :: 0 <= j < size ==> initDone[j] == 0 && readPending[j] == 0 && writePending[j] == 0
      ensures errors == bytesRead == bytesWritten == Zeros(sockets)
      ensures outstanding == NoRequests(sockets)
    {
      Allocate();
    }

    /** The allocation and zeroing of init: fresh arrays, nothing initialised or pending, statistics zero. */
    method Allocate()
      requires Valid() && 0 < size < UINT32_LIMIT
      modifies this
      ensures Ready() && size == old(size) && baseAddr == old(baseAddr)
      ensures forall j :: 0 <= j < size ==> initDone[j] == 0 && readPending[j] == 0 && writePending[j] == 0
      ensures errors == bytesRead == bytesWritten == Zeros(sockets)
      ensures outstanding == NoRequests(sockets)
    {
      AllocateArrays();
      ResetStatistics();
    }

    /** The new and fill of the four arrays. */
    method AllocateArrays()
      requires Valid() && 0 < size < UINT32_LIMIT
      modifies this
      ensures ArraysReady() && size == old(size) && baseAddr == old(baseAddr)
      ensures forall j :: 0 <= j < size ==> initDone[j] == 0 && readPending[j] == 0 && writePending[j] == 0
    {
      var expected, done, readCounts, writeCounts := NewArrays(size);
      memArray, initDone, readPending, writePending := expected, done, readCounts, writeCounts;
    }

    /** The resize and fill of the per-socket vectors. */
    method ResetStatistics()
      requires ArraysReady()
      modifies this
      ensures ArraysReady() && StatsReady() && size == old(size) && baseAddr == old(baseAddr)
      ensures memArray == old(memArray) && initDone == old(initDone)
      ensures readPending == old(readPending) && writePending == old(writePending)
      ensures errors == bytesRead == bytesWritten == Zeros(sockets)
      ensures outstanding == NoRequests(sockets)
    {
      errors, bytesRead, bytesWritten := Zeros(sockets), Zeros(sockets), Zeros(sockets);
      outstanding := NoRequests(sockets);
    }

    /** Words per 4 KiB window. */
    function BurstWords(): (r: nat)
      reads this
      requires Valid()
      ensures r >= 1
    {
      BURST_BYTES / width
    }

    /** A word a new read may use (initialised, no pending write) or a new write may use (nothing pending). */
    predicate Usable(j: nat, read: bool)
      reads this, initDone, readPending, writePending
      requires j < initDone.Length && j < readPending.Length && j < writePending.Length
    {
      writePending[j] == 0 && (if read then initDone[j] != 0 else readPending[j] == 0)
    }

    /**
     * open_region: one more pending access on every word of the run, in
     * order. Its assertion fails (ok false) at the first counter already at
     * 0xFF, after the words before it were counted.
     */
    method OpenRegion(index: nat, length: nat, pending: array<nat>) returns (ok: bool)
      requires Ready() && (pending == readPending || pending == writePending)
      requires index + length <= size
      modifies pending
      ensures Ready()
      ensures ok <==> forall j :: index <= j < index + length ==> old(pending[j]) < PENDING_LIMIT
      ensures ok ==> pending[..] == Opened(old(pending[..]), index, length)
      ensures !ok ==> exists k :: index <= k < index + length && old(pending[k]) == PENDING_LIMIT
                                  && pending[..] == Opened(old(pending[..]), index, k - index)
    {
      var i := index;
      while i < index + length
        invariant index <= i <= index + length
        invariant forall j :: index <= j < i ==> old(pending[j]) < PENDING_LIMIT
        invariant forall j :: 0 <= j < pending.Length ==>
          pending[j] == if index <= j < i then old(pending[j]) + 1 else old(pending[j])
      {
        if pending[i] >= PENDING_LIMIT {
          assert pending[..] == Opened(old(pending[..]), index, i - index);
          return false;
        }
        pending[i] := pending[i] + 1;
        i := i + 1;
      }
      assert pending[..] == Opened(old(pending[..]), index, length);
      ok := true;
    }

    /** close_region: one fewer pending access on every word of the run; each counter must be positive. */
    method CloseRegion(index: nat, length: nat, pending: array<nat>)
      requires Ready() && (pending == readPending || pending == writePending)
      requires index + length <= size
      requires forall j :: index <= j < index + length ==> pending[j] > 0
      modifies pending
      ensures Ready()
      ensures pending[..] == Closed(old(pending[..]), index, length)
    {
      var i := index;
      while i < index + length
        invariant index <= i <= index + length
        invariant forall j :: 0 <= j < pending.Length ==>
          pending[j] == if index <= j < i then old(pending[j]) - 1 else old(pending[j])
      {
        pending[i] := pending[i] - 1;
        i := i + 1;
      }
      assert pending[..] == Closed(old(pending[..]), index, length);
    }

    /** The word a scan from begin visits after `steps` steps, wrapping at size. */
    function ScanPos(begin: nat, steps: nat): nat
      reads this
    {
      if begin + steps < size then begin + steps else begin + steps - size
    }

    /**
     * The do-while of find_region from word i, `steps` words after begin,
     * with the current run at index of the given length: the run it ends
     * with. The run restarts at word 0 and at every unusable word; the scan
     * stops back at begin or when the run reaches max.
     */
    ghost function ScanFrom(read: bool, begin: nat, max: nat, i: nat, steps: nat, index: nat, length: nat): (nat, nat)
      reads this, initDone, readPending, writePending
      requires ArraysReady() && begin < size && steps < size && i == ScanPos(begin, steps)
      decreases size - steps
    {
      var run := if i == 0 then 0 else length;
      var index' := if Usable(i, read) && run == 0 then i else index;
      var length' := if Usable(i, read) then run + 1 else 0;
      var i' := if i + 1 == size then 0 else i + 1;
      if i' == begin || length' == max then (index', length')
      else ScanFrom(read, begin, max, i', steps + 1, index', length')
    }

    /** find_region's scan from begin with bound max: the run it ends with. */
    ghost function Scan(read: bool, begin: nat, max: nat): (r: (nat, nat))
      reads this, initDone, readPending, writePending
      requires ArraysReady() && begin < size
    {
      ScanFrom(read, begin, max, begin, 0, 0, 0)
    }

    /** The word scanned just before begin: the last one a scan that goes all the way round visits. */
    function LastScanned(begin: nat): (j: nat)
      reads this
      requires 0 < size && begin < size
      ensures j < size && ScanPos(begin, size - 1) == j
    {
      if begin == 0 then size - 1 else begin - 1
    }

    /**
     * A scan that stops short of the bound went all the way round: its run
     * is empty exactly when the last word scanned is unusable, and a
     * non-empty run ends at that word.
     */
    lemma {:induction false} ScanFromEnds(read: bool, begin: nat, max: nat, i: nat, steps: nat, index: nat, length: nat)
      requires ArraysReady() && begin < size && steps < size && i == ScanPos(begin, steps)
      requires length > 0 ==> index + length == (if i == 0 then size else i)
      ensures var r := ScanFrom(read, begin, max, i, steps, index, length);
              r.1 < max ==>
                (r.1 == 0 <==> !Usable(LastScanned(begin), read))
                && (r.1 > 0 ==> r.0 + r.1 == if begin == 0 then size else begin)
      decreases size - steps
    {
      var run := if i == 0 then 0 else length;
      var index' := if Usable(i, read) && run == 0 then i else index;
      var length' := if Usable(i, read) then run + 1 else 0;
      var i' := if i + 1 == size then 0 else i + 1;
      assert length' > 0 ==> index' + length' == i + 1;
      if i' == begin || length' == max {
        assert i' == begin ==> i == LastScanned(begin);
      } else {
        ScanFromEnds(read, begin, max, i', steps + 1, index', length');
      }
    }

    /** The failure side of find_region's scan: it finds nothing exactly when the last word scanned is unusable. */
    lemma ScanEmpty(read: bool, begin: nat, max: nat)
      requires ArraysReady() && begin < size && max >= 1
      ensures Scan(read, begin, max).1 == 0 ==> !Usable(LastScanned(begin), read)
      ensures var (index, length) := Scan(read, begin, max);
              length < max ==>
                (length == 0 <==> !Usable(LastScanned(begin), read))
                && (length > 0 ==> index + length == if begin == 0 then size else begin)
    {
      ScanFromEnds(read, begin, max, begin, 0, 0, 0);
    }

    /**
     * find_region: from a random start, scan the words once round (the run
     * restarting at word 0) until a run of usable words reaches the random
     * bound; then clamp it to the 4 KiB window it starts in. The bound is
     * the intended one, from min to max_length inclusive.
     */
    method FindRegion(read: bool, draws: RegionDraws) returns (found: bool, index: nat, length: nat)
      requires Ready() && maxLength >= 1
      ensures found <==> length > 0
      ensures found ==> 1 <= length <= MaxLength(draws.bound, MinLength(draws.small, maxLength), maxLength)
      ensures found ==> length <= maxLength && index + length <= size
      ensures found ==> forall j :: index <= j < index + length ==> Usable(j, read)
      ensures found ==> (baseAddr / width + index) % BurstWords() + length <= BurstWords()
      ensures var max := MaxLength(draws.bound, MinLength(draws.small, maxLength), maxLength);
              && (found <==> Scan(read, draws.begin % size, max).1 > 0)
              && (found ==> index == Scan(read, draws.begin % size, max).0
                            && length == var toBoundary := BurstWords() - (baseAddr / width + index) % BurstWords();
                                         if Scan(read, draws.begin % size, max).1 > toBoundary then toBoundary
                                         else Scan(read, draws.begin % size, max).1)
      ensures !found ==> !Usable(LastScanned(draws.begin % size), read)
    {
      var begin := draws.begin % size;
      var min := MinLength(draws.small, maxLength);
      var max := MaxLength(draws.bound, min, maxLength);
      index, length := ScanRun(read, begin, max);
      ScanEmpty(read, begin, max);
      if length == 0 {
        return false, index, length;
      }
      var toBoundary := BurstWords() - (baseAddr / width + index) % BurstWords();
      if length > toBoundary {
        length := toBoundary;
      }
      found := true;
    }

    /**
     * The scan of find_region: from begin, once round the words, keeping the
     * current run of usable words (restarted at word 0), until the run
     * reaches max words or the scan is back at begin.
     */
    method ScanRun(read: bool, begin: nat, max: nat) returns (index: nat, length: nat)
      requires Ready() && begin < size && max >= 1
      ensures length <= max && index + length <= size
      ensures forall j :: index <= j < index + length ==> Usable(j, read)
      ensures (index, length) == Scan(read, begin, max)
    {
      length, index := 0, 0;
      var i := begin;
      ghost var steps: nat := 0;
      while true
        invariant 0 <= i < size && steps < size
        invariant i == if begin + steps < size then begin + steps else begin + steps - size
        invariant Scan(read, begin, max) == ScanFrom(read, begin, max, i, steps, index, length)
        invariant index < size && length <= max
        invariant steps == 0 ==> length == 0
        invariant steps > 0 ==> length < max && i != begin
        invariant length > 0 ==> index + length == (if i == 0 then size else i)
        invariant forall j :: index <= j < index + length ==> Usable(j, read)
        decreases size - steps
      {
        if i == 0 {
          length := 0;
        }
        if Usable(i, read) {
          if length == 0 {
            index := i;
          }
          length := length + 1;
        } else {
          length := 0;
        }
        i := if i + 1 == size then 0 else i + 1;
        steps := steps + 1;
        if i == begin || length == max {
          break;
        }
      }
    }

    /** The request launch_read hands to the initiator. */
    function ReadRequest(socket: nat, index: nat, length: nat): Request
      reads this
    {
      Request(socket, true, WordAddress(baseAddr, index, width), index, length, [], [])
    }

    /** The request launch_write hands to the initiator: W-byte data words, strobes when drawn. */
    function WriteRequest(socket: nat, index: nat, length: nat, allowStrobes: bool, w: WriteDraws): Request
      reads this
      requires Valid() && |w.data| >= length && |w.strobes| >= length
    {
      var data := Truncated(w.data[..length], ByteRange(width));
      var strobes: seq<nat> :=
        if !allowStrobes || w.strobeChoice % 100 >= strbPct then []
        else Truncated(w.strobes[..length], Pow2(width));
      Request(socket, false, WordAddress(baseAddr, index, width), index, length, data, strobes)
    }

    /**
     * launch: a read or a write chosen at random; when no readable run is
     * found it falls back to a write, and it fails only when no writable
     * run is found either. The run's counters are opened and the request
     * queued on its socket; when a counter of the run is already at 0xFF
     * the assertion of open_region fails (aborted) and nothing is queued.
     */
    method Launch(socket: nat, readDraw: nat, first: RegionDraws, second: RegionDraws, w: WriteDraws)
      returns (launched: bool, aborted: bool, r: Request)
      requires Ready() && maxLength >= 1 && socket < sockets
      requires |w.data| >= maxLength && |w.strobes| >= maxLength
      modifies this, readPending, writePending
      ensures Ready() && baseAddr == old(baseAddr) && size == old(size)
      ensures readPending == old(readPending) && writePending == old(writePending)
      ensures !(launched && aborted)
      ensures !launched && !aborted ==>
        outstanding == old(outstanding) && readPending[..] == old(readPending[..]) && writePending[..] == old(writePending[..])
      ensures !launched && !aborted ==>
        old(Scan(readDraw % 2 == 1, first.begin % size, MaxLength(first.bound, MinLength(first.small, maxLength), maxLength)).1) == 0
        && old(Scan(false, second.begin % size, MaxLength(second.bound, MinLength(second.small, maxLength), maxLength)).1) == 0
      ensures !launched && !aborted ==>
        old(!Usable(LastScanned(first.begin % size), readDraw % 2 == 1)) && old(!Usable(LastScanned(second.begin % size), false))
      ensures launched || aborted ==> 1 <= r.length <= maxLength && r.index + r.length <= size && r.socket == socket
      ensures launched || aborted ==> forall j :: r.index <= j < r.index + r.length ==> old(Usable(j, r.read))
      ensures r.read ==> readDraw % 2 == 1
      ensures launched ==> outstanding == old(outstanding)[socket := old(outstanding)[socket] + [r]]
      ensures launched ==>
        forall j :: r.index <= j < r.index + r.length ==> (if r.read then old(readPending[j]) else old(writePending[j])) < PENDING_LIMIT
      ensures launched && r.read ==>
        readPending[..] == Opened(old(readPending[..]), r.index, r.length) && writePending[..] == old(writePending[..])
      ensures launched && !r.read ==>
        writePending[..] == Opened(old(writePending[..]), r.index, r.length) && readPending[..] == old(readPending[..])
      ensures aborted ==> r.read && outstanding == old(outstanding) && writePending[..] == old(writePending[..])
      ensures aborted ==>
        exists k :: r.index <= k < r.index + r.length && old(readPending[k]) == PENDING_LIMIT
                    && readPending[..] == Opened(old(readPending[..]), r.index, k - r.index)
    {
      var found, read, index, length := PickRegion(readDraw, first, second);
      if !found {
        return false, false, ReadRequest(socket, 0, 0).(read := false);
      }
      forall j | index <= j < index + length
        ensures old(Usable(j, read))
      {
        assert Usable(j, read);
      }
      var ok;
      ok, r := LaunchRun(socket, read, index, length, w);
      launched, aborted := ok, !ok;
    }

    /**
     * The call launch makes on the run it found: launch_read or
     * launch_write with strobes allowed. Only a read can stop at
     * open_region's assertion, since a word usable for a write has no
     * pending access.
     */
    method LaunchRun(socket: nat, read: bool, index: nat, length: nat, w: WriteDraws) returns (ok: bool, r: Request)
      requires Ready() && socket < sockets && index + length <= size
      requires |w.data| >= length && |w.strobes| >= length
      requires forall j :: index <= j < index + length ==> Usable(j, read)
      modifies this, readPending, writePending
      ensures Ready() && baseAddr == old(baseAddr) && size == old(size)
      ensures readPending == old(readPending) && writePending == old(writePending)
      ensures r.read == read && r.index == index && r.length == length && r.socket == socket
      ensures outstanding == if ok then old(outstanding)[socket := old(outstanding)[socket] + [r]] else old(outstanding)
      ensures ok ==>
        forall j :: index <= j < index + length ==> (if read then old(readPending[j]) else old(writePending[j])) < PENDING_LIMIT
      ensures ok && read ==>
        readPending[..] == Opened(old(readPending[..]), index, length) && writePending[..] == old(writePending[..])
      ensures ok && !read ==>
        writePending[..] == Opened(old(writePending[..]), index, length) && readPending[..] == old(readPending[..])
      ensures !ok ==> read && writePending[..] == old(writePending[..])
      ensures !ok ==>
        exists k :: index <= k < index + length && old(readPending[k]) == PENDING_LIMIT
                    && readPending[..] == Opened(old(readPending[..]), index, k - index)
    {
      if read {
        ok, r := LaunchRead(socket, index, length);
      } else {
        assert forall j :: index <= j < index + length ==> writePending[j] == 0 by {
          forall j | index <= j < index + length
            ensures writePending[j] == 0
          {
            assert Usable(j, false);
          }
        }
        ok, r := LaunchWrite(socket, index, length, true, w);
      }
    }

    /**
     * The region searches of launch: one for the drawn direction and, when
     * it finds nothing, one for a write. Nothing is found only when both
     * scans end with an empty run.
     */
    method PickRegion(readDraw: nat, first: RegionDraws, second: RegionDraws)
      returns (found: bool, read: bool, index: nat, length: nat)
      requires Ready() && maxLength >= 1
      ensures read ==> readDraw % 2 == 1
      ensures found ==> 1 <= length <= maxLength && index + length <= size
      ensures found ==> forall j :: index <= j < index + length ==> Usable(j, read)
      ensures !found ==>
        Scan(readDraw % 2 == 1, first.begin % size, MaxLength(first.bound, MinLength(first.small, maxLength), maxLength)).1 == 0
        && Scan(false, second.begin % size, MaxLength(second.bound, MinLength(second.small, maxLength), maxLength)).1 == 0
      ensures !found ==>
        !Usable(LastScanned(first.begin % size), readDraw % 2 == 1) && !Usable(LastScanned(second.begin % size), false)
    {
      read := readDraw % 2 == 1;
      found, index, length := FindRegion(read, first);
      if !found {
        read := false;
        found, index, length := FindRegion(read, second);
      }
    }

    /** launch_read: opens the run's read counters and, when that succeeds, queues the read. */
    method LaunchRead(socket: nat, index: nat, length: nat) returns (ok: bool, r: Request)
      requires Ready() && socket < sockets && index + length <= size
      modifies this, readPending
      ensures Ready() && baseAddr == old(baseAddr) && size == old(size)
      ensures readPending == old(readPending) && writePending == old(writePending) && initDone == old(initDone)
      ensures r == old(ReadRequest(socket, index, length))
      ensures ok <==> forall j :: index <= j < index + length ==> old(readPending[j]) < PENDING_LIMIT
      ensures ok ==> readPending[..] == Opened(old(readPending[..]), index, length)
      ensures !ok ==> exists k :: index <= k < index + length && old(readPending[k]) == PENDING_LIMIT
                                  && readPending[..] == Opened(old(readPending[..]), index, k - index)
      ensures writePending[..] == old(writePending[..])
      ensures outstanding == if ok then old(outstanding)[socket := old(outstanding)[socket] + [r]] else old(outstanding)
    {
      r := ReadRequest(socket, index, length);
      ok := OpenRegion(index, length, readPending);
      if ok {
        outstanding := outstanding[socket := outstanding[socket] + [r]];
      }
    }

    /** launch_write: opens the run's write counters and, when that succeeds, queues the write, strobed when drawn and allowed. */
    method LaunchWrite(socket: nat, index: nat, length: nat, allowStrobes: bool, w: WriteDraws) returns (ok: bool, r: Request)
      requires Ready() && socket < sockets && index + length <= size
      requires |w.data| >= length && |w.strobes| >= length
      modifies this, writePending
      ensures Ready() && baseAddr == old(baseAddr) && size == old(size)
      ensures readPending == old(readPending) && writePending == old(writePending) && initDone == old(initDone)
      ensures r == old(WriteRequest(socket, index, length, allowStrobes, w))
      ensures ok <==> forall j :: index <= j < index + length ==> old(writePending[j]) < PENDING_LIMIT
      ensures ok ==> writePending[..] == Opened(old(writePending[..]), index, length)
      ensures !ok ==> exists k :: index <= k < index + length && old(writePending[k]) == PENDING_LIMIT
                                  && writePending[..] == Opened(old(writePending[..]), index, k - index)
      ensures readPending[..] == old(readPending[..])
      ensures outstanding == if ok then old(outstanding)[socket := old(outstanding)[socket] + [r]] else old(outstanding)
    {
      r := WriteRequest(socket, index, length, allowStrobes, w);
      ok := OpenRegion(index, length, writePending);
      if ok {
        outstanding := outstanding[socket := outstanding[socket] + [r]];
      }
    }

    /**
     * complete: closes the run's pending counters, then on failure counts
     * the bytes as errors (and a failed write de-initialises its words); on
     * success counts the bytes, and a write records its data as the expected
     * values (marking the words initialised when it had no strobes) while a
     * read is compared word by word against the expected values.
     */
    method Complete(r: Request, ok: bool, readBack: seq<nat>) returns (clean: bool)
      requires Ready() && r.socket < sockets && r.index + r.length <= size
      requires !r.read ==> |r.data| == r.length
      requires r.read ==> |readBack| == r.length
      requires forall j :: r.index <= j < r.index + r.length ==>
        (if r.read then readPending[j] else writePending[j]) > 0
      modifies this, memArray, initDone, readPending, writePending
      ensures Ready() && baseAddr == old(baseAddr) && size == old(size)
      ensures memArray == old(memArray) && initDone == old(initDone)
      ensures readPending == old(readPending) && writePending == old(writePending)
      ensures outstanding == old(outstanding)
      ensures r.read ==>
        readPending[..] == Closed(old(readPending[..]), r.index, r.length) && writePending[..] == old(writePending[..])
      ensures !r.read ==>
        writePending[..] == Closed(old(writePending[..]), r.index, r.length) && readPending[..] == old(readPending[..])
      ensures !ok ==> errors == old(errors)[r.socket := (old(errors)[r.socket] + r.length * width) % UINT32_LIMIT]
      ensures !ok ==> bytesRead == old(bytesRead) && bytesWritten == old(bytesWritten) && memArray[..] == old(memArray[..])
      ensures !ok && r.read ==> initDone[..] == old(initDone[..])
      ensures !ok && !r.read ==> forall j :: 0 <= j < size ==>
        initDone[j] == if r.index <= j < r.index + r.length then 0 else old(initDone[j])
      ensures ok ==> errors == old(errors)
      ensures ok && r.read ==>
        && bytesRead == old(bytesRead)[r.socket := (old(bytesRead)[r.socket] + r.length * width) % UINT32_LIMIT]
        && bytesWritten == old(bytesWritten)
        && memArray[..] == old(memArray[..]) && initDone[..] == old(initDone[..])
        && (clean <==> forall i :: 0 <= i < r.length ==> memArray[r.index + i] == readBack[i])
      ensures ok && !r.read ==>
        && bytesWritten == old(bytesWritten)[r.socket := (old(bytesWritten)[r.socket] + r.length * width) % UINT32_LIMIT]
        && bytesRead == old(bytesRead)
        && (forall j :: 0 <= j < size ==>
              memArray[j] == if r.index <= j < r.index + r.length then r.data[j - r.index] else old(memArray[j]))
        && (forall j :: 0 <= j < size ==>
              initDone[j] == if r.index <= j < r.index + r.length && !HasStrobes(r, width) then PENDING_LIMIT else old(initDone[j]))
    {
      if r.read {
        CloseRegion(r.index, r.length, readPending);
      } else {
        CloseRegion(r.index, r.length, writePending);
      }
      clean := Account(r, ok, readBack);
    }

    /** The part of complete after the run is closed: statistics, expected values and the comparison. */
    method Account(r: Request, ok: bool, readBack: seq<nat>) returns (clean: bool)
      requires Ready() && r.socket < sockets && r.index + r.length <= size
      requires !r.read ==> |r.data| == r.length
      requires r.read ==> |readBack| == r.length
      modifies this, memArray, initDone
      ensures Ready() && baseAddr == old(baseAddr) && size == old(size)
      ensures memArray == old(memArray) && initDone == old(initDone)
      ensures readPending == old(readPending) && writePending == old(writePending)
      ensures outstanding == old(outstanding)
      ensures !ok ==> errors == old(errors)[r.socket := (old(errors)[r.socket] + r.length * width) % UINT32_LIMIT]
      ensures !ok ==> bytesRead == old(bytesRead) && bytesWritten == old(bytesWritten) && memArray[..] == old(memArray[..])
      ensures !ok && r.read ==> initDone[..] == old(initDone[..])
      ensures !ok && !r.read ==> forall j :: 0 <= j < size ==>
        initDone[j] == if r.index <= j < r.index + r.length then 0 else old(initDone[j])
      ensures ok ==> errors == old(errors)
      ensures ok && r.read ==>
        && bytesRead == old(bytesRead)[r.socket := (old(bytesRead)[r.socket] + r.length * width) % UINT32_LIMIT]
        && bytesWritten == old(bytesWritten)
        && memArray[..] == old(memArray[..]) && initDone[..] == old(initDone[..])
        && (clean <==> forall i :: 0 <= i < r.length ==> memArray[r.index + i] == readBack[i])
      ensures ok && !r.read ==>
        && bytesWritten == old(bytesWritten)[r.socket := (old(bytesWritten)[r.socket] + r.length * width) % UINT32_LIMIT]
        && bytesRead == old(bytesRead)
        && (forall j :: 0 <= j < size ==>
              memArray[j] == if r.index <= j < r.index + r.length then r.data[j - r.index] else old(memArray[j]))
        && (forall j :: 0 <= j < size ==>
              initDone[j] == if r.index <= j < r.index + r.length && !HasStrobes(r, width) then PENDING_LIMIT else old(initDone[j]))
    {
      clean := true;
      var bytes := r.length * width;
      if !ok {
        if !r.read {
          Fill(initDone, r.index, r.length, 0);
        }
        errors := errors[r.socket := (errors[r.socket] + bytes) % UINT32_LIMIT];
      } else if !r.read {
        bytesWritten := bytesWritten[r.socket := (bytesWritten[r.socket] + bytes) % UINT32_LIMIT];
        CopyInto(memArray, r.index, r.data);
        if !HasStrobes(r, width) {
          Fill(initDone, r.index, r.length, PENDING_LIMIT);
        }
      } else {
        bytesRead := bytesRead[r.socket := (bytesRead[r.socket] + bytes) % UINT32_LIMIT];
        clean := Matches(memArray, r.index, readBack);
      }
    }
  }

  /** std::fill of length words from index. */
  method Fill(a: array<nat>, index: nat, length: nat, v: nat)
    requires index + length <= a.Length
    modifies a
    ensures forall j :: 0 <= j < a.Length ==> a[j] == if index <= j < index + length then v else old(a[j])
  {
    forall j | index <= j < index + length {
      a[j] := v;
    }
  }

  /** The copy of a payload's data words into the array from index (the initiator's b_read). */
  method CopyInto(a: array<nat>, index: nat, data: seq<nat>)
    requires index + |data| <= a.Length
    modifies a
    ensures forall j :: 0 <= j < a.Length ==>
      a[j] == if index <= j < index + |data| then data[j - index] else old(a[j])
  {
    forall j | index <= j < index + |data| {
      a[j] := data[j - index];
    }
  }

  /** The word-by-word comparison of complete: true exactly when every word read back is the expected one. */
  method Matches(a: array<nat>, index: nat, readBack: seq<nat>) returns (clean: bool)
    requires index + |readBack| <= a.Length
    ensures clean <==> forall i :: 0 <= i < |readBack| ==> a[index + i] == readBack[i]
  {
    clean := true;
    var i := 0;
    while i < |readBack|
      invariant 0 <= i <= |readBack|
      invariant clean <==> forall k :: 0 <= k < i ==> a[index + k] == readBack[k]
    {
      if a[index + i] != readBack[i] {
        clean := false;
      }
      i := i + 1;
    }
  }
}
