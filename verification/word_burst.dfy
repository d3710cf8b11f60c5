/**
 * The burst_state shared by the single-word bus masters (APB and CSR):
 * target_callback expands a request into one bus address per word, and
 * the clock then starts the words one at a time from the head burst.
 */
module WordBurst {
  import opened Tlm
  import opened BusJob

  /** burst_state: a request with the beat addresses, data and strobes still to go. */
  datatype Burst = Burst(job: Job, addrs: seq<nat>, data: seq<nat>, strb: seq<nat>)

  /**
   * The beat addresses of a request: its address with the low bits
   * cleared (`address & ~(width-1)` for the power-of-two bus width), then
   * one every width bytes. An address that validate_payload accepted is
   * already aligned, so the first beat is the request's own address.
   */
  function BeatAddresses(job: Job, width: nat): (r: seq<nat>)
    requires width >= 1
    ensures |r| == job.size
    ensures r != [] ==> r[0] <= job.address < r[0] + width
    ensures r != [] && job.address % width == 0 ==> r[0] == job.address
    ensures forall i :: 0 <= i < |r| - 1 ==> r[i + 1] == r[i] + width
  {
    Strided(job.address - job.address % width, job.size, width)
  }

  /** n addresses from start, width apart. */
  function Strided(start: nat, n: nat, width: nat): (r: seq<nat>)
    ensures |r| == n
    ensures n > 0 ==> r[0] == start
    ensures forall i :: 0 <= i < n - 1 ==> r[i + 1] == r[i] + width
    decreases n
  {
    if n == 0 then [] else [start] + Strided(start + width, n - 1, width)
  }

  /** One more address at the end of a strided run lies width past the last. */
  lemma {:induction false} StridedSnoc(start: nat, n: nat, width: nat)
    ensures Strided(start, n + 1, width) == Strided(start, n, width) + [start + width * n]
    decreases n
  {
    if n > 0 {
      StridedSnoc(start + width, n - 1, width);
      assert start + width + width * (n - 1) == start + width * n;
    }
  }

  /**
   * The burst target_callback queues: status preset OK, size() beat
   * addresses, and for a write the size() data and strobe words; a read
   * starts with no data.
   */
  function NewBurst(j: Job, width: nat): (bt: Burst)
    requires width >= 1 && j.Valid()
    ensures Fresh(bt, width) && bt.job == j.(status := Ok)
  {
    var ts := j.(status := Ok);
    Burst(ts, BeatAddresses(ts, width), if ts.write then ts.data else [], if ts.write then ts.strobes else [])
  }

  /** A burst as target_callback builds it. */
  ghost predicate Fresh(bt: Burst, width: nat)
    requires width >= 1
  {
    && bt.job.Valid()
    && bt.addrs == BeatAddresses(bt.job, width)
    && (bt.job.write ==> bt.data == bt.job.data && bt.strb == bt.job.strobes)
    && (!bt.job.write ==> bt.data == [])
  }

  /**
   * The burst at the head of the queue part-way through: `inFlight` says
   * whether a word of it is on the bus. A write still holds the data of
   * the words not yet started; a read holds the words already returned.
   * Either way the remaining addresses are a tail of the beat addresses,
   * and some word is still to come.
   */
  ghost predicate Underway(bt: Burst, width: nat, inFlight: nat)
    requires width >= 1 && inFlight <= 1
  {
    var size := bt.job.size;
    && bt.job.Valid()
    && |bt.addrs| <= size
    && bt.addrs == BeatAddresses(bt.job, width)[size - |bt.addrs|..]
    && |bt.addrs| + inFlight >= 1
    && (bt.job.write ==> |bt.data| == |bt.addrs| && bt.data == bt.job.data[size - |bt.data|..])
    && (!bt.job.write ==> |bt.addrs| + |bt.data| + inFlight == size)
  }

  /** A fresh burst reaching the head of the queue is underway with nothing on the bus. */
  lemma FreshIsUnderway(bt: Burst, width: nat)
    requires width >= 1 && Fresh(bt, width)
    ensures Underway(bt, width, 0)
  {
    assert bt.addrs == BeatAddresses(bt.job, width)[bt.job.size - |bt.addrs|..];
    assert bt.job.write ==> bt.data == bt.job.data[bt.job.size - |bt.data|..];
  }

  /** Once the head burst completes, the next one is underway with nothing on the bus, and the rest are fresh. */
  lemma PopHead(q: seq<Burst>, width: nat)
    requires width >= 1 && q != []
    requires forall i :: 1 <= i < |q| ==> Fresh(q[i], width)
    ensures q[1..] != [] ==> Underway(q[1..][0], width, 0)
    ensures forall i :: 1 <= i < |q[1..]| ==> Fresh(q[1..][i], width)
  {
    if |q| > 1 {
      FreshIsUnderway(q[1], width);
    }
    forall i | 1 <= i < |q[1..]|
      ensures Fresh(q[1..][i], width)
    {
      assert q[1..][i] == q[i + 1];
    }
  }

  /**
   * A write burst whose word on the bus has ended, its status updated:
   * underway with nothing on the bus while data words remain.
   */
  lemma WriteSettles(bt: Burst, width: nat, s: ResponseStatus)
    requires width >= 1 && Underway(bt, width, 1) && bt.job.write && bt.data != []
    ensures Underway(bt.(job := bt.job.(status := s)), width, 0)
  {
    assert BeatAddresses(bt.job.(status := s), width) == BeatAddresses(bt.job, width);
  }

  /**
   * A read burst whose word on the bus has returned, its status updated
   * and the word appended: underway with nothing on the bus while words
   * remain to be read.
   */
  lemma ReadSettles(bt: Burst, width: nat, s: ResponseStatus, word: nat)
    requires width >= 1 && Underway(bt, width, 1) && !bt.job.write && |bt.data| + 1 < bt.job.size
    ensures Underway(bt.(job := bt.job.(status := s), data := bt.data + [word]), width, 0)
  {
    assert BeatAddresses(bt.job.(status := s), width) == BeatAddresses(bt.job, width);
  }

  /** Replacing the head burst leaves the rest of the queue fresh. */
  lemma ReplaceHead(q: seq<Burst>, b: Burst, r: seq<Burst>, width: nat)
    requires width >= 1 && q != [] && r == q[0 := b]
    requires forall i :: 1 <= i < |q| ==> Fresh(q[i], width)
    ensures |r| == |q| && r[0] == b
    ensures forall i :: 1 <= i < |r| ==> Fresh(r[i], width)
  {
    assert forall i :: 1 <= i < |r| ==> r[i] == q[i];
  }

  /** The requests of a burst queue, in order. */
  function JobsOf(q: seq<Burst>): (r: seq<Job>)
    ensures |r| == |q| && forall i :: 0 <= i < |q| ==> r[i] == q[i].job
  {
    seq(|q|, i requires 0 <= i < |q| => q[i].job)
  }

  /** The burst queue and the completions, as the answer to one word leaves them. */
  datatype Answered = Answered(queue: seq<Burst>, completed: seq<Job>)

  /**
   * The head burst takes the answer to its word on the bus: the error
   * flag folds into its status and a read keeps the word; a write
   * completes once no data is left, a read once it holds size() words.
   * Until then the burst stays at the head.
   */
  function AnswerHead(q: seq<Burst>, completed: seq<Job>, word: nat, err: bool): (r: Answered)
    requires q != []
    ensures completed <= r.completed && |r.queue| + |r.completed| == |q| + |completed|
    ensures r.completed == completed ==> |r.queue| == |q| && r.queue[1..] == q[1..]
    ensures r.completed != completed ==> r.queue == q[1..] && r.completed == completed + [r.completed[|completed|]]
  {
    var bt := q[0];
    var ts := bt.job.(status := AfterError(bt.job.status, err));
    if bt.job.write then
      if bt.data == [] then Answered(q[1..], completed + [ts]) else Answered(q[0 := bt.(job := ts)], completed)
    else
      var got := bt.data + [word];
      if |got| == bt.job.size then Answered(q[1..], completed + [ts.(data := got)])
      else Answered(q[0 := bt.(job := ts, data := got)], completed)
  }
}
