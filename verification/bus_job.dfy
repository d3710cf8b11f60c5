/**
 * What the bus adapters see of an accepted TLM request. Each adapter owns a
 * non-blocking target; its callback receives a transaction_state handle
 * that has passed validate_payload. The adapter reads the handle through
 * get_address, size, get_data and get_strobes, writes it through
 * set_response_status and set_data, and ends it with complete(). Here the
 * handle is a value with those parts, and complete() appends that value to
 * the adapter's completion log.
 */
module BusJob {
  import opened Tlm

  /**
   * The adapters' address pins are sc_out<ADDRTYPE>, uint32_t by default:
   * a 64-bit transaction address driven onto one keeps its low 32 bits.
   */
  const ADDR_LIMIT: nat := 0x1_0000_0000

  /**
   * An accepted request. `size` is size() in bus words. `strobes` is what
   * get_strobes copies out: size() words, with every strobe bit set when
   * the payload has no byte enables (always so for a read). For a write,
   * `data` is what get_data copies out, size() words; for a read it is
   * what set_data eventually stores.
   */
  datatype Job = Job(
    id: nat,
    write: bool,
    address: nat,
    size: nat,
    data: seq<nat>,
    strobes: seq<nat>,
    status: ResponseStatus)
  {
    /** What validate_payload guarantees: a non-empty burst, a strobe word per beat, and a data word per beat for a write. */
    predicate Valid()
    {
      size >= 1 && |strobes| == size && (write ==> |data| == size)
    }
  }

  /** A request as validate_payload passes it on. */
  type ValidJob = j: Job | j.Valid() witness Job(0, false, 0, 1, [], [0], Ok)

  /** A job the adapter queues for a read channel. */
  type ReadJob = j: Job | j.Valid() && !j.write witness Job(0, false, 0, 1, [], [0], Ok)

  /** A job the adapter queues for a write channel. */
  type WriteJob = j: Job | j.Valid() && j.write witness Job(0, true, 0, 1, [0], [0], Ok)

  /** A queue drained by reset: every job, in queue order, completed with INCOMPLETE. */
  function Incompleted(q: seq<Job>): (r: seq<Job>)
  {
    seq(|q|, i requires 0 <= i < |q| => q[i].(status := Incomplete))
  }

  /**
   * The reset_queue loop: pops each job from the front, marks it
   * INCOMPLETE and completes it. Returns the completion log extended by
   * the drained jobs.
   */
  method DrainQueue(queue: seq<Job>, log: seq<Job>) returns (log': seq<Job>)
    ensures log' == log + Incompleted(queue)
  {
    var q := queue;
    log' := log;
    while q != []
      invariant |q| <= |queue| && q == queue[|queue| - |q|..]
      invariant log' == log + Incompleted(queue[..|queue| - |q|])
      decreases |q|
    {
      var k := |queue| - |q|;
      assert Incompleted(queue[..k + 1]) == Incompleted(queue[..k]) + [q[0].(status := Incomplete)];
      log' := log' + [q[0].(status := Incomplete)];
      q := q[1..];
    }
    assert queue[..|queue|] == queue;
  }

  /**
   * std::deque::resize: keeps the first n words and pads with
   * value-initialised (zero) words up to n.
   */
  function Resized(s: seq<nat>, n: nat): (r: seq<nat>)
    ensures |r| == n
    ensures n <= |s| ==> r == s[..n]
    ensures |s| <= n ==> r[..|s|] == s && forall i :: |s| <= i < n ==> r[i] == 0
  {
    seq(n, i requires 0 <= i < n => if i < |s| then s[i] else 0)
  }

  // What a slave adapter sees of its non-blocking initiator.

  /** An initiator call: nb_read(address, length), or nb_write(address, data, strobes). */
  datatype Issued = Issued(read: bool, address: nat, length: nat, data: seq<nat>, strobes: seq<nat>)

  /** What the initiator reports about a request handle: nb_done, b_status and the payload's data words. */
  datatype Reply = Reply(done: bool, status: ResponseStatus, data: seq<nat>)

  /**
   * What b_read(deque) leaves in an empty deque: resized to size() words,
   * then filled from the payload only when the request succeeded.
   */
  function ReadBeats(reply: Reply, size: nat): (beats: seq<nat>)
    ensures |beats| == size
    ensures reply.status == Ok && size <= |reply.data| ==> beats == reply.data[..size]
    ensures reply.status != Ok ==> forall i :: 0 <= i < size ==> beats[i] == 0
  {
    Resized(if reply.status == Ok then reply.data else [], size)
  }

  /** A beat answered with an error (PSLVERR, csr_rsp_error, ERR) marks the request GENERIC_ERROR; otherwise its status stands. */
  function AfterError(s: ResponseStatus, err: bool): (r: ResponseStatus)
    ensures r == Ok <==> s == Ok && !err
    ensures err ==> r == GenericError
  {
    if err then GenericError else s
  }

  /** The status after a run of transfers, each answered with or without an error. */
  function AfterErrors(s: ResponseStatus, errs: seq<bool>): (r: ResponseStatus)
    decreases |errs|
  {
    if errs == [] then s else AfterErrors(AfterError(s, errs[0]), errs[1..])
  }

  /** A burst ends OK exactly when it started OK and no transfer of it was answered with an error. */
  lemma {:induction false} OkIffNoError(s: ResponseStatus, errs: seq<bool>)
    ensures AfterErrors(s, errs) == Ok <==> s == Ok && forall i :: 0 <= i < |errs| ==> !errs[i]
    decreases |errs|
  {
    if errs != [] {
      OkIffNoError(AfterError(s, errs[0]), errs[1..]);
      assert forall i :: 1 <= i < |errs| ==> errs[i] == errs[1..][i - 1];
    }
  }

  /** Once a transfer has been answered with an error, the burst ends GENERIC_ERROR whatever follows. */
  lemma {:induction false} ErrorSticks(s: ResponseStatus, errs: seq<bool>)
    requires s == GenericError
    ensures AfterErrors(s, errs) == GenericError
    decreases |errs|
  {
    if errs != [] {
      ErrorSticks(AfterError(s, errs[0]), errs[1..]);
    }
  }
}
