/**
 * dlsc_tlm_initiator_nb: the non-blocking TLM initiator. Requests are built
 * from pooled payloads, queued for launch in FIFO order behind a single
 * "awaiting END_REQ" flag, and tracked through a two-stage completion (the
 * response arrives; the annotated completion time is reached).
 *
 * Simulation time is a tick count. Every call that depends on the kernel
 * takes the current time `now`; the replies of the target to forward calls
 * are a parameter; the kernel's peq is the `completeQueue` of (payload,
 * due time) pairs that `CompleteMethod` drains.
 */
module TlmInitiatorNb {
  import opened Bits
  import opened Tlm
  import TlmMm

  function Max(a: nat, b: nat): nat
  {
    if a >= b then a else b
  }

  // ---------------------------------------------------------------------------
  // Quantum keeping.

  /**
   * The local quantum at time `now` of the TLM global quantum q (clause 16.2
   * of IEEE 1666-2011): the time left until the next multiple of q, or 0
   * when no quantum is set.
   */
  function LocalQuantum(now: nat, q: nat): (r: nat)
    ensures q > 0 ==> 1 <= r <= q
  {
    if q == 0 then 0 else q - now % q
  }

  /**
   * dlsc_tlm_quantum_wait: while the annotated delay reaches past the local
   * quantum, sleep for the local quantum and take it off the delay. Sleeping
   * moves `now`; the local time now+delay never changes.
   */
  method QuantumWait(now: nat, delay: nat, q: nat) returns (now': nat, delay': nat)
    ensures now' + delay' == now + delay && now' >= now
    ensures q > 0 ==> delay' <= LocalQuantum(now', q)
    ensures q == 0 ==> now' == now && delay' == delay
  {
    now', delay' := now, delay;
    if q != 0 {
      while delay' > LocalQuantum(now', q)
        invariant now' + delay' == now + delay && now' >= now
        decreases delay'
      {
        var local := LocalQuantum(now', q);
        now' := now' + local;
        delay' := delay' - local;
      }
    }
  }

  // ---------------------------------------------------------------------------
  // Byte enables of a strobed write.

  /** The byte enable of lane i of a strobe word: enabled iff bit i is set. */
  function StrobeByte(s: nat, i: nat): byte
  {
    if Bit(s, i) == 1 then BYTE_ENABLED else BYTE_DISABLED
  }

  /** The w byte enables of one strobe word, lowest lane first. */
  function LaneEnables(s: nat, w: nat): (r: seq<byte>)
    ensures |r| == w
    ensures forall i :: 0 <= i < w ==> r[i] == StrobeByte(s, i)
  {
    seq(w, i requires 0 <= i < w => StrobeByte(s, i))
  }

  /** The byte-enable buffer of a strobed write: the lanes of every strobe word, in order. */
  function Expand(strb: seq<nat>, w: nat): (r: seq<byte>)
    ensures |r| == |strb| * w
  {
    if |strb| == 0 then [] else LaneEnables(strb[0], w) + Expand(strb[1..], w)
  }

  /** Byte k*w+i of the buffer is enabled iff bit i of strobe word k is set. */
  lemma {:induction false} ExpandAt(strb: seq<nat>, w: nat, k: nat, i: nat)
    requires k < |strb| && i < w
    ensures k * w + i < |Expand(strb, w)|
    ensures Expand(strb, w)[k * w + i] == BYTE_ENABLED <==> Bit(strb[k], i) == 1
  {
    MulMonotone(k + 1, |strb|, w);
    if k > 0 {
      ExpandAt(strb[1..], w, k - 1, i);
      assert (k - 1) * w + i + w == k * w + i;
    }
  }

  /** Appending a strobe word appends its lanes. */
  lemma {:induction false} ExpandSnoc(strb: seq<nat>, s: nat, w: nat)
    ensures Expand(strb + [s], w) == Expand(strb, w) + LaneEnables(s, w)
  {
    if |strb| > 0 {
      assert (strb + [s])[1..] == strb[1..] + [s];
      ExpandSnoc(strb[1..], s, w);
    }
  }

  /** `s & (1 << i)` is non-zero exactly when lane i is enabled. */
  lemma StrobeTest(s: nat, i: nat)
    ensures And(s, Pow2(i)) != 0 <==> StrobeByte(s, i) == BYTE_ENABLED
  {
    AndSingleBit(s, i);
    var b, p := Bit(s, i), Pow2(i);
    assert b == 0 || b == 1;
    assert b * p == 0 <==> b == 0;
  }

  /** Every byte of a buffer is enabled. */
  predicate AllEnabled(be: seq<byte>)
  {
    forall j :: 0 <= j < |be| ==> be[j] == BYTE_ENABLED
  }

  lemma AllEnabledConcat(a: seq<byte>, b: seq<byte>)
    ensures AllEnabled(a + b) <==> AllEnabled(a) && AllEnabled(b)
  {
    if AllEnabled(a + b) {
      forall j | 0 <= j < |a|
        ensures a[j] == BYTE_ENABLED
      {
        assert (a + b)[j] == a[j];
      }
      forall j | 0 <= j < |b|
        ensures b[j] == BYTE_ENABLED
      {
        assert (a + b)[|a| + j] == b[j];
      }
    }
  }

  /**
   * The strobe loop of nb_write: byte k*W+i of the enable buffer gets
   * ENABLED when `strb[k] & (1 << i)` is non-zero and DISABLED otherwise;
   * `allEnabled` reports whether no byte was disabled. The bytes past the
   * strobed range keep their old value.
   */
  method ExpandStrobes(strb: seq<nat>, w: nat, buffer: seq<byte>) returns (be: seq<byte>, allEnabled: bool)
    requires |strb| * w <= |buffer|
    ensures |be| == |buffer|
    ensures be[..|strb| * w] == Expand(strb, w)
    ensures be[|strb| * w..] == buffer[|strb| * w..]
    ensures allEnabled <==> AllEnabled(Expand(strb, w))
  {
    be := buffer;
    allEnabled := true;
    var p := 0;
    var k := 0;
    while k < |strb|
      invariant 0 <= k <= |strb| && p == k * w
      invariant |be| == |buffer| && be[..p] == Expand(strb[..k], w) && be[p..] == buffer[p..]
      invariant allEnabled <==> AllEnabled(Expand(strb[..k], w))
    {
      var s := strb[k];
      MulMonotone(k + 1, |strb|, w);
      ghost var before := be;
      var laneEnabled;
      be, laneEnabled := ExpandLane(s, w, be, p);
      StrobeStep(strb, w, k, p, buffer, before, be);
      allEnabled := allEnabled && laneEnabled;
      p := p + w;
      k := k + 1;
    }
    assert strb[..k] == strb;
  }

  /** One more strobe word written after the first k extends the expanded prefix by its lanes. */
  lemma StrobeStep(strb: seq<nat>, w: nat, k: nat, p: nat, buffer: seq<byte>, before: seq<byte>, be: seq<byte>)
    requires k < |strb| && p == k * w && p + w <= |before| == |be| == |buffer|
    requires before[..p] == Expand(strb[..k], w) && before[p..] == buffer[p..]
    requires be[..p] == before[..p] && be[p..p + w] == LaneEnables(strb[k], w) && be[p + w..] == before[p + w..]
    ensures (k + 1) * w == p + w
    ensures be[..p + w] == Expand(strb[..k + 1], w) && be[p + w..] == buffer[p + w..]
    ensures AllEnabled(Expand(strb[..k + 1], w)) <==> AllEnabled(Expand(strb[..k], w)) && AllEnabled(LaneEnables(strb[k], w))
  {
    assert strb[..k + 1] == strb[..k] + [strb[k]];
    ExpandSnoc(strb[..k], strb[k], w);
    AllEnabledConcat(Expand(strb[..k], w), LaneEnables(strb[k], w));
    assert be[..p + w] == be[..p] + be[p..p + w];
    assert before[p + w..] == before[p..][w..];
  }

  /** The inner strobe loop: the w lanes of strobe word s written from position p on. */
  method ExpandLane(s: nat, w: nat, buffer: seq<byte>, p: nat) returns (be: seq<byte>, allEnabled: bool)
    requires p + w <= |buffer|
    ensures |be| == |buffer|
    ensures be[..p] == buffer[..p] && be[p..p + w] == LaneEnables(s, w) && be[p + w..] == buffer[p + w..]
    ensures allEnabled <==> AllEnabled(LaneEnables(s, w))
  {
    be := buffer;
    allEnabled := true;
    var i := 0;
    while i < w
      invariant 0 <= i <= w && |be| == |buffer|
      invariant forall j :: 0 <= j < |be| ==> be[j] == if p <= j < p + i then StrobeByte(s, j - p) else buffer[j]
      invariant allEnabled <==> forall j :: 0 <= j < i ==> StrobeByte(s, j) == BYTE_ENABLED
    {
      StrobeTest(s, i);
      if And(s, Pow2(i)) != 0 {
        be := be[p + i := BYTE_ENABLED];
      } else {
        be := be[p + i := BYTE_DISABLED];
        allEnabled := false;
      }
      i := i + 1;
    }
    assert be[p..p + w] == LaneEnables(s, w);
  }

  // ---------------------------------------------------------------------------
  // The transaction handle.

  /** transaction_state: one request, its payload and its completion flags. */
  class Transaction {
    /** The payload as the target last left it. */
    var payload: Payload
    /** The payload as the initiator built it. */
    ghost const request: Payload
    /** The identity of the payload object (its address in the source). */
    const id: nat
    /** The bus width W, sizeof(DATATYPE). */
    const width: nat
    const wasAnnotated: bool
    const socketId: nat
    var doneTime: nat
    /** The completion time has been reached. */
    var doneFlag: bool
    /** The response has been received. */
    var doneFlagLocal: bool

    ghost predicate Valid()
      reads this
    {
      width >= 1 && (doneFlag ==> doneFlagLocal)
    }

    constructor (p: Payload, pid: nat, w: nat, tann: bool, socket: nat)
      requires w >= 1
      ensures Valid()
      ensures payload == p && request == p && id == pid && width == w && wasAnnotated == tann && socketId == socket
      ensures doneTime == 0 && !doneFlag && !doneFlagLocal
    {
      payload, id, width, wasAnnotated, socketId := p, pid, w, tann, socket;
      request := p;
      doneTime, doneFlag, doneFlagLocal := 0, false, false;
    }

    /** notify_local: the response has arrived; the transaction completes at dt. */
    method NotifyLocal(dt: nat)
      requires width >= 1
      modifies this
      ensures Valid()
      ensures doneFlagLocal && doneTime == dt
      ensures doneFlag == old(doneFlag) && payload == old(payload)
      ensures forall n: nat, d: nat :: NbDone(n, d) <==> n + d >= dt
    {
      doneFlagLocal := true;
      doneTime := dt;
    }

    /** notify: the completion time has been reached; only after notify_local. */
    method Notify()
      requires width >= 1 && doneFlagLocal
      modifies this
      ensures Valid()
      ensures doneFlag && doneFlagLocal
      ensures doneTime == old(doneTime) && payload == old(payload)
    {
      doneFlag := true;
    }

    /** nb_done(delay): the response is in and the caller's local time has reached the completion time. */
    predicate NbDone(now: nat, delay: nat)
      reads this
    {
      doneFlagLocal && !(now + delay < doneTime)
    }

    /** size(): the payload length in bus words, data_length / W. */
    function Size(): (n: nat)
      requires Valid()
      reads this
      ensures n * width <= payload.dataLength < (n + 1) * width
    {
      DivModUnique(payload.dataLength, width, payload.dataLength / width, payload.dataLength % width);
      payload.dataLength / width
    }

    /**
     * wait(delay), from the point where the caller runs again. `wake` is the
     * time at which it resumed: `now` when the response was already in,
     * later when it slept on the completion event until notify_local. The
     * delay is first reduced by the time slept, then raised to reach the
     * completion time, then split by the quantum keeper.
     */
    method Wait(now: nat, delay: nat, wake: nat, q: nat) returns (now': nat, delay': nat)
      requires Valid() && doneFlagLocal && wake >= now
      ensures now' >= wake
      ensures now' + delay' == Max(Max(now + delay, wake), doneTime)
      ensures NbDone(now', delay')
      ensures wake == now && NbDone(now, delay) ==> now' + delay' == now + delay
    {
      var local := now + delay;
      var d := delay;
      if wake > now {
        d := if local > wake then local - wake else 0;
        local := wake + d;
      }
      if local < doneTime {
        d := d + (doneTime - local);
      }
      now', delay' := QuantumWait(wake, d, q);
    }

    /**
     * b_read(data, delay): wait, then copy size() words out of the payload,
     * unless the response status is not OK.
     */
    method BRead(now: nat, delay: nat, wake: nat, q: nat) returns (ok: bool, data: seq<nat>, now': nat, delay': nat)
      requires Valid() && doneFlagLocal && wake >= now && payload.WellFormed()
      ensures now' + delay' == Max(Max(now + delay, wake), doneTime) && NbDone(now', delay')
      ensures ok <==> payload.status == Ok
      ensures ok ==> |data| == Size() && data == BytesToWords(payload.data[..Size() * width], width)
      ensures !ok ==> data == []
    {
      now', delay' := Wait(now, delay, wake, q);
      if payload.status != Ok {
        return false, [], now', delay';
      }
      var n := Size();
      DivModUnique(n * width, width, n, 0);
      data := BytesToWords(payload.data[..n * width], width);
      ok := true;
    }
  }

  // ---------------------------------------------------------------------------
  // Request builders.

  /** nb_read: a READ of length*w bytes with no byte enables and no streaming. */
  function ReadRequest(p: Payload, addr: nat, length: nat, w: nat): (r: Payload)
    ensures r.IsRead() && r.address == addr && r.dataLength == length * w
    ensures r.beLength == 0 && r.streamingWidth == r.dataLength
    ensures r.data == p.data && r.byteEnable == p.byteEnable && r.status == p.status
  {
    p.(command := Read, address := addr, dataLength := length * w, beLength := 0, streamingWidth := length * w)
  }

  /**
   * The data-only nb_write: a WRITE of |ws|*w bytes whose data buffer starts
   * with the words, each copied as w bytes.
   */
  function WriteRequest(p: Payload, addr: nat, ws: seq<nat>, w: nat): (r: Payload)
    requires |ws| * w <= |p.data|
    ensures r.IsWrite() && r.address == addr && r.dataLength == |ws| * w
    ensures r.beLength == 0 && r.streamingWidth == r.dataLength
    ensures |r.data| == |p.data| && r.data[|ws| * w..] == p.data[|ws| * w..]
    ensures r.byteEnable == p.byteEnable && r.status == p.status
  {
    var n := |ws| * w;
    p.(command := Write, address := addr, dataLength := n, beLength := 0, streamingWidth := n,
       data := WordsToBytes(ws, w) + p.data[n..])
  }

  /** The words of a data-only write are what a reader of its data_length bytes finds. */
  lemma WriteRequestData(p: Payload, addr: nat, ws: seq<nat>, w: nat)
    requires w > 0 && |ws| * w <= |p.data|
    requires forall i :: 0 <= i < |ws| ==> ws[i] < ByteRange(w)
    ensures var r := WriteRequest(p, addr, ws, w);
      BytesToWords(r.data[..r.dataLength], w) == ws
  {
    var r := WriteRequest(p, addr, ws, w);
    assert r.data[..r.dataLength] == WordsToBytes(ws, w);
    BytesToWordsRoundTrip(ws, w);
  }

  /**
   * The strobed nb_write: the data-only write with the expanded strobes in
   * the byte-enable buffer, and a byte-enable length of |ws|*w unless every
   * byte is enabled, in which case it is 0.
   */
  function StrobedWriteRequest(p: Payload, addr: nat, ws: seq<nat>, strb: seq<nat>, w: nat): (r: Payload)
    requires |ws| == |strb| && |ws| * w <= |p.data| && |ws| * w <= |p.byteEnable|
    ensures r.IsWrite() && r.dataLength == |ws| * w && r.streamingWidth == r.dataLength
    ensures r.data == WriteRequest(p, addr, ws, w).data && |r.byteEnable| == |p.byteEnable|
    ensures r.byteEnable[..|ws| * w] == Expand(strb, w)
    ensures r.beLength == 0 <==> AllEnabled(Expand(strb, w)) || |ws| * w == 0
  {
    var n := |ws| * w;
    var be := Expand(strb, w) + p.byteEnable[n..];
    assert be[..n] == Expand(strb, w);
    WriteRequest(p, addr, ws, w).(byteEnable := be, beLength := if AllEnabled(Expand(strb, w)) then 0 else n)
  }

  // ---------------------------------------------------------------------------
  // What launch_update does with the reply to BEGIN_REQ.

  /** A reply to BEGIN_REQ that carries the response (clause 15.2 of IEEE 1666-2011). */
  predicate Responded(sync: SyncEnum, phase: Phase)
  {
    sync == Completed || (sync == Updated && phase == BeginResp)
  }

  /**
   * The handling of one forward reply: wait for END_REQ, or take the request
   * off the launch queue, possibly answer BEGIN_RESP with END_RESP, and
   * possibly complete the transaction locally.
   */
  datatype LaunchStep = AwaitEndReq | Sent(sendEndResp: bool, complete: bool)

  /**
   * The reply handling as written: the END_RESP branch overwrites the phase
   * before the completion test reads it, so the test fails for the reply it
   * was written for.
   */
  function LaunchStepAsWritten(sync: SyncEnum, phase: Phase): LaunchStep
  {
    if sync == Accepted || phase == BeginReq then AwaitEndReq
    else
      var endResp := sync != Completed && phase == BeginResp;
      var phase' := if endResp then EndResp else phase;
      Sent(endResp, sync == Completed || phase' == BeginResp)
  }

  /** A target answering BEGIN_REQ with TLM_UPDATED and BEGIN_RESP gets END_RESP but no completion. */
  lemma AsWrittenDropsUpdatedResponse()
    ensures Responded(Updated, BeginResp)
    ensures LaunchStepAsWritten(Updated, BeginResp) == Sent(true, false)
  {
  }

  /** The reply handling with the completion test on the phase the target returned. */
  function LaunchStepFor(sync: SyncEnum, phase: Phase): LaunchStep
  {
    if sync == Accepted || phase == BeginReq then AwaitEndReq
    else Sent(sync != Completed && phase == BeginResp, sync == Completed || phase == BeginResp)
  }

  /**
   * The request leaves the launch queue unless the target holds it in the
   * request phase; END_RESP is sent exactly for a response the target
   * expects to be acknowledged; a transaction is completed exactly when the
   * reply carries its response.
   */
  lemma LaunchStepSound(sync: SyncEnum, phase: Phase)
    ensures LaunchStepFor(sync, phase).AwaitEndReq? <==> sync == Accepted || phase == BeginReq
    ensures LaunchStepFor(sync, phase).Sent? ==>
      (LaunchStepFor(sync, phase).complete <==> Responded(sync, phase))
      && (LaunchStepFor(sync, phase).sendEndResp <==> sync == Updated && phase == BeginResp)
  {
  }

  /** The target's side of one forward call on BEGIN_REQ (and of the END_RESP that may follow). */
  datatype FwReply = FwReply(
    sync: SyncEnum,
    phase: Phase,
    /** The annotated delay as the BEGIN_REQ call leaves it. */
    delay: nat,
    /** The payload as the target leaves it. */
    payload: Payload,
    /** The annotated delay as the END_RESP call leaves it. */
    endRespDelay: nat)

  /** The delay that completes a transaction sent with reply r. */
  function ResponseDelay(r: FwReply): nat
  {
    if r.sync != Completed && r.phase == BeginResp then r.endRespDelay else r.delay
  }

  /**
   * The target's behaviour over one run of launch_update: replies(k, d) is
   * its answer to the k-th BEGIN_REQ call of the run, made with annotated
   * delay d.
   */
  type Replies = (nat, nat) -> FwReply

  /**
   * The annotated delay launch_update passes to its k-th BEGIN_REQ call: the
   * delay it was given for the first, and for every later one the delay the
   * previous pass left (its BEGIN_REQ call, then its END_RESP call when sent).
   */
  function DelayIn(delay: nat, replies: Replies, k: nat): nat
  {
    if k == 0 then delay else ResponseDelay(replies(k - 1, DelayIn(delay, replies, k - 1)))
  }

  /** The target's answer to the k-th BEGIN_REQ call of the run. */
  function ReplyAt(delay: nat, replies: Replies, k: nat): FwReply
  {
    replies(k, DelayIn(delay, replies, k))
  }

  // ---------------------------------------------------------------------------
  // The initiator.

  /** The handles of q are in increasing id order, so no handle appears twice. */
  predicate IdsIncreasing(q: seq<Transaction>)
  {
    forall i, j :: 0 <= i < j < |q| ==> q[i].id < q[j].id
  }

  /** The queue of a kernel peq: (payload id, due time) pairs. */
  type Peq = seq<(nat, nat)>

  /** The entries of q not yet due at time now, in order. */
  function NotDue(q: Peq, now: nat): Peq
  {
    if q == [] then [] else (if q[0].1 > now then [q[0]] else []) + NotDue(q[1..], now)
  }

  /** The payload ids of the entries of q due at time now. */
  function DueIds(q: Peq, now: nat): set<nat>
  {
    if q == [] then {} else (if q[0].1 <= now then {q[0].0} else {}) + DueIds(q[1..], now)
  }

  class Initiator {
    /** The bus width W, sizeof(DATATYPE). */
    const width: nat
    const maxLength: nat
    /** The number of bound sockets. */
    const sockets: nat
    const mm: TlmMm.MemoryManager
    var currentSocket: nat
    /** A request awaits END_REQ; one flag for all sockets. */
    var launchOutstanding: bool
    var launchQueue: seq<Transaction>
    /** Handles by payload id. */
    var outstanding: map<nat, Transaction>
    var completeQueue: Peq
    /** The next unused payload id. */
    var nextId: nat

    ghost predicate Valid()
      reads this, mm
    {
      && width >= 1 && sockets >= 1 && currentSocket < sockets
      && mm.Valid() && mm.dsize == maxLength * width
      && (launchOutstanding ==> launchQueue != [])
      && (forall k :: k in outstanding ==> outstanding[k].id == k && k < nextId && outstanding[k].width == width)
      && (forall i :: 0 <= i < |launchQueue| ==> launchQueue[i].id < nextId && launchQueue[i].width == width)
      && (forall i, j :: 0 <= i < j < |launchQueue| ==> launchQueue[i].id < launchQueue[j].id)
    }

    /** The descriptor pool holds 20 payloads of maxLength words each. */
    constructor (w: nat, maxLen: nat, socketCount: nat)
      requires w >= 1 && socketCount >= 1
      ensures Valid()
      ensures width == w && maxLength == maxLen && sockets == socketCount
      ensures fresh(mm) && mm.size == 20 && mm.pool == []
      ensures currentSocket == 0 && !launchOutstanding && launchQueue == [] && outstanding == map[] && completeQueue == []
    {
      width, maxLength, sockets := w, maxLen, socketCount;
      mm := new TlmMm.MemoryManager(20, maxLen * w);
      currentSocket := 0;
      launchOutstanding := false;
      launchQueue, outstanding, completeQueue := [], map[], [];
      nextId := 0;
    }

    /** set_socket: later requests go out on socket id. */
    method SetSocket(id: nat)
      requires Valid() && id < sockets
      modifies this
      ensures Valid() && currentSocket == id
      ensures launchQueue == old(launchQueue) && outstanding == old(outstanding) && launchOutstanding == old(launchOutstanding)
      ensures completeQueue == old(completeQueue) && nextId == old(nextId)
    {
      currentSocket := id;
    }

    /** The first part of launch: a new handle joins the back of the launch queue and the outstanding map. */
    method Enqueue(p: Payload, delay: nat) returns (ts: Transaction)
      requires Valid()
      modifies this
      ensures Valid() && fresh(ts)
      ensures ts.request == p && ts.payload == p && ts.id == old(nextId) && ts.width == width
      ensures ts.wasAnnotated <==> delay != 0
      ensures ts.socketId == currentSocket == old(currentSocket)
      ensures !ts.doneFlag && !ts.doneFlagLocal
      ensures launchQueue == old(launchQueue) + [ts]
      ensures outstanding == old(outstanding)[ts.id := ts]
      ensures launchOutstanding == old(launchOutstanding) && completeQueue == old(completeQueue)
      ensures nextId == old(nextId) + 1
    {
      ts := new Transaction(p, nextId, width, delay != 0, currentSocket);
      launchQueue := launchQueue + [ts];
      outstanding := outstanding[ts.id := ts];
      nextId := nextId + 1;
    }

    /**
     * complete_local: the response is in; the handle completes at now+delay,
     * at once when delay is 0 and through the peq otherwise.
     */
    method CompleteLocal(ts: Transaction, delay: nat, now: nat)
      requires Valid() && ts.width >= 1
      modifies this, ts
      ensures Valid()
      ensures ts.doneFlagLocal && ts.doneTime == now + delay && ts.payload == old(ts.payload)
      ensures delay == 0 ==> ts.doneFlag && outstanding == old(outstanding) - {ts.id} && completeQueue == old(completeQueue)
      ensures delay != 0 ==> ts.doneFlag == old(ts.doneFlag) && outstanding == old(outstanding)
      ensures delay != 0 ==> completeQueue == old(completeQueue) + [(ts.id, now + delay)]
      ensures launchQueue == old(launchQueue) && launchOutstanding == old(launchOutstanding)
      ensures currentSocket == old(currentSocket) && nextId == old(nextId)
    {
      ts.NotifyLocal(now + delay);
      if delay == 0 {
        CompleteFinal(ts);
      } else {
        completeQueue := completeQueue + [(ts.id, now + delay)];
      }
    }

    /** complete_final: the handle leaves the outstanding map and is done. */
    method CompleteFinal(ts: Transaction)
      requires Valid() && ts.width >= 1 && ts.doneFlagLocal
      modifies this, ts
      ensures Valid()
      ensures ts.doneFlag && ts.doneFlagLocal && ts.doneTime == old(ts.doneTime) && ts.payload == old(ts.payload)
      ensures outstanding == old(outstanding) - {ts.id}
      ensures launchQueue == old(launchQueue) && launchOutstanding == old(launchOutstanding)
      ensures completeQueue == old(completeQueue) && currentSocket == old(currentSocket) && nextId == old(nextId)
    {
      outstanding := outstanding - {ts.id};
      ts.Notify();
    }

    /**
     * launch_update: while no request awaits END_REQ, send BEGIN_REQ for
     * the head of the launch queue, with the annotated delay threaded from
     * one call to the next (DelayIn). The head stays queued, with the flag
     * set, when the target keeps it in the request phase; otherwise it
     * leaves the queue, and it completes locally, at now plus the delay its
     * pass left, when the reply carries the response. delay' is the delay
     * as the run leaves it.
     */
    method LaunchUpdate(now: nat, delay: nat, replies: Replies) returns (sent: nat, delay': nat)
      requires Valid()
      modifies this, set t | t in launchQueue
      ensures Valid()
      ensures sent <= |old(launchQueue)| && launchQueue == old(launchQueue)[sent..]
      ensures launchOutstanding || launchQueue == []
      ensures old(launchOutstanding) ==> sent == 0 && launchOutstanding && delay' == delay
      ensures !old(launchOutstanding) && launchOutstanding ==> delay' == ReplyAt(delay, replies, sent).delay
      ensures !launchOutstanding ==> delay' == DelayIn(delay, replies, sent)
      ensures forall i :: 0 <= i < sent && Responded(ReplyAt(delay, replies, i).sync, ReplyAt(delay, replies, i).phase) ==>
        old(launchQueue)[i].doneFlagLocal && old(launchQueue)[i].doneTime == now + DelayIn(delay, replies, i + 1)
      ensures currentSocket == old(currentSocket) && nextId == old(nextId)
      ensures forall k :: k in outstanding ==> k in old(outstanding) && outstanding[k] == old(outstanding)[k]
      ensures forall i :: 0 <= i < |old(launchQueue)| && old(launchQueue)[i].id in old(outstanding) && old(launchQueue)[i].id !in outstanding ==>
        i < sent && old(launchQueue)[i].doneFlag
    {
      sent, delay' := RunLaunchQueue(now, delay, replies);
    }

    /** The loop of launch_update, stated through Launched and DelayLeft. */
    method RunLaunchQueue(now: nat, delay: nat, replies: Replies) returns (sent: nat, delay': nat)
      requires Valid()
      modifies this, set t | t in launchQueue
      ensures Valid() && Launched(old(launchQueue), old(outstanding), sent, now, delay, replies)
      ensures launchOutstanding || launchQueue == []
      ensures old(launchOutstanding) ==> sent == 0 && launchOutstanding && delay' == delay
      ensures !old(launchOutstanding) ==> DelayLeft(delay, replies, sent, delay')
      ensures currentSocket == old(currentSocket) && nextId == old(nextId)
    {
      sent, delay' := 0, delay;
      ghost var q, before := launchQueue, outstanding;
      while !launchOutstanding && launchQueue != []
        invariant Valid() && Launched(q, before, sent, now, delay, replies)
        invariant old(launchOutstanding) ==> sent == 0 && launchOutstanding && delay' == delay
        invariant !old(launchOutstanding) ==> DelayLeft(delay, replies, sent, delay')
        invariant IdsIncreasing(q)
        invariant currentSocket == old(currentSocket) && nextId == old(nextId)
        decreases |launchQueue|, !launchOutstanding
      {
        // a held head sets launch_outstanding, which ends the loop as the return does
        var held;
        held, delay' := LaunchNext(now, delay, replies, q, before, sent, delay');
        if !held {
          sent := sent + 1;
        }
      }
    }

    /**
     * What launch_update, given `delay`, knows once the first `sent`
     * requests of q have left the launch queue, `before` being the
     * outstanding map it started from.
     */
    ghost predicate Launched(q: seq<Transaction>, before: map<nat, Transaction>, sent: nat, now: nat, delay: nat, replies: Replies)
      reads this, set t | t in q
    {
      && sent <= |q| && launchQueue == q[sent..]
      && (forall i :: 0 <= i < sent && Responded(ReplyAt(delay, replies, i).sync, ReplyAt(delay, replies, i).phase) ==>
            q[i].doneFlagLocal && q[i].doneTime == now + DelayIn(delay, replies, i + 1))
      && (forall k :: k in outstanding ==> k in before && outstanding[k] == before[k])
      && (forall i :: 0 <= i < |q| && q[i].id in before && q[i].id !in outstanding ==> i < sent && q[i].doneFlag)
    }

    /**
     * The delay d as launch_update, given `delay`, leaves it after `sent`
     * requests went out: the delay for the next call, or, once a request is
     * held, the one its BEGIN_REQ call left.
     */
    ghost predicate DelayLeft(delay: nat, replies: Replies, sent: nat, d: nat)
      reads this
    {
      && (!launchOutstanding ==> d == DelayIn(delay, replies, sent))
      && (launchOutstanding ==> d == ReplyAt(delay, replies, sent).delay)
    }

    /**
     * One pass of the launch_update loop: the request at index `sent` of q
     * goes out with annotated delay d, the delay the earlier passes left.
     */
    method LaunchNext(now: nat, delay: nat, replies: Replies, ghost q: seq<Transaction>, ghost before: map<nat, Transaction>,
                      sent: nat, d: nat)
      returns (held: bool, d': nat)
      requires Valid() && !launchOutstanding && launchQueue != []
      requires Launched(q, before, sent, now, delay, replies) && DelayLeft(delay, replies, sent, d)
      requires IdsIncreasing(q)
      modifies this, launchQueue[0]
      ensures Valid() && currentSocket == old(currentSocket) && nextId == old(nextId)
      ensures held <==> launchOutstanding
      ensures Launched(q, before, if held then sent else sent + 1, now, delay, replies)
      ensures DelayLeft(delay, replies, if held then sent else sent + 1, d')
    {
      held, d' := LaunchHead(now, replies(sent, d));
      assert forall i :: 0 <= i < |q| && i != sent ==> q[i] != q[sent];
    }

    /**
     * One pass of launch_update: BEGIN_REQ for the head of the launch queue,
     * answered with r, then what LaunchStepFor decides; d' is the annotated
     * delay as the pass leaves it.
     */
    method LaunchHead(now: nat, r: FwReply) returns (held: bool, d': nat)
      requires Valid() && !launchOutstanding && launchQueue != []
      modifies this, launchQueue[0]
      ensures Valid()
      ensures held <==> r.sync == Accepted || r.phase == BeginReq
      ensures held ==> launchOutstanding && launchQueue == old(launchQueue) && outstanding == old(outstanding) && d' == r.delay
      ensures !held ==> !launchOutstanding && launchQueue == old(launchQueue)[1..] && d' == ResponseDelay(r)
      ensures !held && Responded(r.sync, r.phase) ==>
        old(launchQueue)[0].doneFlagLocal && old(launchQueue)[0].doneTime == now + d'
      ensures currentSocket == old(currentSocket) && nextId == old(nextId)
      ensures outstanding == old(outstanding) || outstanding == old(outstanding) - {old(launchQueue)[0].id}
      ensures old(launchQueue)[0].id in old(outstanding) && old(launchQueue)[0].id !in outstanding ==> old(launchQueue)[0].doneFlag
    {
      var ts := launchQueue[0];
      ts.payload := r.payload;
      d' := r.delay;
      var step := LaunchStepFor(r.sync, r.phase);
      LaunchStepSound(r.sync, r.phase);
      if step.AwaitEndReq? {
        launchOutstanding := true;
        return true, d';
      }
      launchQueue := launchQueue[1..];
      if step.sendEndResp {
        d' := r.endRespDelay;
      }
      if step.complete {
        CompleteLocal(ts, d', now);
      }
      return false, d';
    }

    /** launch_method: the launch event restarts the queue with no annotation. */
    method LaunchMethod(now: nat, replies: Replies) returns (sent: nat)
      requires Valid()
      modifies this, set t | t in launchQueue
      ensures Valid()
      ensures sent <= |old(launchQueue)| && launchQueue == old(launchQueue)[sent..]
      ensures launchOutstanding || launchQueue == []
      ensures old(launchOutstanding) ==> sent == 0 && launchOutstanding
      ensures forall i :: 0 <= i < sent && Responded(ReplyAt(0, replies, i).sync, ReplyAt(0, replies, i).phase) ==>
        old(launchQueue)[i].doneFlagLocal && old(launchQueue)[i].doneTime == now + DelayIn(0, replies, i + 1)
      ensures currentSocket == old(currentSocket) && nextId == old(nextId)
      ensures forall k :: k in outstanding ==> k in old(outstanding) && outstanding[k] == old(outstanding)[k]
      ensures forall i :: 0 <= i < |old(launchQueue)| && old(launchQueue)[i].id in old(outstanding) && old(launchQueue)[i].id !in outstanding ==>
        i < sent && old(launchQueue)[i].doneFlag
    {
      var delayLeft;
      sent, delayLeft := LaunchUpdate(now, 0, replies);
    }

    /**
     * launch: enqueue a request and try to send it at once, the first
     * BEGIN_REQ call carrying the caller's delay; delay' is the delay as the
     * run leaves it.
     */
    method Launch(p: Payload, delay: nat, now: nat, replies: Replies) returns (ts: Transaction, delay': nat)
      requires Valid()
      modifies this, set t | t in launchQueue
      ensures Valid() && fresh(ts)
      ensures ts.request == p && ts.id == old(nextId) && ts.socketId == old(currentSocket)
      ensures ts.wasAnnotated <==> delay != 0
      ensures exists k :: 0 <= k <= |old(launchQueue)| + 1 && launchQueue == (old(launchQueue) + [ts])[k..]
      ensures launchOutstanding || launchQueue == []
      ensures old(launchOutstanding) ==> launchOutstanding && launchQueue == old(launchQueue) + [ts] && delay' == delay
      ensures !launchOutstanding ==> delay' == DelayIn(delay, replies, |old(launchQueue)| + 1)
      ensures !old(launchOutstanding) && launchOutstanding ==> delay' == ReplyAt(delay, replies, |old(launchQueue)| + 1 - |launchQueue|).delay
      ensures !launchOutstanding && Responded(ReplyAt(delay, replies, |old(launchQueue)|).sync, ReplyAt(delay, replies, |old(launchQueue)|).phase) ==>
        ts.doneFlagLocal && ts.doneTime == now + delay'
      ensures ts.id in outstanding ==> outstanding[ts.id] == ts
      ensures ts.id in outstanding || ts.doneFlag
      ensures forall k :: k in outstanding && k != ts.id ==> k in old(outstanding) && outstanding[k] == old(outstanding)[k]
      ensures nextId == old(nextId) + 1 && currentSocket == old(currentSocket)
    {
      ts := Enqueue(p, delay);
      ghost var queued := launchQueue;
      ghost var pending := outstanding;
      var sent;
      sent, delay' := LaunchUpdate(now, delay, replies);
      assert launchQueue == queued[sent..];
      assert queued[|queued| - 1] == ts && ts.id in pending;
    }

    /** nb_read: a READ of length words, built on a pooled descriptor. */
    method NbRead(addr: nat, length: nat, delayInitial: nat, now: nat, replies: Replies, heapData: seq<byte>, heapBe: seq<byte>)
      returns (ts: Transaction)
      requires Valid() && length <= maxLength
      requires |heapData| == maxLength * width && |heapBe| == maxLength * width
      modifies this, mm, set t | t in launchQueue
      ensures Valid() && fresh(ts)
      ensures exists p ::
        TlmMm.Initialised(p) && TlmMm.OwnBuffers(p, maxLength * width) && (old(mm.pool) == [] ==> p.data == heapData && p.byteEnable == heapBe)
        && ts.request == ReadRequest(p, addr, length, width)
      ensures ts.id == old(nextId) && (ts.wasAnnotated <==> delayInitial != 0)
      ensures exists k :: 0 <= k <= |old(launchQueue)| + 1 && launchQueue == (old(launchQueue) + [ts])[k..]
      ensures launchOutstanding || launchQueue == []
      ensures !launchOutstanding && Responded(ReplyAt(delayInitial, replies, |old(launchQueue)|).sync, ReplyAt(delayInitial, replies, |old(launchQueue)|).phase) ==>
        ts.doneFlagLocal && ts.doneTime == now + DelayIn(delayInitial, replies, |old(launchQueue)| + 1)
      ensures ts.id in outstanding || ts.doneFlag
      ensures nextId == old(nextId) + 1 && currentSocket == old(currentSocket)
    {
      var p := mm.Alloc(heapData, heapBe);
      var req := ReadRequest(p, addr, length, width);
      var delayLeft;  // delay_initial is a copy: the caller's delay is not changed
      ts, delayLeft := Launch(req, delayInitial, now, replies);
    }

    /** The data-only nb_write: 1 to maxLength words, copied into a pooled descriptor. */
    method NbWrite(addr: nat, ws: seq<nat>, delayInitial: nat, now: nat, replies: Replies, heapData: seq<byte>, heapBe: seq<byte>)
      returns (ts: Transaction)
      requires Valid() && 1 <= |ws| <= maxLength
      requires |heapData| == maxLength * width && |heapBe| == maxLength * width
      modifies this, mm, set t | t in launchQueue
      ensures Valid() && fresh(ts)
      ensures exists p ::
        TlmMm.Initialised(p) && TlmMm.OwnBuffers(p, maxLength * width) && (old(mm.pool) == [] ==> p.data == heapData && p.byteEnable == heapBe)
        && ts.request == WriteRequest(p, addr, ws, width)
      ensures ts.id == old(nextId) && (ts.wasAnnotated <==> delayInitial != 0)
      ensures exists k :: 0 <= k <= |old(launchQueue)| + 1 && launchQueue == (old(launchQueue) + [ts])[k..]
      ensures launchOutstanding || launchQueue == []
      ensures !launchOutstanding && Responded(ReplyAt(delayInitial, replies, |old(launchQueue)|).sync, ReplyAt(delayInitial, replies, |old(launchQueue)|).phase) ==>
        ts.doneFlagLocal && ts.doneTime == now + DelayIn(delayInitial, replies, |old(launchQueue)| + 1)
      ensures ts.id in outstanding || ts.doneFlag
      ensures nextId == old(nextId) + 1 && currentSocket == old(currentSocket)
    {
      var p := mm.Alloc(heapData, heapBe);
      MulMonotone(|ws|, maxLength, width);
      var req := WriteRequest(p, addr, ws, width);
      var delayLeft;  // delay_initial is a copy: the caller's delay is not changed
      ts, delayLeft := Launch(req, delayInitial, now, replies);
    }

    /**
     * The strobed nb_write: as the data-only write, with the strobe words
     * expanded into the byte-enable buffer by the strobe loop.
     */
    method NbWriteStrobed(addr: nat, ws: seq<nat>, strb: seq<nat>, delayInitial: nat, now: nat, replies: Replies,
                          heapData: seq<byte>, heapBe: seq<byte>)
      returns (ts: Transaction)
      requires Valid() && 1 <= |ws| <= maxLength && |strb| == |ws|
      requires |heapData| == maxLength * width && |heapBe| == maxLength * width
      modifies this, mm, set t | t in launchQueue
      ensures Valid() && fresh(ts)
      ensures exists p ::
        TlmMm.Initialised(p) && TlmMm.OwnBuffers(p, maxLength * width) && (old(mm.pool) == [] ==> p.data == heapData && p.byteEnable == heapBe)
        && ts.request == StrobedWriteRequest(p, addr, ws, strb, width)
      ensures ts.id == old(nextId) && (ts.wasAnnotated <==> delayInitial != 0)
      ensures exists k :: 0 <= k <= |old(launchQueue)| + 1 && launchQueue == (old(launchQueue) + [ts])[k..]
      ensures launchOutstanding || launchQueue == []
      ensures !launchOutstanding && Responded(ReplyAt(delayInitial, replies, |old(launchQueue)|).sync, ReplyAt(delayInitial, replies, |old(launchQueue)|).phase) ==>
        ts.doneFlagLocal && ts.doneTime == now + DelayIn(delayInitial, replies, |old(launchQueue)| + 1)
      ensures ts.id in outstanding || ts.doneFlag
      ensures nextId == old(nextId) + 1 && currentSocket == old(currentSocket)
    {
      var p := mm.Alloc(heapData, heapBe);
      MulMonotone(|ws|, maxLength, width);
      var n := |ws| * width;
      var req := WriteRequest(p, addr, ws, width).(beLength := n);
      var be, allEnabled := ExpandStrobes(strb, width, req.byteEnable);
      req := req.(byteEnable := be);
      if allEnabled {
        req := req.(beLength := 0);
      }
      assert be == Expand(strb, width) + p.byteEnable[n..] by {
        assert be == be[..n] + be[n..];
      }
      MulMonotone(1, |ws|, width);
      assert req == StrobedWriteRequest(p, addr, ws, strb, width);
      var delayLeft;  // delay_initial is a copy: the caller's delay is not changed
      ts, delayLeft := Launch(req, delayInitial, now, replies);
    }

    /**
     * nb_transport_bw: END_REQ releases the head of the launch queue (the
     * launch event then calls LaunchMethod); BEGIN_RESP completes the
     * handle locally and is acknowledged with END_RESP and TLM_COMPLETED.
     */
    method NbTransportBw(socket: nat, id: nat, phase: Phase, delay: nat, response: Payload, now: nat)
      returns (sync: SyncEnum, phase': Phase)
      requires Valid()
      requires phase != BeginReq && phase != EndResp
      requires phase == EndReq ==> launchOutstanding && launchQueue[0].id == id
      requires phase == BeginResp ==> id in outstanding && outstanding[id].socketId == socket
      modifies this, outstanding.Values
      ensures Valid()
      ensures phase == EndReq ==> sync == Accepted && phase' == EndReq && !launchOutstanding
      ensures phase == EndReq ==> launchQueue == old(launchQueue)[1..]
      ensures phase == EndReq ==> outstanding == old(outstanding) && completeQueue == old(completeQueue)
      ensures phase == BeginResp ==> sync == Completed && phase' == EndResp
      ensures phase == BeginResp ==> launchQueue == old(launchQueue) && launchOutstanding == old(launchOutstanding)
      ensures phase == BeginResp ==> old(outstanding)[id].doneFlagLocal && old(outstanding)[id].doneTime == now + delay
      ensures phase == BeginResp ==> old(outstanding)[id].payload == response
      ensures phase == BeginResp && delay == 0 ==> old(outstanding)[id].doneFlag
      ensures phase == BeginResp && delay == 0 ==> outstanding == old(outstanding) - {id} && completeQueue == old(completeQueue)
      ensures phase == BeginResp && delay != 0 ==> outstanding == old(outstanding)
      ensures phase == BeginResp && delay != 0 ==> completeQueue == old(completeQueue) + [(id, now + delay)]
    {
      if phase == EndReq {
        launchQueue := launchQueue[1..];
        launchOutstanding := false;
        return Accepted, phase;
      }
      var ts := outstanding[id];
      ts.payload := response;
      CompleteLocal(ts, delay, now);
      return Completed, EndResp;
    }

    /**
     * complete_method: every peq entry due at time now finalises its
     * handle, in queue order; the entries not yet due stay queued.
     */
    method CompleteMethod(now: nat)
      requires Valid()
      requires DueReady(completeQueue, 0, now)
      modifies this, outstanding.Values
      ensures Valid()
      ensures completeQueue == NotDue(old(completeQueue), now)
      ensures outstanding == old(outstanding) - DueIds(old(completeQueue), now)
      ensures forall k :: k in DueIds(old(completeQueue), now) ==> k in old(outstanding) && old(outstanding)[k].doneFlag
      ensures launchQueue == old(launchQueue) && launchOutstanding == old(launchOutstanding)
    {
      var q := completeQueue;
      var rest: Peq := [];
      var i := 0;
      while i < |q|
        invariant 0 <= i <= |q| && Valid() && q == old(completeQueue)
        invariant Drained(q, i, now, rest, old(outstanding)) && DueReady(q, i, now)
        invariant launchQueue == old(launchQueue) && launchOutstanding == old(launchOutstanding)
      {
        rest := CompleteStep(q, i, now, rest, old(outstanding));
        i := i + 1;
      }
      assert q[..i] == q;
      completeQueue := rest;
    }

    /**
     * The first i entries of q have been handled: the ones not due are
     * kept in rest, the due ones are gone from the map and their handles
     * (as the map `before` held them) are done.
     */
    ghost predicate Drained(q: Peq, i: nat, now: nat, rest: Peq, before: map<nat, Transaction>)
      requires i <= |q|
      reads this, before.Values
    {
      && rest == NotDue(q[..i], now)
      && outstanding == before - DueIds(q[..i], now)
      && (forall k :: k in DueIds(q[..i], now) ==> k in before && before[k].doneFlag)
    }

    /** One entry of complete_method: a due entry finalises its handle, a later one is kept. */
    method CompleteStep(q: Peq, i: nat, now: nat, rest: Peq, ghost before: map<nat, Transaction>) returns (rest': Peq)
      requires Valid() && i < |q| && Drained(q, i, now, rest, before) && DueReady(q, i, now)
      modifies this, before.Values
      ensures Valid() && Drained(q, i + 1, now, rest', before) && DueReady(q, i + 1, now)
      ensures launchQueue == old(launchQueue) && launchOutstanding == old(launchOutstanding)
    {
      assert q[..i + 1] == q[..i] + [q[i]];
      NotDueSnoc(q[..i], q[i], now);
      if q[i].1 <= now {
        CompleteEntry(q, i, now, rest, before);
        rest' := rest;
      } else {
        rest' := rest + [q[i]];
      }
    }

    /** A due entry of complete_method: its handle is finalised. */
    method CompleteEntry(q: Peq, i: nat, now: nat, rest: Peq, ghost before: map<nat, Transaction>)
      requires Valid() && i < |q| && q[i].1 <= now && Drained(q, i, now, rest, before) && DueReady(q, i, now)
      requires DueIds(q[..i + 1], now) == DueIds(q[..i], now) + {q[i].0}
      requires NotDue(q[..i + 1], now) == NotDue(q[..i], now)
      modifies this, before.Values
      ensures Valid() && Drained(q, i + 1, now, rest, before) && DueReady(q, i + 1, now)
      ensures launchQueue == old(launchQueue) && launchOutstanding == old(launchOutstanding)
    {
      var ts := outstanding[q[i].0];
      assert ts == before[q[i].0];
      CompleteFinal(ts);
    }

    /** The due entries of q from position i on have distinct ids and name handles whose response is in. */
    ghost predicate DueReady(q: Peq, i: nat, now: nat)
      reads this, outstanding.Values
    {
      && (forall j :: i <= j < |q| && q[j].1 <= now ==> q[j].0 in outstanding && outstanding[q[j].0].doneFlagLocal)
      && (forall j, k :: i <= j < k < |q| && q[j].1 <= now && q[k].1 <= now ==> q[j].0 != q[k].0)
    }
  }

  /** NotDue keeps exactly the entries due after now. */
  lemma {:induction false} NotDueMembers(q: Peq, now: nat)
    ensures forall e :: e in NotDue(q, now) <==> e in q && e.1 > now
  {
    if q != [] {
      NotDueMembers(q[1..], now);
      assert q == [q[0]] + q[1..];
    }
  }

  /** DueIds holds exactly the ids of the entries due by now. */
  lemma {:induction false} DueIdsMembers(q: Peq, now: nat)
    ensures forall k :: k in DueIds(q, now) <==> exists e :: e in q && e.1 <= now && e.0 == k
  {
    if q != [] {
      DueIdsMembers(q[1..], now);
      assert q == [q[0]] + q[1..];
    }
  }

  lemma {:induction false} NotDueSnoc(q: Peq, e: (nat, nat), now: nat)
    ensures NotDue(q + [e], now) == NotDue(q, now) + (if e.1 > now then [e] else [])
    ensures DueIds(q + [e], now) == DueIds(q, now) + (if e.1 <= now then {e.0} else {})
  {
    if q != [] {
      assert (q + [e])[1..] == q[1..] + [e];
      NotDueSnoc(q[1..], e, now);
    }
  }
}
