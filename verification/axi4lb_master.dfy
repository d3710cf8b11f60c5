/**
 * The AXI4 burst master adapter (dlsc_axi4lb_tlm_master_template): TLM
 * requests arriving at its target become AXI bursts. Reads go AR queue ->
 * R queue -> completion, writes AW queue -> W queue -> B queue ->
 * completion. Every clock edge runs reset, or the five channel methods in
 * the order AR, R, AW, W, B. The sampled input pins are parameters and
 * the driven output pins are fields.
 */
module Axi4lbMaster {
  import opened Tlm
  import opened BusJob
  import opened AxiTypes

  /** The driven side of an address channel: AxVALID, AxADDR, AxLEN. */
  datatype AddrOut = AddrOut(valid: bool, addr: nat, len: nat)

  const ADDR_IDLE := AddrOut(false, 0, 0)

  /** The driven side of the write data channel: WVALID, WLAST, WDATA, WSTRB. */
  datatype WriteOut = WriteOut(valid: bool, last: bool, data: nat, strb: nat)

  const WRITE_IDLE := WriteOut(false, false, 0, 0)

  /** The pins sampled on a rising clock edge. */
  datatype Inputs = Inputs(
    arReady: bool,
    rValid: bool, rLast: bool, rData: nat, rResp: nat,
    awReady: bool,
    wReady: bool,
    bValid: bool, bResp: nat)

  /** The status a non-OKAY RRESP or BRESP sets. */
  function ErrorStatus(resp: nat): (s: ResponseStatus)
    ensures s != Ok && s != Incomplete
    ensures s == CommandError <==> resp == RESP_SLVERR
    ensures s == AddressError <==> resp == RESP_DECERR
  {
    if resp == RESP_SLVERR then CommandError
    else if resp == RESP_DECERR then AddressError
    else GenericError
  }

  /** The status after one response beat: OKAY leaves it alone, anything else sets an error. */
  function AfterResp(s: ResponseStatus, resp: nat): (r: ResponseStatus)
    ensures r == Ok ==> s == Ok && resp == RESP_OKAY
    ensures resp != RESP_OKAY ==> r == ErrorStatus(resp)
  {
    if resp == RESP_OKAY then s else ErrorStatus(resp)
  }

  /** The status after a sequence of response beats. */
  function AfterResps(s: ResponseStatus, resps: seq<nat>): ResponseStatus
    decreases |resps|
  {
    if resps == [] then s else AfterResps(AfterResp(s, resps[0]), resps[1..])
  }

  /**
   * A transaction preset to OK stays OK exactly when every beat answered
   * OKAY: an error status is never set back to OK.
   */
  lemma {:induction false} OkIffAllOkay(s: ResponseStatus, resps: seq<nat>)
    decreases |resps|
    ensures AfterResps(s, resps) == Ok <==> s == Ok && forall i :: 0 <= i < |resps| ==> resps[i] == RESP_OKAY
  {
    if resps != [] {
      OkIffAllOkay(AfterResp(s, resps[0]), resps[1..]);
      assert forall i :: 1 <= i < |resps| ==> resps[i] == resps[1..][i - 1];
    }
  }

  /** A non-OKAY beat decides the status unless a later non-OKAY beat overrides it. */
  lemma {:induction false} LastErrorWins(s: ResponseStatus, resps: seq<nat>, k: nat)
    decreases |resps|
    requires k < |resps| && resps[k] != RESP_OKAY
    requires forall i :: k < i < |resps| ==> resps[i] == RESP_OKAY
    ensures AfterResps(s, resps) == ErrorStatus(resps[k])
  {
    if k == 0 {
      AllOkayKeeps(AfterResp(s, resps[0]), resps[1..]);
    } else {
      LastErrorWins(AfterResp(s, resps[0]), resps[1..], k - 1);
    }
  }

  lemma {:induction false} AllOkayKeeps(s: ResponseStatus, resps: seq<nat>)
    requires forall i :: 0 <= i < |resps| ==> resps[i] == RESP_OKAY
    ensures AfterResps(s, resps) == s
  {
    if resps != [] {
      AllOkayKeeps(s, resps[1..]);
    }
  }

  /** The read side of what a clock can change: AR and R queues, the R beats so far, ARVALID/ARADDR/ARLEN, RREADY, completions and reports. */
  datatype ReadState = ReadState(
    arQueue: seq<ReadJob>, rQueue: seq<ReadJob>, rData: seq<nat>, ar: AddrOut, rReady: bool,
    completed: seq<Job>, errors: nat)

  /** The write side of what a clock can change: AW, W and B queues, the W beats to go, the AW, W and BREADY pins, completions and reports. */
  datatype WriteState = WriteState(
    awQueue: seq<WriteJob>, wQueue: seq<WriteJob>, wData: seq<nat>, wStrb: seq<nat>, bQueue: seq<WriteJob>,
    aw: AddrOut, w: WriteOut, bReady: bool, completed: seq<Job>, errors: nat)

  /** ar_method from state s. */
  function AfterAr(s: ReadState, arReady: bool): ReadState
  {
    if s.ar.valid && !arReady then s
    else if s.arQueue != [] then
      var ts := s.arQueue[0];
      s.(arQueue := s.arQueue[1..], rQueue := s.rQueue + [ts], ar := AddrOut(true, ts.address % ADDR_LIMIT, ts.size - 1))
    else s.(ar := ADDR_IDLE)
  }

  /** r_method from state s. */
  function AfterR(s: ReadState, rValid: bool, rLast: bool, data: nat, resp: nat): ReadState
  {
    if rValid && s.rReady then
      if s.rQueue == [] then s.(errors := s.errors + 1)
      else
        var h := s.rQueue[0];
        var got := s.rData + [data];
        var st := AfterResp(h.status, resp);
        if rLast || |got| >= h.size then
          s.(completed := s.completed + [h.(status := st, data := Resized(got, h.size))], rQueue := s.rQueue[1..],
             rData := [], errors := s.errors + (if rLast && |got| == h.size then 0 else 1))
        else s.(rQueue := s.rQueue[0 := h.(status := st)], rData := got)
    else if !s.rReady then s.(rReady := true)
    else s
  }

  /** aw_method from state s. */
  function AfterAw(s: WriteState, awReady: bool): WriteState
  {
    if s.aw.valid && !awReady then s
    else if s.awQueue != [] then
      var ts := s.awQueue[0];
      s.(awQueue := s.awQueue[1..], wQueue := s.wQueue + [ts], aw := AddrOut(true, ts.address % ADDR_LIMIT, ts.size - 1))
    else s.(aw := ADDR_IDLE)
  }

  /** Once the previous write's beats are all sent, the next write whose AW has gone out loads its data and moves to B. */
  function AfterLoadW(s: WriteState): WriteState
  {
    if s.wData == [] && s.wQueue != [] then
      var ts := s.wQueue[0];
      s.(wQueue := s.wQueue[1..], wData := ts.data, wStrb := ts.strobes, bQueue := s.bQueue + [ts])
    else s
  }

  /** The next W beat driven, WLAST on the last, or the channel idle with none left. */
  function AfterDriveW(s: WriteState): WriteState
    requires |s.wData| == |s.wStrb|
  {
    if s.wData != [] then
      s.(w := WriteOut(true, |s.wData| == 1, s.wData[0], s.wStrb[0]), wData := s.wData[1..], wStrb := s.wStrb[1..])
    else s.(w := WRITE_IDLE)
  }

  /** w_method from state s, whose data and strobe queues are of one length. */
  function AfterW(s: WriteState, wReady: bool): WriteState
    requires |s.wData| == |s.wStrb|
  {
    if s.w.valid && !wReady then s else AfterDriveW(AfterLoadW(s))
  }

  /** b_method from state s. */
  function AfterB(s: WriteState, bValid: bool, resp: nat): WriteState
  {
    if bValid && s.bReady then
      if s.bQueue == [] then s.(errors := s.errors + 1)
      else s.(completed := s.completed + [s.bQueue[0].(status := AfterResp(s.bQueue[0].status, resp))], bQueue := s.bQueue[1..])
    else if !s.bReady then s.(bReady := true)
    else s
  }

  class Master {
    var arQueue: seq<ReadJob>
    var rQueue: seq<ReadJob>
    var rData: seq<nat>
    var awQueue: seq<WriteJob>
    var wQueue: seq<WriteJob>
    var wData: seq<nat>
    var wStrb: seq<nat>
    var bQueue: seq<WriteJob>
    /** The write whose remaining beats are in wData and wStrb. */
    ghost var wJob: WriteJob
    var ar: AddrOut
    var rReady: bool
    var aw: AddrOut
    var w: WriteOut
    var bReady: bool
    /** Every complete() call, in order. */
    var completed: seq<Job>
    /** dlsc_error reports. */
    var errors: nat

    ghost predicate Valid()
      reads this
    {
      ReadSideValid() && WriteSideValid()
    }

    /** The R beats collected so far belong to the R queue head and stop short of its size. */
    ghost predicate ReadSideValid()
      reads this`rQueue, this`rData
    {
      && (rQueue == [] ==> rData == [])
      && (rQueue != [] ==> |rData| < rQueue[0].size)
    }

    /** The W beats still to send are the tail of one write's data and strobes. */
    ghost predicate WriteSideValid()
      reads this`wData, this`wStrb, this`wJob
    {
      && |wData| == |wStrb| && |wData| < wJob.size
      && wData == wJob.data[wJob.size - |wData|..]
      && wStrb == wJob.strobes[wJob.size - |wData|..]
    }

    function ReadSide(): ReadState
      reads this`arQueue, this`rQueue, this`rData, this`ar, this`rReady, this`completed, this`errors
    {
      ReadState(arQueue, rQueue, rData, ar, rReady, completed, errors)
    }

    function WriteSide(): WriteState
      reads this`awQueue, this`wQueue, this`wData, this`wStrb, this`bQueue, this`aw, this`w, this`bReady
      reads this`completed, this`errors
    {
      WriteState(awQueue, wQueue, wData, wStrb, bQueue, aw, w, bReady, completed, errors)
    }

    /** How many transactions the adapter holds or has completed. */
    ghost function Held(): nat
      reads this
    {
      |arQueue| + |rQueue| + |awQueue| + |wQueue| + |bQueue| + |completed|
    }

    constructor ()
      ensures Valid()
      ensures arQueue == [] && rQueue == [] && awQueue == [] && wQueue == [] && bQueue == []
      ensures rData == [] && wData == [] && wStrb == [] && completed == [] && errors == 0
      ensures ar == ADDR_IDLE && aw == ADDR_IDLE && w == WRITE_IDLE && !rReady && !bReady
    {
      arQueue, rQueue, awQueue, wQueue, bQueue := [], [], [], [], [];
      rData, wData, wStrb, completed, errors := [], [], [], [], 0;
      wJob := Job(0, true, 0, 1, [0], [0], Ok);
      ar, aw, w, rReady, bReady := ADDR_IDLE, ADDR_IDLE, WRITE_IDLE, false, false;
    }

    /** target_callback: preset OK, then queue writes for AW and reads for AR. */
    method TargetCallback(j: Job)
      requires j.Valid()
      modifies this`arQueue, this`awQueue
      ensures j.write ==> awQueue == old(awQueue) + [j.(status := Ok)] && arQueue == old(arQueue)
      ensures !j.write ==> arQueue == old(arQueue) + [j.(status := Ok)] && awQueue == old(awQueue)
    {
      var ts := j.(status := Ok);
      if ts.write {
        awQueue := awQueue + [ts];
      } else {
        arQueue := arQueue + [ts];
      }
    }

    /**
     * clk_method: reset, or one cycle of every channel. No transaction is
     * lost or duplicated, and completions are only ever appended.
     */
    method Clock(rst: bool, pins: Inputs)
      requires Valid()
      modifies this
      ensures Valid() && Held() == old(Held())
      ensures old(completed) <= completed
      ensures rst ==>
                var log := old(completed) + Incompleted(old(arQueue)) + Incompleted(old(rQueue))
                           + Incompleted(old(awQueue)) + Incompleted(old(wQueue)) + Incompleted(old(bQueue));
                && ReadSide() == ReadState([], [], [], ADDR_IDLE, false, log, old(errors))
                && WriteSide() == WriteState([], [], [], [], [], ADDR_IDLE, WRITE_IDLE, false, log, old(errors))
      ensures !rst ==>
                var r := AfterR(AfterAr(old(ReadSide()), pins.arReady), pins.rValid, pins.rLast, pins.rData, pins.rResp);
                var ws := old(WriteSide()).(completed := r.completed, errors := r.errors);
                var wr := AfterB(AfterW(AfterAw(ws, pins.awReady), pins.wReady), pins.bValid, pins.bResp);
                ReadSide() == r.(completed := wr.completed, errors := wr.errors) && WriteSide() == wr
    {
      if rst {
        Reset();
      } else {
        Cycle(pins);
      }
    }

    /** A clock edge out of reset: ar_method and r_method, then aw_method, w_method and b_method. */
    method Cycle(pins: Inputs)
      requires Valid()
      modifies this`arQueue, this`rQueue, this`rData, this`ar, this`rReady, this`completed, this`errors
      modifies this`awQueue, this`wQueue, this`bQueue, this`wData, this`wStrb, this`wJob, this`aw, this`w, this`bReady
      ensures Valid() && Held() == old(Held())
      ensures old(completed) <= completed
      ensures var r := AfterR(AfterAr(old(ReadSide()), pins.arReady), pins.rValid, pins.rLast, pins.rData, pins.rResp);
              var ws := old(WriteSide()).(completed := r.completed, errors := r.errors);
              var wr := AfterB(AfterW(AfterAw(ws, pins.awReady), pins.wReady), pins.bValid, pins.bResp);
              ReadSide() == r.(completed := wr.completed, errors := wr.errors) && WriteSide() == wr
    {
      ghost var w0 := WriteSide();
      ReadChannels(pins);
      ghost var r := ReadSide();
      assert WriteSide() == w0.(completed := r.completed, errors := r.errors);
      WriteChannels(pins);
    }

    /** ar_method then r_method. */
    method ReadChannels(pins: Inputs)
      requires ReadSideValid()
      modifies this`arQueue, this`rQueue, this`rData, this`ar, this`rReady, this`completed, this`errors
      ensures ReadSideValid() && |arQueue| + |rQueue| + |completed| == old(|arQueue| + |rQueue| + |completed|)
      ensures old(completed) <= completed
      ensures ReadSide() == AfterR(AfterAr(old(ReadSide()), pins.arReady), pins.rValid, pins.rLast, pins.rData, pins.rResp)
    {
      ArStep(pins.arReady);
      RStep(pins.rValid, pins.rLast, pins.rData, pins.rResp);
    }

    /** aw_method, w_method, then b_method. */
    method WriteChannels(pins: Inputs)
      requires WriteSideValid()
      modifies this`awQueue, this`wQueue, this`bQueue, this`wData, this`wStrb, this`wJob, this`aw, this`w
      modifies this`bReady, this`completed, this`errors
      ensures WriteSideValid() && |awQueue| + |wQueue| + |bQueue| + |completed| == old(|awQueue| + |wQueue| + |bQueue| + |completed|)
      ensures old(completed) <= completed
      ensures |old(wData)| == |old(wStrb)| &&
              WriteSide() == AfterB(AfterW(AfterAw(old(WriteSide()), pins.awReady), pins.wReady), pins.bValid, pins.bResp)
    {
      AwStep(pins.awReady);
      DataChannels(pins.wReady, pins.bValid, pins.bResp);
    }

    /** w_method then b_method. */
    method DataChannels(wReady: bool, bValid: bool, bResp: nat)
      requires WriteSideValid()
      modifies this`wQueue, this`bQueue, this`wData, this`wStrb, this`wJob, this`w, this`bReady, this`completed, this`errors
      ensures WriteSideValid() && |wQueue| + |bQueue| + |completed| == old(|wQueue| + |bQueue| + |completed|)
      ensures old(completed) <= completed
      ensures |old(wData)| == |old(wStrb)| && WriteSide() == AfterB(AfterW(old(WriteSide()), wReady), bValid, bResp)
    {
      WStep(wReady);
      BStep(bValid, bResp);
    }

    /**
     * rst_method: every queued transaction is completed with INCOMPLETE,
     * AR, R, AW, W and B queues in that order; the data and strobe queues
     * are cleared and the outputs return to idle.
     */
    method Reset()
      requires Valid()
      modifies this
      ensures Valid()
      ensures completed == old(completed) + Incompleted(old(arQueue)) + Incompleted(old(rQueue))
                           + Incompleted(old(awQueue)) + Incompleted(old(wQueue)) + Incompleted(old(bQueue))
      ensures arQueue == [] && rQueue == [] && awQueue == [] && wQueue == [] && bQueue == []
      ensures rData == [] && wData == [] && wStrb == []
      ensures ar == ADDR_IDLE && aw == ADDR_IDLE && w == WRITE_IDLE && !rReady && !bReady
      ensures errors == old(errors)
    {
      IdleOutputs();
      DrainAll();
    }

    /** The output assignments of rst_method and its clearing of the data and strobe queues. */
    method IdleOutputs()
      requires WriteSideValid()
      modifies this`ar, this`aw, this`w, this`rReady, this`bReady, this`rData, this`wData, this`wStrb
      ensures ar == ADDR_IDLE && aw == ADDR_IDLE && w == WRITE_IDLE && !rReady && !bReady
      ensures rData == [] && wData == [] && wStrb == [] && WriteSideValid()
    {
      ar, aw, w, rReady, bReady := ADDR_IDLE, ADDR_IDLE, WRITE_IDLE, false, false;
      rData, wData, wStrb := [], [], [];
    }

    /** The five reset_queue calls of rst_method. */
    method DrainAll()
      modifies this`arQueue, this`rQueue, this`awQueue, this`wQueue, this`bQueue, this`completed
      ensures completed == old(completed) + Incompleted(old(arQueue)) + Incompleted(old(rQueue))
                           + Incompleted(old(awQueue)) + Incompleted(old(wQueue)) + Incompleted(old(bQueue))
      ensures arQueue == [] && rQueue == [] && awQueue == [] && wQueue == [] && bQueue == []
    {
      var log := completed;
      log := DrainQueue(arQueue, log);
      log := DrainQueue(rQueue, log);
      log := DrainQueue(awQueue, log);
      log := DrainQueue(wQueue, log);
      log := DrainQueue(bQueue, log);
      completed := log;
      arQueue, rQueue, awQueue, wQueue, bQueue := [], [], [], [], [];
    }

    /**
     * ar_method: when the channel is free (not valid, or accepted this
     * edge), the AR queue head is issued with ARLEN = size() - 1 and moves
     * to the R queue; with nothing to issue the channel goes idle.
     */
    method ArStep(arReady: bool)
      requires ReadSideValid()
      modifies this`arQueue, this`rQueue, this`ar
      ensures ReadSideValid() && |arQueue| + |rQueue| == old(|arQueue| + |rQueue|)
      ensures old(!ar.valid || arReady) && old(arQueue) != [] ==>
                && arQueue == old(arQueue[1..]) && rQueue == old(rQueue) + [old(arQueue[0])]
                && ar == AddrOut(true, old(arQueue[0].address) % ADDR_LIMIT, old(arQueue[0].size) - 1)
      ensures old(!ar.valid || arReady) && old(arQueue) == [] ==>
                ar == ADDR_IDLE && arQueue == old(arQueue) && rQueue == old(rQueue)
      ensures old(ar.valid && !arReady) ==> ar == old(ar) && arQueue == old(arQueue) && rQueue == old(rQueue)
      ensures ReadSide() == AfterAr(old(ReadSide()), arReady)
    {
      if !ar.valid || arReady {
        if arQueue != [] {
          var ts := arQueue[0];
          arQueue := arQueue[1..];
          ar := AddrOut(true, ts.address % ADDR_LIMIT, ts.size - 1);
          rQueue := rQueue + [ts];
        } else {
          ar := ADDR_IDLE;
        }
      }
    }

    /**
     * r_method: an R handshake adds one beat to the R queue head and
     * folds RRESP into its status. On RLAST or after size() beats the read
     * completes with exactly size() words (a short burst is zero-padded and
     * reported) and leaves the queue. Data with no read outstanding is
     * reported and dropped. RREADY rises on the first idle edge.
     */
    method RStep(rValid: bool, rLast: bool, data: nat, resp: nat)
      requires ReadSideValid()
      modifies this`rQueue, this`rData, this`rReady, this`completed, this`errors
      ensures ReadSideValid() && |rQueue| + |completed| == old(|rQueue| + |completed|)
      ensures old(completed) <= completed
      ensures old(rValid && rReady) && old(rQueue) == [] ==>
                errors == old(errors) + 1 && completed == old(completed) && rQueue == old(rQueue) && rData == old(rData)
      ensures old(rValid && rReady) && old(rQueue) != [] ==>
                var h := old(rQueue[0]);
                var got := old(rData) + [data];
                var st := AfterResp(h.status, resp);
                if rLast || |got| == h.size then
                  && completed == old(completed) + [h.(status := st, data := Resized(got, h.size))]
                  && rQueue == old(rQueue[1..]) && rData == []
                  && errors == old(errors) + (if rLast && |got| == h.size then 0 else 1)
                else
                  && completed == old(completed) && rQueue == old(rQueue)[0 := h.(status := st)]
                  && rData == got && errors == old(errors)
      ensures !old(rValid && rReady) ==>
                completed == old(completed) && rQueue == old(rQueue) && rData == old(rData) && errors == old(errors)
      ensures rReady
      ensures ReadSide() == AfterR(old(ReadSide()), rValid, rLast, data, resp)
    {
      if rValid && rReady {
        if rQueue == [] {
          errors := errors + 1;
        } else {
          var ts := rQueue[0].(status := AfterResp(rQueue[0].status, resp));
          rData := rData + [data];
          if rLast || |rData| >= ts.size {
            if !rLast || |rData| != ts.size {
              errors := errors + 1;
              rData := Resized(rData, ts.size);
            } else {
              assert rData[..ts.size] == rData;
            }
            completed := completed + [ts.(data := rData)];
            rQueue := rQueue[1..];
            rData := [];
          } else {
            rQueue := rQueue[0 := ts];
          }
        }
      } else if !rReady {
        rReady := true;
      }
    }

    /** aw_method: as ar_method, moving the AW queue head to the W queue. */
    method AwStep(awReady: bool)
      modifies this`awQueue, this`wQueue, this`aw
      ensures |awQueue| + |wQueue| == old(|awQueue| + |wQueue|)
      ensures old(!aw.valid || awReady) && old(awQueue) != [] ==>
                && awQueue == old(awQueue[1..]) && wQueue == old(wQueue) + [old(awQueue[0])]
                && aw == AddrOut(true, old(awQueue[0].address) % ADDR_LIMIT, old(awQueue[0].size) - 1)
      ensures old(!aw.valid || awReady) && old(awQueue) == [] ==>
                aw == ADDR_IDLE && awQueue == old(awQueue) && wQueue == old(wQueue)
      ensures old(aw.valid && !awReady) ==> aw == old(aw) && awQueue == old(awQueue) && wQueue == old(wQueue)
      ensures WriteSide() == AfterAw(old(WriteSide()), awReady)
    {
      if !aw.valid || awReady {
        if awQueue != [] {
          var ts := awQueue[0];
          awQueue := awQueue[1..];
          aw := AddrOut(true, ts.address % ADDR_LIMIT, ts.size - 1);
          wQueue := wQueue + [ts];
        } else {
          aw := ADDR_IDLE;
        }
      }
    }

    /**
     * w_method: when the channel is free, a write whose AW has gone out
     * loads its data and strobes and moves to the B queue as soon as the
     * previous write's beats are all sent. The next beat is then driven,
     * with WLAST exactly on the write's final beat.
     */
    method WStep(wReady: bool)
      requires WriteSideValid()
      modifies this`wQueue, this`bQueue, this`wData, this`wStrb, this`wJob, this`w
      ensures WriteSideValid() && |wQueue| + |bQueue| == old(|wQueue| + |bQueue|)
      ensures old(!w.valid || wReady) && old(wData) == [] && old(wQueue) != [] ==>
                && wQueue == old(wQueue[1..]) && bQueue == old(bQueue) + [old(wQueue[0])]
                && wJob == old(wQueue[0])
      ensures !(old(!w.valid || wReady) && old(wData) == [] && old(wQueue) != []) ==>
                wQueue == old(wQueue) && bQueue == old(bQueue) && wJob == old(wJob)
      ensures old(!w.valid || wReady) && old(wData) == [] && old(wQueue) == [] ==>
                w == WRITE_IDLE && wData == [] && wStrb == []
      ensures old(!w.valid || wReady) && (old(wData) != [] || old(wQueue) != []) ==>
                var k := wJob.size - |wData| - 1;
                && 0 <= k < wJob.size
                && w == WriteOut(true, k == wJob.size - 1, wJob.data[k], wJob.strobes[k])
                && wData == wJob.data[k + 1..] && wStrb == wJob.strobes[k + 1..]
      ensures old(w.valid && !wReady) ==> w == old(w) && wData == old(wData) && wStrb == old(wStrb)
      ensures |old(wData)| == |old(wStrb)| && WriteSide() == AfterW(old(WriteSide()), wReady)
    {
      if !w.valid || wReady {
        if wData == [] && wQueue != [] {
          LoadW();
        }
        DriveW();
      }
    }

    /** The next write's data and strobes loaded, and the write moved to the B queue. */
    method LoadW()
      requires wData == [] && wQueue != []
      modifies this`wQueue, this`bQueue, this`wData, this`wStrb, this`wJob
      ensures wJob == old(wQueue[0]) && wData == wJob.data && wStrb == wJob.strobes
      ensures WriteSide() == AfterLoadW(old(WriteSide()))
    {
      var ts := wQueue[0];
      wQueue := wQueue[1..];
      wData, wStrb := ts.data, ts.strobes;
      wJob := ts;
      bQueue := bQueue + [ts];
    }

    /** One W beat driven from the data and strobe queues, or the channel idle. */
    method DriveW()
      requires |wData| == |wStrb|
      modifies this`wData, this`wStrb, this`w
      ensures wData == (if old(wData) == [] then [] else old(wData[1..])) && wStrb == (if old(wData) == [] then [] else old(wStrb[1..]))
      ensures old(wData) != [] ==> w == WriteOut(true, old(|wData|) == 1, old(wData[0]), old(wStrb[0]))
      ensures old(wData) == [] ==> w == WRITE_IDLE
      ensures WriteSide() == AfterDriveW(old(WriteSide()))
    {
      if wData != [] {
        w := WriteOut(true, |wData| == 1, wData[0], wStrb[0]);
        wData, wStrb := wData[1..], wStrb[1..];
      } else {
        w := WRITE_IDLE;
      }
    }

    /**
     * b_method: a B handshake folds BRESP into the B queue head's status
     * and completes it, so writes complete in B-queue order. A response
     * with no write outstanding is reported and dropped. BREADY rises on
     * the first idle edge.
     */
    method BStep(bValid: bool, resp: nat)
      requires WriteSideValid()
      modifies this`bQueue, this`bReady, this`completed, this`errors
      ensures WriteSideValid()
      ensures |bQueue| + |completed| == old(|bQueue| + |completed|)
      ensures old(completed) <= completed
      ensures old(bValid && bReady) && old(bQueue) == [] ==>
                errors == old(errors) + 1 && completed == old(completed) && bQueue == old(bQueue)
      ensures old(bValid && bReady) && old(bQueue) != [] ==>
                && completed == old(completed) + [old(bQueue[0]).(status := AfterResp(old(bQueue[0].status), resp))]
                && bQueue == old(bQueue[1..]) && errors == old(errors)
      ensures !old(bValid && bReady) ==> completed == old(completed) && bQueue == old(bQueue) && errors == old(errors)
      ensures bReady
      ensures WriteSide() == AfterB(old(WriteSide()), bValid, resp)
    {
      if bValid && bReady {
        if bQueue == [] {
          errors := errors + 1;
        } else {
          completed := completed + [bQueue[0].(status := AfterResp(bQueue[0].status, resp))];
          bQueue := bQueue[1..];
        }
      } else if !bReady {
        bReady := true;
      }
    }
  }
}
