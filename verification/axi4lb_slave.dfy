/**
 * The AXI4 burst slave adapter (dlsc_axi4lb_tlm_slave_template): AXI
 * bursts seen on its pins become TLM requests issued through a
 * non-blocking initiator. Every clock edge runs reset, or the channel
 * methods in the order AR, R, AW, W, B. The sampled input pins, the
 * `rand() % 100 < pct` ready and valid gates, and what the initiator
 * reports about the oldest outstanding request are parameters; the driven
 * output pins are fields. The initiator calls are recorded in `issued`.
 */
module Axi4lbSlave {
  import opened Tlm
  import opened BusJob
  import opened AxiTypes
  import Axi4lbMaster

  /** A captured write address: aw_command. */
  datatype AwCommand = AwCommand(addr: nat, len: nat)

  /** The driven side of the read data channel: RVALID, RLAST, RDATA, RRESP. */
  datatype ReadOut = ReadOut(valid: bool, last: bool, data: nat, resp: nat)

  /** The driven side of the write response channel: BVALID, BRESP. */
  datatype RespOut = RespOut(valid: bool, resp: nat)

  /** The pins sampled on a rising clock edge. */
  datatype Inputs = Inputs(
    arValid: bool, arAddr: nat, arLen: nat,
    rReady: bool,
    awValid: bool, awAddr: nat, awLen: nat,
    wValid: bool, wLast: bool, wData: nat, wStrb: nat,
    bReady: bool)

  /** The `rand() % 100 < pct` outcomes drawn on one edge, one per channel. */
  datatype Gates = Gates(ar: bool, r: bool, aw: bool, w: bool, b: bool)

  /** The response code a finished request is answered with. */
  function RespOf(s: ResponseStatus): (resp: nat)
    ensures resp == RESP_OKAY <==> s == Ok
    ensures resp == RESP_DECERR <==> s == AddressError
    ensures resp != RESP_EXOKAY
  {
    match s
    case Ok => RESP_OKAY
    case AddressError => RESP_DECERR
    case _ => RESP_SLVERR
  }

  /**
   * A slave adapter facing a master adapter carries the master's error
   * codes through unchanged: SLVERR and DECERR survive the trip to a TLM
   * status and back, and so do COMMAND_ERROR and ADDRESS_ERROR the other way.
   */
  lemma ErrorCodesRoundTrip(resp: nat, s: ResponseStatus)
    ensures resp == RESP_SLVERR || resp == RESP_DECERR ==> RespOf(Axi4lbMaster.ErrorStatus(resp)) == resp
    ensures s == CommandError || s == AddressError ==> Axi4lbMaster.ErrorStatus(RespOf(s)) == s
    ensures RespOf(s) != RESP_OKAY ==> Axi4lbMaster.AfterResp(Ok, RespOf(s)) != Ok
  {
  }

  const R_IDLE := ReadOut(false, false, 0, 0)
  const B_IDLE := RespOut(false, 0)

  /** The read side of what a clock can change: the AR queue, the beats to send, ARREADY, the R pins and the calls issued. */
  datatype ReadState = ReadState(arQueue: seq<Issued>, rQueue: seq<nat>, arReady: bool, r: ReadOut, issued: seq<Issued>)

  /**
   * The write side of what a clock can change: the AW and B queues, the
   * captured W beats, the wait-for-AW flag, AWREADY, WREADY, the B pins,
   * the calls issued and the reports.
   */
  datatype WriteState = WriteState(
    awQueue: seq<AwCommand>, wData: seq<nat>, wStrb: seq<nat>, bQueue: seq<Issued>, wWaitAw: bool,
    awReady: bool, wReady: bool, b: RespOut, issued: seq<Issued>, errors: nat)

  /** ar_method from state s. */
  function AfterAr(s: ReadState, arValid: bool, arAddr: nat, arLen: nat, draw: bool): ReadState
  {
    var req := Issued(true, arAddr, arLen + 1, [], []);
    var s1 := if s.arReady && arValid then s.(arQueue := s.arQueue + [req], issued := s.issued + [req]) else s;
    s1.(arReady := draw)
  }

  /** The fetch half of r_method from state s. */
  function AfterFetch(s: ReadState, head: Reply): ReadState
  {
    if s.rQueue == [] && s.arQueue != [] && head.done then
      s.(rQueue := ReadBeats(head, s.arQueue[0].length), r := s.r.(resp := RespOf(head.status)), arQueue := s.arQueue[1..])
    else s
  }

  /** The beat half of r_method from state s. */
  function AfterDrive(s: ReadState, draw: bool): ReadState
  {
    if s.rQueue != [] && draw then s.(r := ReadOut(true, |s.rQueue| == 1, s.rQueue[0], s.r.resp), rQueue := s.rQueue[1..])
    else s.(r := ReadOut(false, false, 0, s.r.resp))
  }

  /** r_method from state s. */
  function AfterR(s: ReadState, rReady: bool, head: Reply, draw: bool): ReadState
  {
    if !s.r.valid || rReady then AfterDrive(AfterFetch(s, head), draw) else s
  }

  /** aw_method from state s. */
  function AfterAw(s: WriteState, awValid: bool, awAddr: nat, awLen: nat, draw: bool): WriteState
  {
    var s1 := if s.awReady && awValid then s.(awQueue := s.awQueue + [AwCommand(awAddr, awLen + 1)]) else s;
    s1.(awReady := draw)
  }

  /** A W handshake from state s captures a beat and its strobes; WLAST starts the wait for an AW. */
  function AfterCapture(s: WriteState, wValid: bool, wLast: bool, data: nat, strb: nat): WriteState
  {
    if s.wReady && wValid then s.(wData := s.wData + [data], wStrb := s.wStrb + [strb], wWaitAw := s.wWaitAw || wLast)
    else s
  }

  /** A complete W burst of s paired with the oldest AW: cut or padded to its length, issued and cleared. */
  function AfterPair(s: WriteState): WriteState
  {
    if s.wWaitAw && s.awQueue != [] then
      var cmd := s.awQueue[0];
      var req := Issued(false, cmd.addr, cmd.len, Resized(s.wData, cmd.len), Resized(s.wStrb, cmd.len));
      s.(awQueue := s.awQueue[1..], bQueue := s.bQueue + [req], issued := s.issued + [req], wData := [], wStrb := [],
         wWaitAw := false, errors := s.errors + (if cmd.len == |s.wData| then 0 else 1))
    else s
  }

  /** w_method from state s. */
  function AfterW(s: WriteState, wValid: bool, wLast: bool, data: nat, strb: nat, draw: bool): WriteState
  {
    var s1 := AfterPair(AfterCapture(s, wValid, wLast, data, strb));
    s1.(wReady := !s1.wWaitAw && draw)
  }

  /** b_method from state s. */
  function AfterB(s: WriteState, bReady: bool, head: Reply, draw: bool): WriteState
  {
    if s.b.valid && !bReady then s
    else if s.bQueue != [] && head.done && draw then s.(b := RespOut(true, RespOf(head.status)), bQueue := s.bQueue[1..])
    else s.(b := B_IDLE)
  }

  class Slave {
    var arQueue: seq<Issued>
    /** The beats still to send of the read being answered. */
    var rQueue: seq<nat>
    var awQueue: seq<AwCommand>
    var wData: seq<nat>
    var wStrb: seq<nat>
    var bQueue: seq<Issued>
    /** W data up to WLAST has arrived and waits for its AW command. */
    var wWaitAw: bool
    var arReady: bool
    var r: ReadOut
    var awReady: bool
    var wReady: bool
    var b: RespOut
    /** Every initiator call, in order. */
    var issued: seq<Issued>
    /** dlsc_error reports. */
    var errors: nat
    /** The beats of the read being answered, and its response code. */
    ghost var rBurst: seq<nat>
    ghost var rResp: nat

    /** The R beats still to send are the tail of one read, all answered with its response code. */
    ghost predicate ReadSideValid()
      reads this`rQueue, this`rBurst, this`r, this`rResp
    {
      && |rQueue| <= |rBurst|
      && rQueue == rBurst[|rBurst| - |rQueue|..]
      && (rQueue != [] || r.valid ==> r.resp == rResp)
    }

    /**
     * A beat on the R channel is the next one of the current read: the
     * k-th of its beats, where k counts those already sent, with RLAST
     * exactly on the final one.
     */
    ghost predicate BeatInOrder()
      reads this`r, this`rQueue, this`rBurst
    {
      r.valid ==>
        var k := |rBurst| - |rQueue| - 1;
        0 <= k < |rBurst| && r.data == rBurst[k] && (r.last <==> k == |rBurst| - 1)
    }

    /** Captured W beats carry one strobe word each, and WREADY is low while they wait for an AW. */
    ghost predicate WriteSideValid()
      reads this`wData, this`wStrb, this`wWaitAw, this`wReady
    {
      |wData| == |wStrb| && (wWaitAw ==> !wReady)
    }

    ghost predicate Valid()
      reads this
    {
      ReadSideValid() && WriteSideValid()
    }

    function ReadSide(): ReadState
      reads this`arQueue, this`rQueue, this`arReady, this`r, this`issued
    {
      ReadState(arQueue, rQueue, arReady, r, issued)
    }

    function WriteSide(): WriteState
      reads this`awQueue, this`wData, this`wStrb, this`bQueue, this`wWaitAw, this`awReady, this`wReady, this`b
      reads this`issued, this`errors
    {
      WriteState(awQueue, wData, wStrb, bQueue, wWaitAw, awReady, wReady, b, issued, errors)
    }

    constructor ()
      ensures Valid()
      ensures arQueue == [] && rQueue == [] && awQueue == [] && bQueue == [] && wData == [] && wStrb == []
      ensures !wWaitAw && issued == [] && errors == 0
    {
      arQueue, rQueue, awQueue, bQueue, wData, wStrb := [], [], [], [], [], [];
      wWaitAw, issued, errors := false, [], 0;
      arReady, r, awReady, wReady, b := false, ReadOut(false, false, 0, 0), false, false, RespOut(false, 0);
      rBurst, rResp := [], 0;
    }

    /**
     * rst_method: the outputs go low, the wait-for-AW flag is cleared and
     * every queue is emptied (outstanding requests are abandoned).
     */
    method Reset()
      modifies this`arQueue, this`rQueue, this`awQueue, this`wData, this`wStrb, this`bQueue, this`wWaitAw
      modifies this`arReady, this`r, this`awReady, this`wReady, this`b
      ensures ReadSideValid() && WriteSideValid()
      ensures arQueue == [] && rQueue == [] && awQueue == [] && wData == [] && wStrb == [] && bQueue == []
      ensures !wWaitAw && !arReady && !awReady && !wReady
      ensures r == ReadOut(false, false, 0, 0) && b == RespOut(false, 0)
    {
      IdleOutputs();
      ClearQueues();
    }

    /** The output assignments of rst_method. */
    method IdleOutputs()
      modifies this`arReady, this`r, this`awReady, this`wReady, this`b
      ensures !arReady && !awReady && !wReady && r == ReadOut(false, false, 0, 0) && b == RespOut(false, 0)
    {
      arReady, r, awReady, wReady, b := false, ReadOut(false, false, 0, 0), false, false, RespOut(false, 0);
    }

    /** The queue clearing of rst_method. */
    method ClearQueues()
      modifies this`arQueue, this`rQueue, this`awQueue, this`wData, this`wStrb, this`bQueue, this`wWaitAw
      ensures arQueue == [] && rQueue == [] && awQueue == [] && wData == [] && wStrb == [] && bQueue == [] && !wWaitAw
    {
      wWaitAw := false;
      arQueue, rQueue, awQueue, wData, wStrb, bQueue := [], [], [], [], [], [];
    }

    /**
     * clk_method: reset, or one cycle of every channel. `arHead` and
     * `bHead` are what the initiator reports about the oldest read and
     * write when the R and B methods look at them. Requests are only ever
     * issued, never withdrawn.
     */
    method Clock(rst: bool, pins: Inputs, gates: Gates, arHead: Reply, bHead: Reply)
      requires ReadSideValid() && WriteSideValid()
      modifies this
      ensures ReadSideValid() && WriteSideValid()
      ensures old(issued) <= issued
      ensures wWaitAw ==> !wReady
      ensures rst ==>
                && ReadSide() == old(ReadSide()).(arQueue := [], rQueue := [], arReady := false, r := R_IDLE)
                && WriteSide() == old(WriteSide()).(awQueue := [], wData := [], wStrb := [], bQueue := [], wWaitAw := false,
                                                   awReady := false, wReady := false, b := B_IDLE)
      ensures !rst ==>
                var rd := AfterR(AfterAr(old(ReadSide()), pins.arValid, pins.arAddr, pins.arLen, gates.ar), pins.rReady, arHead, gates.r);
                var ws := old(WriteSide()).(issued := rd.issued);
                var wr := AfterB(AfterW(AfterAw(ws, pins.awValid, pins.awAddr, pins.awLen, gates.aw),
                                        pins.wValid, pins.wLast, pins.wData, pins.wStrb, gates.w), pins.bReady, bHead, gates.b);
                ReadSide() == rd.(issued := wr.issued) && WriteSide() == wr
    {
      if rst {
        Reset();
      } else {
        Cycle(pins, gates, arHead, bHead);
      }
    }

    /** A clock edge out of reset: ar_method and r_method, then aw_method, w_method and b_method. */
    method Cycle(pins: Inputs, gates: Gates, arHead: Reply, bHead: Reply)
      requires ReadSideValid() && WriteSideValid()
      modifies this`arQueue, this`issued, this`arReady, this`rQueue, this`r, this`rBurst, this`rResp
      modifies this`awQueue, this`awReady, this`wData, this`wStrb, this`wWaitAw, this`bQueue, this`errors, this`wReady, this`b
      ensures ReadSideValid() && WriteSideValid()
      ensures old(issued) <= issued
      ensures var rd := AfterR(AfterAr(old(ReadSide()), pins.arValid, pins.arAddr, pins.arLen, gates.ar), pins.rReady, arHead, gates.r);
              var ws := old(WriteSide()).(issued := rd.issued);
              var wr := AfterB(AfterW(AfterAw(ws, pins.awValid, pins.awAddr, pins.awLen, gates.aw),
                                      pins.wValid, pins.wLast, pins.wData, pins.wStrb, gates.w), pins.bReady, bHead, gates.b);
              ReadSide() == rd.(issued := wr.issued) && WriteSide() == wr
    {
      ghost var w0 := WriteSide();
      ReadChannels(pins, gates, arHead);
      ghost var rd := ReadSide();
      assert WriteSideValid() && WriteSide() == w0.(issued := rd.issued);
      WriteChannels(pins, gates, bHead);
    }

    /** ar_method then r_method. */
    method ReadChannels(pins: Inputs, gates: Gates, arHead: Reply)
      requires ReadSideValid()
      modifies this`arQueue, this`issued, this`arReady, this`rQueue, this`r, this`rBurst, this`rResp
      ensures ReadSideValid() && old(issued) <= issued
      ensures ReadSide() == AfterR(AfterAr(old(ReadSide()), pins.arValid, pins.arAddr, pins.arLen, gates.ar), pins.rReady, arHead, gates.r)
    {
      ArStep(pins.arValid, pins.arAddr, pins.arLen, gates.ar);
      RStep(pins.rReady, arHead, gates.r);
    }

    /** aw_method, w_method, then b_method. */
    method WriteChannels(pins: Inputs, gates: Gates, bHead: Reply)
      requires WriteSideValid()
      modifies this`awQueue, this`awReady, this`wData, this`wStrb, this`wWaitAw, this`bQueue, this`issued
      modifies this`errors, this`wReady, this`b
      ensures WriteSideValid() && old(issued) <= issued
      ensures WriteSide() == AfterB(AfterW(AfterAw(old(WriteSide()), pins.awValid, pins.awAddr, pins.awLen, gates.aw),
                                           pins.wValid, pins.wLast, pins.wData, pins.wStrb, gates.w), pins.bReady, bHead, gates.b)
    {
      AwStep(pins.awValid, pins.awAddr, pins.awLen, gates.aw);
      DataChannels(pins.wValid, pins.wLast, pins.wData, pins.wStrb, gates.w, pins.bReady, bHead, gates.b);
    }

    /** w_method then b_method. */
    method DataChannels(wValid: bool, wLast: bool, data: nat, strb: nat, wDraw: bool, bReady: bool, bHead: Reply, bDraw: bool)
      requires WriteSideValid()
      modifies this`awQueue, this`wData, this`wStrb, this`wWaitAw, this`bQueue, this`issued, this`errors, this`wReady, this`b
      ensures WriteSideValid() && old(issued) <= issued
      ensures WriteSide() == AfterB(AfterW(old(WriteSide()), wValid, wLast, data, strb, wDraw), bReady, bHead, bDraw)
    {
      WStep(wValid, wLast, data, strb, wDraw);
      BStep(bReady, bHead, bDraw);
    }

    /** ar_method: an AR handshake issues nb_read(ARADDR, ARLEN + 1) and queues its handle. */
    method ArStep(arValid: bool, arAddr: nat, arLen: nat, draw: bool)
      modifies this`arQueue, this`issued, this`arReady
      ensures old(arReady && arValid) ==>
                var req := Issued(true, arAddr, arLen + 1, [], []);
                arQueue == old(arQueue) + [req] && issued == old(issued) + [req]
      ensures !old(arReady && arValid) ==> arQueue == old(arQueue) && issued == old(issued)
      ensures arReady == draw
      ensures ReadSide() == AfterAr(old(ReadSide()), arValid, arAddr, arLen, draw)
    {
      if arReady && arValid {
        var req := Issued(true, arAddr, arLen + 1, [], []);
        arQueue := arQueue + [req];
        issued := issued + [req];
      }
      arReady := draw;
    }

    /**
     * r_method: when the channel is free (not valid, or accepted this
     * edge), a finished oldest read is fetched, then a beat is driven if
     * the gate allows.
     */
    method RStep(rReady: bool, head: Reply, draw: bool)
      requires ReadSideValid()
      modifies this`arQueue, this`rQueue, this`r, this`rBurst, this`rResp
      ensures ReadSideValid()
      ensures old(r.valid) && !rReady ==>
                r == old(r) && rQueue == old(rQueue) && arQueue == old(arQueue) && rBurst == old(rBurst)
      ensures !old(r.valid) || rReady ==> BeatInOrder()
      ensures ReadSide() == AfterR(old(ReadSide()), rReady, head, draw)
    {
      if !r.valid || rReady {
        Fetch(head);
        Drive(draw);
      }
    }

    /**
     * The fetch half of r_method: with no beats left to send, a finished
     * oldest read leaves the AR queue; its size() beats (zeros when it
     * failed) fill the R queue and its status sets RRESP for all of them.
     */
    method Fetch(head: Reply)
      requires ReadSideValid()
      modifies this`arQueue, this`rQueue, this`r, this`rBurst, this`rResp
      ensures ReadSideValid()
      ensures old(rQueue) == [] && old(arQueue) != [] && head.done ==>
                && arQueue == old(arQueue[1..])
                && rQueue == ReadBeats(head, old(arQueue[0].length)) && rBurst == rQueue
                && r == old(r).(resp := RespOf(head.status)) && rResp == r.resp
      ensures !(old(rQueue) == [] && old(arQueue) != [] && head.done) ==>
                arQueue == old(arQueue) && rQueue == old(rQueue) && r == old(r) && rBurst == old(rBurst) && rResp == old(rResp)
      ensures ReadSide() == AfterFetch(old(ReadSide()), head)
    {
      if rQueue == [] && arQueue != [] && head.done {
        var ts := arQueue[0];
        rQueue := ReadBeats(head, ts.length);
        rBurst, rResp := rQueue, RespOf(head.status);
        r := r.(resp := RespOf(head.status));
        arQueue := arQueue[1..];
      }
    }

    /**
     * The beat half of r_method: the next beat of the read goes out with
     * RLAST exactly on its final beat; otherwise RVALID drops and RRESP
     * keeps its value.
     */
    method Drive(draw: bool)
      requires ReadSideValid()
      modifies this`rQueue, this`r
      ensures ReadSideValid()
      ensures old(rQueue) != [] && draw ==>
                var k := |rBurst| - |old(rQueue)|;
                && rQueue == old(rQueue[1..])
                && r == ReadOut(true, k == |rBurst| - 1, rBurst[k], rResp)
      ensures !(old(rQueue) != [] && draw) ==> rQueue == old(rQueue) && r == ReadOut(false, false, 0, old(r.resp))
      ensures BeatInOrder()
      ensures ReadSide() == AfterDrive(old(ReadSide()), draw)
    {
      if rQueue != [] && draw {
        r := ReadOut(true, |rQueue| == 1, rQueue[0], r.resp);
        rQueue := rQueue[1..];
      } else {
        r := ReadOut(false, false, 0, r.resp);
      }
    }

    /** aw_method: an AW handshake queues (AWADDR, AWLEN + 1). */
    method AwStep(awValid: bool, awAddr: nat, awLen: nat, draw: bool)
      modifies this`awQueue, this`awReady
      ensures old(awReady && awValid) ==> awQueue == old(awQueue) + [AwCommand(awAddr, awLen + 1)]
      ensures !old(awReady && awValid) ==> awQueue == old(awQueue)
      ensures awReady == draw
      ensures WriteSide() == AfterAw(old(WriteSide()), awValid, awAddr, awLen, draw)
    {
      if awReady && awValid {
        awQueue := awQueue + [AwCommand(awAddr, awLen + 1)];
      }
      awReady := draw;
    }

    /**
     * w_method: a W handshake captures one beat and its strobes; WLAST
     * starts the wait for an AW. Once an AW is queued, the captured burst
     * is paired with the oldest one, cut or zero-padded to its length,
     * issued as one nb_write and cleared. WREADY stays low while waiting.
     */
    method WStep(wValid: bool, wLast: bool, data: nat, strb: nat, draw: bool)
      requires WriteSideValid()
      modifies this`wData, this`wStrb, this`wWaitAw, this`awQueue, this`bQueue, this`issued, this`errors, this`wReady
      ensures WriteSideValid()
      ensures var gotData := if old(wReady && wValid) then old(wData) + [data] else old(wData);
              var gotStrb := if old(wReady && wValid) then old(wStrb) + [strb] else old(wStrb);
              var waiting := old(wWaitAw) || (old(wReady && wValid) && wLast);
              if waiting && old(awQueue) != [] then
                var cmd := old(awQueue[0]);
                var req := Issued(false, cmd.addr, cmd.len, Resized(gotData, cmd.len), Resized(gotStrb, cmd.len));
                && awQueue == old(awQueue[1..]) && bQueue == old(bQueue) + [req] && issued == old(issued) + [req]
                && wData == [] && wStrb == [] && !wWaitAw
                && errors == old(errors) + (if cmd.len == |gotData| then 0 else 1)
              else
                && awQueue == old(awQueue) && bQueue == old(bQueue) && issued == old(issued)
                && wData == gotData && wStrb == gotStrb && wWaitAw == waiting && errors == old(errors)
      ensures wReady == (!wWaitAw && draw)
      ensures WriteSide() == AfterW(old(WriteSide()), wValid, wLast, data, strb, draw)
    {
      Capture(wValid, wLast, data, strb);
      Pair();
      if wWaitAw {
        wReady := false;
      } else {
        wReady := draw;
      }
    }

    /** The capture half of w_method: a W handshake takes one beat and its strobes; WLAST starts the wait. */
    method Capture(wValid: bool, wLast: bool, data: nat, strb: nat)
      requires |wData| == |wStrb|
      modifies this`wData, this`wStrb, this`wWaitAw
      ensures |wData| == |wStrb|
      ensures wData == (if old(wReady && wValid) then old(wData) + [data] else old(wData))
      ensures wStrb == (if old(wReady && wValid) then old(wStrb) + [strb] else old(wStrb))
      ensures wWaitAw == (old(wWaitAw) || (old(wReady && wValid) && wLast))
      ensures WriteSide() == AfterCapture(old(WriteSide()), wValid, wLast, data, strb)
    {
      if wReady && wValid {
        wData := wData + [data];
        wStrb := wStrb + [strb];
        if wLast {
          wWaitAw := true;
        }
      }
    }

    /** The pairing half of w_method: a complete burst and the oldest AW become one nb_write. */
    method Pair()
      requires |wData| == |wStrb|
      modifies this`wData, this`wStrb, this`wWaitAw, this`awQueue, this`bQueue, this`issued, this`errors
      ensures |wData| == |wStrb|
      ensures if old(wWaitAw) && old(awQueue) != [] then
                var cmd := old(awQueue[0]);
                var req := Issued(false, cmd.addr, cmd.len, Resized(old(wData), cmd.len), Resized(old(wStrb), cmd.len));
                && awQueue == old(awQueue[1..]) && bQueue == old(bQueue) + [req] && issued == old(issued) + [req]
                && wData == [] && wStrb == [] && !wWaitAw
                && errors == old(errors) + (if cmd.len == old(|wData|) then 0 else 1)
              else
                && awQueue == old(awQueue) && bQueue == old(bQueue) && issued == old(issued)
                && wData == old(wData) && wStrb == old(wStrb) && wWaitAw == old(wWaitAw) && errors == old(errors)
      ensures WriteSide() == AfterPair(old(WriteSide()))
    {
      if wWaitAw && awQueue != [] {
        var cmd := awQueue[0];
        awQueue := awQueue[1..];
        if cmd.len != |wData| {
          errors := errors + 1;
          wData := Resized(wData, cmd.len);
          wStrb := Resized(wStrb, cmd.len);
        } else {
          assert wData[..cmd.len] == wData && wStrb[..cmd.len] == wStrb;
        }
        var req := Issued(false, cmd.addr, cmd.len, wData, wStrb);
        bQueue := bQueue + [req];
        issued := issued + [req];
        wData, wStrb := [], [];
        wWaitAw := false;
      }
    }

    /**
     * b_method: when the channel is free and the gate allows, a finished
     * oldest write is answered with its response code and leaves the queue.
     */
    method BStep(bReady: bool, head: Reply, draw: bool)
      modifies this`bQueue, this`b
      ensures old(!b.valid || bReady) && old(bQueue) != [] && head.done && draw ==>
                b == RespOut(true, RespOf(head.status)) && bQueue == old(bQueue[1..])
      ensures old(!b.valid || bReady) && !(old(bQueue) != [] && head.done && draw) ==>
                b == RespOut(false, 0) && bQueue == old(bQueue)
      ensures old(b.valid && !bReady) ==> b == old(b) && bQueue == old(bQueue)
      ensures WriteSide() == AfterB(old(WriteSide()), bReady, head, draw)
    {
      if !b.valid || bReady {
        if bQueue != [] && head.done && draw {
          b := RespOut(true, RespOf(head.status));
          bQueue := bQueue[1..];
        } else {
          b := RespOut(false, 0);
        }
      }
    }
  }
}
