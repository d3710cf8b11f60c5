/**
 * The Wishbone master adapter (dlsc_wishbone_tlm_master_template): each
 * TLM request arriving at its target is split into one Wishbone command
 * per word, and the acknowledged beats are gathered back into the request
 * in order. The sampled input pins and the `rand() % 100 < cmd_pct` gate
 * are parameters; the driven output pins are a field. Reads of an output
 * port inside clk_method see the value from before the edge, so the
 * response step works from the STB_O and CYC_O the clock started with.
 */
module WishboneMaster {
  import opened Tlm
  import opened BusJob
  import opened WishboneTypes

  /** cmd_data: one queued command. */
  datatype Cmd = Cmd(we: bool, adr: nat, cti: nat, dat: nat, sel: nat)

  /** The driven pins: CYC_O, STB_O, WE_O, ADR_O, CTI_O, DAT_O, SEL_O. */
  datatype WbOut = WbOut(cyc: bool, stb: bool, we: bool, adr: nat, cti: nat, dat: nat, sel: nat)

  const WB_IDLE := WbOut(false, false, false, 0, 0, 0, 0)

  /**
   * The commands the splitting loop of target_callback queues for words
   * `data` with strobes `strb`, starting at address `adr`.
   */
  function Split(we: bool, adr: nat, data: seq<nat>, strb: seq<nat>, width: nat): (r: seq<Cmd>)
    requires |data| == |strb|
    ensures |r| == |data|
    decreases |data|
  {
    if data == [] then []
    else
      var cti := if |data| == 1 then WB_CTI_END else WB_CTI_INCR;
      [Cmd(we, adr, cti, data[0], strb[0])] + Split(we, (adr + width) % ADDR_LIMIT, data[1..], strb[1..], width)
  }

  /**
   * One command per word, carrying that word and its strobe, the address
   * advancing by the bus width (wrapping as an ADDRTYPE), and CTI INCR
   * on every command but the last, which carries CTI END.
   */
  lemma {:induction false} SplitShape(we: bool, adr: nat, data: seq<nat>, strb: seq<nat>, width: nat)
    requires |data| == |strb| && adr < ADDR_LIMIT
    ensures var r := Split(we, adr, data, strb, width);
            && (forall i :: 0 <= i < |r| ==>
                  r[i].we == we && r[i].dat == data[i] && r[i].sel == strb[i] && r[i].adr < ADDR_LIMIT
                  && r[i].cti == (if i == |r| - 1 then WB_CTI_END else WB_CTI_INCR))
            && (r != [] ==> r[0].adr == adr)
            && (forall i :: 0 <= i < |r| - 1 ==> r[i + 1].adr == (r[i].adr + width) % ADDR_LIMIT)
    decreases |data|
  {
    if data != [] {
      SplitShape(we, (adr + width) % ADDR_LIMIT, data[1..], strb[1..], width);
    }
  }

  /**
   * The commands for a request: size() of them from its address, a
   * write's carrying its data words and a read's carrying zeros, each
   * with its strobe word.
   */
  function CommandsFor(job: ValidJob, width: nat): (r: seq<Cmd>)
    ensures |r| == job.size
    ensures forall i :: 0 <= i < |r| ==>
              r[i].we == job.write && r[i].sel == job.strobes[i]
              && r[i].dat == (if job.write then job.data[i] else 0)
              && r[i].cti == (if i == job.size - 1 then WB_CTI_END else WB_CTI_INCR)
    ensures r[0].adr == job.address % ADDR_LIMIT
    ensures forall i :: 0 <= i < |r| - 1 ==> r[i + 1].adr == (r[i].adr + width) % ADDR_LIMIT
  {
    SplitShape(job.write, job.address % ADDR_LIMIT, WordsOut(job), job.strobes, width);
    Split(job.write, job.address % ADDR_LIMIT, WordsOut(job), job.strobes, width)
  }

  /** The words a request's commands carry: its data for a write, zeros for a read. */
  function WordsOut(job: ValidJob): (r: seq<nat>)
    ensures |r| == job.size
    ensures forall i :: 0 <= i < |r| ==> r[i] == if job.write then job.data[i] else 0
  {
    if job.write then job.data else Resized([], job.size)
  }

  /** What a clock can change: the command, request and beat queues, the driven pins, the completions and the error count. */
  datatype MasterState = MasterState(
    cmdQueue: seq<Cmd>, respQueue: seq<ValidJob>, respData: seq<nat>, bus: WbOut, completed: seq<Job>, errors: nat)

  /**
   * cmd_method from state s: a free bus (no strobe, or the command taken)
   * carries the next queued command if the gate allows, else it drops
   * STB_O and the command pins; a command still waiting stays.
   */
  function Commanded(s: MasterState, pipelined: bool, stall: bool, ack: bool, draw: bool): MasterState
  {
    if !s.bus.stb || (if pipelined then !stall else ack) then
      if s.cmdQueue != [] && draw then
        var c := s.cmdQueue[0];
        s.(cmdQueue := s.cmdQueue[1..], bus := WbOut(s.bus.cyc, true, c.we, c.adr, c.cti, c.dat, c.sel))
      else s.(bus := WB_IDLE.(cyc := s.bus.cyc))
    else s
  }

  /**
   * resp_method from state s, given whether an acknowledged beat arrived:
   * the beat joins the oldest request's beats, which completes with
   * size() of them; with no request awaiting it, it only counts an error.
   */
  function Answered(s: MasterState, beat: bool, err: bool, datIn: nat): MasterState
  {
    if !beat then s
    else if s.respQueue == [] then s.(errors := s.errors + 1)
    else
      var ts: ValidJob := s.respQueue[0].(status := AfterError(s.respQueue[0].status, err));
      var got := s.respData + [datIn];
      if |got| == ts.size then
        s.(completed := s.completed + [if ts.write then ts else ts.(data := got)], respQueue := s.respQueue[1..], respData := [])
      else s.(respQueue := s.respQueue[0 := ts], respData := got)
  }

  class Master {
    /** sizeof(DATATYPE), the bus width in bytes. */
    const width: nat
    /** Pipelined (STALL_I) rather than classic handshaking. */
    var pipelined: bool
    var cmdQueue: seq<Cmd>
    /** resp_ts_queue: the requests awaiting their acknowledged beats, oldest first. */
    var respQueue: seq<ValidJob>
    /** resp_data_queue: the beats gathered so far for the oldest request. */
    var respData: seq<nat>
    var bus: WbOut
    /** Every complete() call, in order. */
    var completed: seq<Job>
    /** The "unexpected response" errors reported. */
    var errors: nat

    /** The oldest request is still short of beats; with no request, no beats are held. */
    ghost predicate Valid()
      reads this`respQueue, this`respData
    {
      && (respQueue == [] ==> respData == [])
      && (respQueue != [] ==> |respData| < respQueue[0].size)
    }

    function State(): MasterState
      reads this`cmdQueue, this`respQueue, this`respData, this`bus, this`completed, this`errors
    {
      MasterState(cmdQueue, respQueue, respData, bus, completed, errors)
    }

    constructor (w: nat)
      ensures Valid() && width == w && !pipelined && cmdQueue == [] && respQueue == [] && respData == []
      ensures bus == WB_IDLE && completed == [] && errors == 0
    {
      width := w;
      pipelined := false;
      cmdQueue, respQueue, respData := [], [], [];
      bus, completed, errors := WB_IDLE, [], 0;
    }

    /** set_pipelined. */
    method SetPipelined(p: bool)
      modifies this`pipelined
      ensures pipelined == p
    {
      pipelined := p;
    }

    /**
     * target_callback: preset OK, split the request into its commands,
     * and queue the request to await its beats.
     */
    method TargetCallback(j: ValidJob)
      requires Valid()
      modifies this`cmdQueue, this`respQueue
      ensures Valid()
      ensures cmdQueue == old(cmdQueue) + CommandsFor(j.(status := Ok), width)
      ensures respQueue == old(respQueue) + [j.(status := Ok)]
    {
      var ts: ValidJob := j.(status := Ok);
      QueueCommands(ts);
      respQueue := respQueue + [ts];
    }

    /** The splitting loop of target_callback: one command per word onto cmd_data_queue. */
    method QueueCommands(ts: ValidJob)
      modifies this`cmdQueue
      ensures cmdQueue == old(cmdQueue) + CommandsFor(ts, width)
    {
      var data: seq<nat> := WordsOut(ts);
      var strb: seq<nat> := ts.strobes;
      var adr: nat := ts.address % ADDR_LIMIT;
      while data != []
        invariant |data| == |strb|
        invariant cmdQueue + Split(ts.write, adr, data, strb, width) == old(cmdQueue) + CommandsFor(ts, width)
        decreases |data|
      {
        var cti := if |data| == 1 then WB_CTI_END else WB_CTI_INCR;
        var c := Cmd(ts.write, adr, cti, data[0], strb[0]);
        var rest := Split(ts.write, (adr + width) % ADDR_LIMIT, data[1..], strb[1..], width);
        assert Split(ts.write, adr, data, strb, width) == [c] + rest;
        assert cmdQueue + ([c] + rest) == (cmdQueue + [c]) + rest;
        cmdQueue := cmdQueue + [c];
        data, strb := data[1..], strb[1..];
        adr := (adr + width) % ADDR_LIMIT;
      }
      assert cmdQueue + [] == cmdQueue;
    }

    /**
     * clk_method: reset, or a command step, a response step and CYC_O
     * following whether any request awaits its beats.
     */
    method Clock(rst: bool, stall: bool, ack: bool, err: bool, datIn: nat, draw: bool)
      requires Valid()
      modifies this`cmdQueue, this`respQueue, this`respData, this`bus, this`completed, this`errors
      ensures Valid() && old(completed) <= completed
      ensures bus.cyc == (respQueue != [])
      ensures |respQueue| + |completed| == old(|respQueue| + |completed|)
      ensures rst ==> State() == MasterState([], [], [], WB_IDLE, old(completed) + Incompleted(old(respQueue)), old(errors))
      ensures !rst ==>
                var c := Commanded(old(State()), pipelined, stall, ack, draw);
                var r := Answered(c, old(bus.cyc) && ack && (pipelined || old(bus.stb)), err, datIn);
                State() == r.(bus := r.bus.(cyc := r.respQueue != []))
    {
      if rst {
        Reset();
      } else {
        var cyc0, stb0 := bus.cyc, bus.stb;
        CommandStep(stall, ack, draw);
        ResponseStep(cyc0 && ack && (pipelined || stb0), err, datIn);
        bus := bus.(cyc := respQueue != []);
      }
    }

    /**
     * rst_method: every pin low, every awaiting request completed with
     * INCOMPLETE, and the command, request and beat queues cleared.
     */
    method Reset()
      modifies this`cmdQueue, this`respQueue, this`respData, this`bus, this`completed
      ensures Valid() && bus == WB_IDLE && cmdQueue == [] && respQueue == [] && respData == []
      ensures completed == old(completed) + Incompleted(old(respQueue))
    {
      bus := WB_IDLE;
      completed := DrainQueue(respQueue, completed);
      cmdQueue, respQueue, respData := [], [], [];
    }

    /**
     * cmd_method: when no command is on the bus, or the one there is taken
     * (STALL_I low when pipelined, ACK_I in classic mode), the next
     * queued command goes out if the gate allows; otherwise STB_O and the
     * command pins drop. A command still waiting stays on the bus.
     */
    method CommandStep(stall: bool, ack: bool, draw: bool)
      modifies this`cmdQueue, this`bus
      ensures State() == Commanded(old(State()), pipelined, stall, ack, draw)
      ensures var free := !old(bus.stb) || (if pipelined then !stall else ack);
              && (free && old(cmdQueue) != [] && draw ==>
                    var c := old(cmdQueue[0]);
                    cmdQueue == old(cmdQueue[1..])
                    && bus == WbOut(old(bus.cyc), true, c.we, c.adr, c.cti, c.dat, c.sel))
              && (free && !(old(cmdQueue) != [] && draw) ==>
                    cmdQueue == old(cmdQueue) && bus == WB_IDLE.(cyc := old(bus.cyc)))
              && (!free ==> cmdQueue == old(cmdQueue) && bus == old(bus))
    {
      if !bus.stb || (if pipelined then !stall else ack) {
        if cmdQueue != [] && draw {
          var c := cmdQueue[0];
          cmdQueue := cmdQueue[1..];
          bus := WbOut(bus.cyc, true, c.we, c.adr, c.cti, c.dat, c.sel);
        } else {
          bus := WB_IDLE.(cyc := bus.cyc);
        }
      }
    }

    /**
     * resp_method, given whether an acknowledged beat arrived: the beat
     * joins the oldest request's beats, ERR_I marks it GENERIC_ERROR, and
     * the request completes (with set_data for a read only) exactly when
     * it holds size() beats. A beat with no request awaiting it is
     * reported and changes no queue.
     */
    method ResponseStep(beat: bool, err: bool, datIn: nat)
      requires Valid()
      modifies this`respQueue, this`respData, this`completed, this`errors
      ensures Valid() && old(completed) <= completed
      ensures |respQueue| + |completed| == old(|respQueue| + |completed|)
      ensures State() == Answered(old(State()), beat, err, datIn)
      ensures !beat ==> respQueue == old(respQueue) && respData == old(respData)
                        && completed == old(completed) && errors == old(errors)
      ensures beat && old(respQueue) == [] ==>
                respQueue == [] && completed == old(completed) && errors == old(errors) + 1
      ensures beat && old(respQueue) != [] ==>
                var ts := old(respQueue[0]).(status := AfterError(old(respQueue[0]).status, err));
                var got := old(respData) + [datIn];
                && errors == old(errors)
                && (|got| == ts.size ==>
                      && completed == old(completed) + [if ts.write then ts else ts.(data := got)]
                      && respQueue == old(respQueue[1..]) && respData == [])
                && (|got| < ts.size ==>
                      completed == old(completed) && respQueue == old(respQueue)[0 := ts] && respData == got)
    {
      if beat {
        if respQueue == [] {
          errors := errors + 1;
        } else {
          var ts: ValidJob := respQueue[0].(status := AfterError(respQueue[0].status, err));
          var got := respData + [datIn];
          if |got| == ts.size {
            completed := completed + [if ts.write then ts else ts.(data := got)];
            respQueue := respQueue[1..];
            respData := [];
          } else {
            respQueue := respQueue[0 := ts];
            respData := got;
          }
        }
      }
    }
  }
}
