/**
 * The APB master adapter (dlsc_apb_tlm_master_template): each TLM request
 * arriving at its target becomes a burst of single-word APB transfers
 * (chapter 3 of ARM IHI 0024: a setup cycle with PSEL, then access cycles
 * with PENABLE until PREADY). The sampled input pins and the
 * `rand() % 100 < sel_pct` gate are parameters; the driven output pins are
 * a field. Reads of an output port inside clk_method see the value from
 * before the edge, so the step works from the values it started with.
 */
module ApbMaster {
  import opened Tlm
  import opened BusJob
  import opened WordBurst

  /** The driven pins: PADDR, PSEL, PENABLE, PWRITE, PWDATA, PSTRB. */
  datatype ApbOut = ApbOut(addr: nat, sel: bool, enable: bool, write: bool, wdata: nat, strb: nat)

  const APB_IDLE := ApbOut(0, false, false, false, 0, 0)

  /** A write burst at the head holds one strobe word for each data word still to go. */
  ghost predicate StrobesFollow(bt: Burst)
  {
    bt.job.write ==> |bt.strb| == |bt.data| <= |bt.job.strobes| && bt.strb == bt.job.strobes[|bt.job.strobes| - |bt.strb|..]
  }

  /** What a clock can change: the burst queue, the driven pins and the completions so far. */
  datatype MasterState = MasterState(btQueue: seq<Burst>, bus: ApbOut, completed: seq<Job>)

  /**
   * PREADY in an access cycle, from state s: PSEL and PENABLE drop, and
   * the head burst takes the answer, completing with its last beat.
   */
  function Transferred(s: MasterState, rdata: nat, slverr: bool): MasterState
    requires s.btQueue != []
  {
    var a := AnswerHead(s.btQueue, s.completed, rdata, slverr);
    MasterState(a.queue, s.bus.(sel := false, enable := false), a.completed)
  }

  /** The head burst of s has a beat left to start, with its data and strobe word for a write. */
  predicate Startable(s: MasterState)
  {
    s.btQueue != [] && s.btQueue[0].addrs != []
    && (s.btQueue[0].job.write ==> s.btQueue[0].data != [] && s.btQueue[0].strb != [])
  }

  /** The setup cycle of the head burst's next beat, from state s. */
  function Started(s: MasterState): MasterState
    requires Startable(s)
  {
    var bt := s.btQueue[0];
    if bt.job.write then
      s.(bus := s.bus.(addr := bt.addrs[0] % ADDR_LIMIT, wdata := bt.data[0], strb := bt.strb[0], write := true, sel := true),
         btQueue := s.btQueue[0 := bt.(addrs := bt.addrs[1..], data := bt.data[1..], strb := bt.strb[1..])])
    else
      s.(bus := s.bus.(addr := bt.addrs[0] % ADDR_LIMIT, strb := 0, write := false, sel := true),
         btQueue := s.btQueue[0 := bt.(addrs := bt.addrs[1..])])
  }

  class Master {
    /** sizeof(DATATYPE), the bus width in bytes. */
    const width: nat
    var btQueue: seq<Burst>
    var bus: ApbOut
    /** Every complete() call, in order. */
    var completed: seq<Job>

    ghost predicate Valid()
      reads this
    {
      && width >= 1
      && (!bus.sel ==> !bus.enable)
      && (bus.sel ==> btQueue != [])
      && (btQueue != [] ==> Underway(btQueue[0], width, if bus.sel then 1 else 0) && StrobesFollow(btQueue[0]))
      && (forall i :: 1 <= i < |btQueue| ==> Fresh(btQueue[i], width))
    }

    function State(): MasterState
      reads this`btQueue, this`bus, this`completed
    {
      MasterState(btQueue, bus, completed)
    }

    constructor (w: nat)
      requires w >= 1
      ensures Valid() && width == w && btQueue == [] && bus == APB_IDLE && completed == []
    {
      width := w;
      btQueue, bus, completed := [], APB_IDLE, [];
    }

    /**
     * target_callback: preset OK and queue a burst of size() beat
     * addresses; a write also captures its size() data and strobe words,
     * a read starts with no data.
     */
    method TargetCallback(j: Job)
      requires Valid() && j.Valid()
      modifies this`btQueue
      ensures Valid()
      ensures btQueue == old(btQueue) + [NewBurst(j, width)]
    {
      var bt := NewBurst(j, width);
      if btQueue == [] {
        FreshIsUnderway(bt, width);
      }
      btQueue := btQueue + [bt];
    }

    /**
     * clk_method: reset, or one clock of the APB state machine. Idle, a
     * beat may start; after a setup cycle PENABLE rises; an access cycle
     * waits for PREADY, which ends the transfer, and then the next beat
     * may start at once.
     */
    method Clock(rst: bool, ready: bool, rdata: nat, slverr: bool, draw: bool)
      requires Valid()
      modifies this`btQueue, this`bus, this`completed
      ensures Valid() && old(completed) <= completed
      ensures |btQueue| + |completed| == old(|btQueue| + |completed|)
      ensures rst ==> State() == MasterState([], APB_IDLE, old(completed) + Incompleted(JobsOf(old(btQueue))))
      ensures !rst && !old(bus.sel) ==>
                if old(btQueue) != [] && draw then Startable(old(State())) && State() == Started(old(State()))
                else State() == old(State())
      ensures !rst && old(bus.sel && !bus.enable) ==> State() == old(State()).(bus := old(bus).(enable := true))
      ensures !rst && old(bus.sel && bus.enable) && !ready ==> State() == old(State())
      ensures !rst && old(bus.sel && bus.enable) && ready ==>
                var m := Transferred(old(State()), rdata, slverr);
                if m.btQueue != [] && draw then Startable(m) && State() == Started(m) else State() == m
    {
      if rst {
        Reset();
      } else {
        var sel0, enable0 := bus.sel, bus.enable;
        Respond(ready, rdata, slverr);
        ghost var m := State();
        if (!sel0 || (enable0 && ready)) && btQueue != [] && draw {
          StartBeat();
        }
      }
    }

    /** The reset branch of clk_method: outputs idle, every queued burst completed with INCOMPLETE. */
    method Reset()
      requires Valid()
      modifies this`btQueue, this`bus, this`completed
      ensures Valid() && bus == APB_IDLE && btQueue == []
      ensures completed == old(completed) + Incompleted(JobsOf(old(btQueue)))
    {
      bus := APB_IDLE;
      completed := DrainQueue(JobsOf(btQueue), completed);
      btQueue := [];
    }

    /**
     * The transfer in progress: after its setup cycle PENABLE rises; in an
     * access cycle PREADY ends it.
     */
    method Respond(ready: bool, rdata: nat, slverr: bool)
      requires Valid()
      modifies this`btQueue, this`bus, this`completed
      ensures Valid() && old(completed) <= completed
      ensures |btQueue| + |completed| == old(|btQueue| + |completed|)
      ensures !old(bus.sel) || (old(bus.enable) && ready) ==> !bus.sel
      ensures !old(bus.sel) || (old(bus.enable) && !ready) ==> unchanged(this)
      ensures old(bus.sel && !bus.enable) ==>
                bus == old(bus).(enable := true) && btQueue == old(btQueue) && completed == old(completed)
      ensures old(bus.sel && bus.enable) && ready ==> State() == Transferred(old(State()), rdata, slverr)
    {
      if bus.sel {
        if !bus.enable {
          bus := bus.(enable := true);
        } else if ready {
          EndTransfer(rdata, slverr);
        }
      }
    }

    /**
     * PREADY in an access cycle: PSEL and PENABLE drop, PSLVERR marks the
     * request GENERIC_ERROR, and the request completes when its last beat
     * is answered: a write once no data is left, a read (via set_data)
     * once it holds size() words. Until then it stays at the head.
     */
    method EndTransfer(rdata: nat, slverr: bool)
      requires Valid() && bus.sel && bus.enable
      modifies this`btQueue, this`bus, this`completed
      ensures Valid() && bus == old(bus).(sel := false, enable := false)
      ensures old(completed) <= completed
      ensures |btQueue| + |completed| == old(|btQueue| + |completed|)
      ensures State() == Transferred(old(State()), rdata, slverr)
    {
      if btQueue[0].job.write {
        EndWrite(slverr);
      } else {
        EndRead(rdata, slverr);
      }
    }

    /** EndTransfer for a write burst. */
    method EndWrite(slverr: bool)
      requires Valid() && bus.sel && bus.enable && btQueue[0].job.write
      modifies this`btQueue, this`bus, this`completed
      ensures Valid() && bus == old(bus).(sel := false, enable := false)
      ensures var bt := old(btQueue[0]);
              var ts := bt.job.(status := AfterError(bt.job.status, slverr));
              && (bt.data == [] ==> completed == old(completed) + [ts] && btQueue == old(btQueue[1..]))
              && (bt.data != [] ==> completed == old(completed) && btQueue == old(btQueue)[0 := bt.(job := ts)])
    {
      bus := bus.(sel := false, enable := false);
      var bt := btQueue[0];
      var ts := bt.job.(status := AfterError(bt.job.status, slverr));
      if bt.data == [] {
        PopHead(btQueue, width);
        completed := completed + [ts];
        btQueue := btQueue[1..];
      } else {
        WriteSettles(bt, width, ts.status);
        ReplaceHead(btQueue, bt.(job := ts), btQueue[0 := bt.(job := ts)], width);
        btQueue := btQueue[0 := bt.(job := ts)];
      }
    }

    /** EndTransfer for a read burst: PRDATA joins the words already returned. */
    method EndRead(rdata: nat, slverr: bool)
      requires Valid() && bus.sel && bus.enable && !btQueue[0].job.write
      modifies this`btQueue, this`bus, this`completed
      ensures Valid() && bus == old(bus).(sel := false, enable := false)
      ensures var bt := old(btQueue[0]);
              var ts := bt.job.(status := AfterError(bt.job.status, slverr));
              var got := bt.data + [rdata];
              && (|got| == bt.job.size ==> completed == old(completed) + [ts.(data := got)] && btQueue == old(btQueue[1..]))
              && (|got| < bt.job.size ==> completed == old(completed) && btQueue == old(btQueue)[0 := bt.(job := ts, data := got)])
    {
      bus := bus.(sel := false, enable := false);
      var bt := btQueue[0];
      var ts := bt.job.(status := AfterError(bt.job.status, slverr));
      var got := bt.data + [rdata];
      if |got| == ts.size {
        PopHead(btQueue, width);
        completed := completed + [ts.(data := got)];
        btQueue := btQueue[1..];
      } else {
        ReadSettles(bt, width, ts.status, got[|got| - 1]);
        assert bt.data + [got[|got| - 1]] == got;
        ReplaceHead(btQueue, bt.(job := ts, data := got), btQueue[0 := bt.(job := ts, data := got)], width);
        btQueue := btQueue[0 := bt.(job := ts, data := got)];
      }
    }

    /**
     * Starting a transfer: the head burst's next beat address goes on
     * PADDR with PSEL; a write beat also takes one data and one strobe
     * word, a read beat drives PSTRB low.
     */
    method StartBeat()
      requires Valid() && !bus.sel && btQueue != []
      modifies this`btQueue, this`bus
      ensures Valid()
      ensures Startable(old(State())) && State() == Started(old(State()))
      ensures var bt := old(btQueue[0]);
              var k := bt.job.size - |bt.addrs|;
              && 0 <= k < bt.job.size && bt.addrs != []
              && bt.addrs[0] == BeatAddresses(bt.job, width)[k] && bus.addr == bt.addrs[0] % ADDR_LIMIT
              && bus.sel && !bus.enable && bus.write == bt.job.write
              && (bt.job.write ==>
                    && bus.wdata == bt.job.data[k] && bus.strb == bt.job.strobes[k]
                    && btQueue == old(btQueue)[0 := bt.(addrs := bt.addrs[1..], data := bt.data[1..], strb := bt.strb[1..])])
              && (!bt.job.write ==>
                    && bus.wdata == old(bus.wdata) && bus.strb == 0
                    && btQueue == old(btQueue)[0 := bt.(addrs := bt.addrs[1..])])
    {
      var bt := btQueue[0];
      var a := bt.addrs[0] % ADDR_LIMIT;
      if bt.job.write {
        bus := bus.(addr := a, wdata := bt.data[0], strb := bt.strb[0], write := true, sel := true);
        btQueue := btQueue[0 := bt.(addrs := bt.addrs[1..], data := bt.data[1..], strb := bt.strb[1..])];
      } else {
        bus := bus.(addr := a, strb := 0, write := false, sel := true);
        btQueue := btQueue[0 := bt.(addrs := bt.addrs[1..])];
      }
    }
  }
}
