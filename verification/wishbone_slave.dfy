/**
 * The Wishbone slave adapter (dlsc_wishbone_tlm_slave_template): Wishbone
 * commands seen on its pins become TLM requests issued through a
 * non-blocking initiator, and the finished requests are played back as
 * acknowledged beats. In pipelined mode consecutive commands of one
 * direction at consecutive addresses are merged into one burst request;
 * in classic mode each command is a request of its own. Every clock edge
 * runs reset, or the command, response and stall steps in that order. The
 * sampled input pins, the `rand() % 100` gates and what the initiator
 * reports about the oldest request are parameters; the driven output pins
 * are fields. The initiator calls are recorded in `issued`.
 */
module WishboneSlave {
  import opened Tlm
  import opened BusJob
  import opened WordBurst
  import opened WishboneTypes

  /** max_length: the longest burst the merging builds. */
  const MAX_LENGTH: nat := 8

  /** max_outstanding: pipelined STALL_O is forced once this many commands await their beats. */
  const MAX_OUTSTANDING: int := 16

  /** The pins sampled on a rising clock edge: CYC_I, STB_I, WE_I, ADR_I, CTI_I, DAT_I, SEL_I. */
  datatype WbIn = WbIn(cyc: bool, stb: bool, we: bool, adr: nat, cti: nat, dat: nat, sel: nat)

  /**
   * The beats a finished request is answered with: b_read's words for a
   * successful read, zeros for a write or a failed read.
   */
  function ResponseBeats(ts: Issued, reply: Reply): (beats: seq<nat>)
    ensures |beats| == ts.length
    ensures ts.read && reply.status == Ok && ts.length <= |reply.data| ==> beats == reply.data[..ts.length]
    ensures !ts.read || reply.status != Ok ==> forall i :: 0 <= i < |beats| ==> beats[i] == 0
  {
    var beats := ReadBeats(reply, ts.length);
    if ts.read && reply.status == Ok then beats else Resized([], ts.length)
  }

  /** The request pipe_submit issues for an accumulated burst: nb_write(addr, data, strobes) or nb_read(addr, count). */
  function Call(we: bool, addr: nat, data: seq<nat>, strb: seq<nat>): (c: Issued)
    ensures c.read == !we && c.address == addr && c.length == |data|
    ensures we ==> c.data == data && c.strobes == strb
    ensures !we ==> c.data == [] && c.strobes == []
  {
    if we then Issued(false, addr, |data|, data, strb) else Issued(true, addr, |data|, [], [])
  }

  /**
   * An accumulator of at most max_length commands: one direction, the
   * addresses consecutive words from `addr`, a read's data all zero, and
   * an empty one cleared.
   */
  ghost predicate Shape(we: bool, addr: nat, data: seq<nat>, strb: seq<nat>, addrs: seq<nat>, width: nat)
  {
    && |data| == |strb| == |addrs| <= MAX_LENGTH
    && (data == [] ==> !we && addr == 0)
    && addrs == Strided(addr, |data|, width)
    && (!we ==> forall i :: 0 <= i < |data| ==> data[i] == 0)
  }

  /** One more command of the same direction at the next address keeps the shape. */
  lemma ShapeSnoc(we: bool, addr: nat, data: seq<nat>, strb: seq<nat>, addrs: seq<nat>, width: nat, word: nat, sel: nat)
    requires |data| < MAX_LENGTH && |data| == |strb| == |addrs|
    requires addrs == Strided(addr, |data|, width)
    requires !we ==> word == 0 && forall i :: 0 <= i < |data| ==> data[i] == 0
    ensures Shape(we, addr, data + [word], strb + [sel], addrs + [addr + width * |data|], width)
  {
    StridedSnoc(addr, |data|, width);
    assert !we ==> forall i :: 0 <= i < |data| + 1 ==> (data + [word])[i] == 0;
  }

  /** The command accumulator: direction, first address, and a data and strobe word per command. */
  datatype Pipe = Pipe(we: bool, addr: nat, data: seq<nat>, strb: seq<nat>)

  const PIPE_EMPTY := Pipe(false, 0, [], [])

  /** What a clock can change: the queues, flags, counters, accumulator, driven pins and the calls issued. */
  datatype SlaveState = SlaveState(
    respQueue: seq<Issued>, dataQueue: seq<nat>, cmdAck: bool, cmdFirst: bool, outstanding: int,
    pipe: Pipe, stall: bool, ack: bool, err: bool, dat: nat, issued: seq<Issued>, errors: nat)

  /** pipe_submit from state s: the accumulated burst is issued and queued, and the accumulator cleared. */
  function AfterSubmit(s: SlaveState): SlaveState
  {
    var call := Call(s.pipe.we, s.pipe.addr, s.pipe.data, s.pipe.strb);
    s.(issued := s.issued + [call], respQueue := s.respQueue + [call], pipe := PIPE_EMPTY)
  }

  /** A command joining the accumulator of s; a read contributes a zero data word. */
  function AfterPush(s: SlaveState, we: bool, adr: nat, data: nat, sel: nat): SlaveState
  {
    s.(pipe := Pipe(we, if s.pipe.data == [] then adr else s.pipe.addr,
                    s.pipe.data + [if we then data else 0], s.pipe.strb + [sel]))
  }

  /**
   * A new pipelined command from state s: a burst it does not continue
   * is submitted first, and a burst reaching max_length is submitted.
   */
  function AfterAccumulate(s: SlaveState, width: nat, we: bool, adr: nat, data: nat, sel: nat): SlaveState
  {
    var s1 := if s.pipe.data != [] && (s.pipe.we != we || s.pipe.addr + width * |s.pipe.data| != adr) then AfterSubmit(s) else s;
    var s2 := AfterPush(s1, we, adr, data, sel);
    if |s2.pipe.data| >= MAX_LENGTH then AfterSubmit(s2) else s2
  }

  /** A classic command from state s: a one-word write, or the first read of a cycle and a registered INCR read-ahead. */
  function AfterClassic(s: SlaveState, registered: bool, width: nat, pins: WbIn): SlaveState
  {
    if pins.we then
      var call := Issued(false, pins.adr, 1, [pins.dat], [pins.sel]);
      s.(issued := s.issued + [call], respQueue := s.respQueue + [call])
    else
      var incr := registered && pins.cti == WB_CTI_INCR;
      var calls := (if s.cmdFirst then [Issued(true, pins.adr, 1, [], [])] else [])
                   + (if incr then [Issued(true, pins.adr + width, 1, [], [])] else []);
      s.(issued := s.issued + calls, respQueue := s.respQueue + calls, cmdFirst := !incr)
  }

  /** The issuing half of cmd_method from state s. */
  function AfterIssue(s: SlaveState, pipelined: bool, registered: bool, width: nat, pins: WbIn): SlaveState
  {
    if pipelined then
      if pins.cyc && pins.stb && !s.stall && !s.cmdAck then AfterAccumulate(s, width, pins.we, pins.adr, pins.dat, pins.sel)
      else if s.pipe.data != [] then AfterSubmit(s)
      else s
    else if pins.cyc && pins.stb && !s.cmdAck then AfterClassic(s, registered, width, pins)
    else s
  }

  /** The handshake bookkeeping of cmd_method from state s. */
  function AfterHandshake(s: SlaveState, pipelined: bool, pins: WbIn): SlaveState
  {
    var accept := pins.cyc && pins.stb && (!pipelined || !s.stall) && !s.cmdAck;
    var taken := pins.cyc && pins.stb && (if pipelined then !s.stall else s.ack);
    var cmdAck := !taken && (accept || s.cmdAck);
    s.(outstanding := s.outstanding + (if accept then 1 else 0), cmdAck := cmdAck,
       errors := s.errors + (if !pins.cyc && cmdAck then 1 else 0))
  }

  /** A cycle dropped with requests or beats left is reported. */
  function AfterDrop(s: SlaveState, cyc: bool): SlaveState
  {
    s.(errors := s.errors + (if !cyc && (s.respQueue != [] || s.dataQueue != []) then 1 else 0))
  }

  /** Once the previous request's beats are all sent and the oldest request is done, its beats are loaded. */
  function AfterLoad(s: SlaveState, head: Reply): SlaveState
  {
    if s.dataQueue == [] && s.respQueue != [] && head.done then
      s.(respQueue := s.respQueue[1..], err := head.status != Ok, dataQueue := ResponseBeats(s.respQueue[0], head))
    else s
  }

  /** The next beat acknowledged if the gate allows; with none to send the response pins drop. */
  function AfterBeat(s: SlaveState, ackDraw: bool): SlaveState
  {
    if s.dataQueue == [] then s.(ack := false, err := false, dat := 0)
    else if ackDraw then s.(ack := true, dat := s.dataQueue[0], dataQueue := s.dataQueue[1..], outstanding := s.outstanding - 1)
    else s.(ack := false)
  }

  /** resp_method from state s, with the oldest request's reply `head`. */
  function AfterResponse(s: SlaveState, pipelined: bool, cyc: bool, stb: bool, head: Reply, ackDraw: bool): SlaveState
  {
    var s1 := AfterDrop(s, cyc);
    if pipelined || stb then AfterBeat(AfterLoad(s1, head), ackDraw) else s1
  }

  /** Loading the oldest done request's beats touches only the response queues and ERR_O. */
  lemma LoadFields(s: SlaveState, head: Reply)
    ensures var l := AfterLoad(s, head);
            var loads := s.dataQueue == [] && s.respQueue != [] && head.done;
            && l == s.(respQueue := l.respQueue, dataQueue := l.dataQueue, err := l.err)
            && l.respQueue == (if loads then s.respQueue[1..] else s.respQueue)
            && l.dataQueue == (if loads then ResponseBeats(s.respQueue[0], head) else s.dataQueue)
            && l.err == (if loads then head.status != Ok else s.err)
  {
  }

  /** Sending a beat touches only the beat queue, the response pins and the outstanding count. */
  lemma BeatFields(s: SlaveState, ackDraw: bool)
    ensures var b := AfterBeat(s, ackDraw);
            && b == s.(dataQueue := b.dataQueue, ack := b.ack, err := b.err, dat := b.dat, outstanding := b.outstanding)
            && (s.dataQueue != [] && ackDraw ==>
                  && b.ack && b.dat == s.dataQueue[0] && b.dataQueue == s.dataQueue[1..]
                  && b.outstanding == s.outstanding - 1 && b.err == s.err)
            && (s.dataQueue != [] && !ackDraw ==>
                  && !b.ack && b.dataQueue == s.dataQueue && b.outstanding == s.outstanding && b.err == s.err)
            && (s.dataQueue == [] ==> !b.ack && !b.err && b.dat == 0 && b.dataQueue == [] && b.outstanding == s.outstanding)
  {
  }

  /**
   * What resp_method does to each part of the state: a dropped cycle
   * with work left is reported; with STB_I high or when pipelined the
   * oldest done request's beats are loaded once the previous ones are
   * sent, and the next beat is acknowledged if the gate allows.
   */
  lemma ResponseFields(s: SlaveState, pipelined: bool, cyc: bool, stb: bool, head: Reply, ackDraw: bool)
    ensures var r := AfterResponse(s, pipelined, cyc, stb, head, ackDraw);
            && r.errors == s.errors + (if !cyc && (s.respQueue != [] || s.dataQueue != []) then 1 else 0)
            && r.pipe == s.pipe && r.issued == s.issued && r.cmdAck == s.cmdAck && r.cmdFirst == s.cmdFirst
            && r.stall == s.stall
            && (!(pipelined || stb) ==> r == s.(errors := r.errors))
    ensures pipelined || stb ==>
              var r := AfterResponse(s, pipelined, cyc, stb, head, ackDraw);
              var loads := s.dataQueue == [] && s.respQueue != [] && head.done;
              var beats := if loads then ResponseBeats(s.respQueue[0], head) else s.dataQueue;
              && r.respQueue == (if loads then s.respQueue[1..] else s.respQueue)
              && (beats != [] && ackDraw ==>
                    r.ack && r.dat == beats[0] && r.dataQueue == beats[1..] && r.outstanding == s.outstanding - 1)
              && (beats != [] && !ackDraw ==> !r.ack && r.dataQueue == beats && r.outstanding == s.outstanding)
              && (beats == [] ==> !r.ack && !r.err && r.dat == 0 && r.dataQueue == [] && r.outstanding == s.outstanding)
              && (loads && beats != [] ==> r.err == (head.status != Ok))
              && (!loads && beats != [] ==> r.err == s.err)
  {
    var s1 := AfterDrop(s, cyc);
    LoadFields(s1, head);
    BeatFields(AfterLoad(s1, head), ackDraw);
  }

  /** stall_method from state s. */
  function AfterStall(s: SlaveState, pipelined: bool, stallDraw: bool): SlaveState
  {
    s.(stall := pipelined && (s.outstanding >= MAX_OUTSTANDING || stallDraw))
  }

  class Slave {
    /** sizeof(DATATYPE), the bus width in bytes. */
    const width: nat
    /** Pipelined (STALL_O) rather than classic handshaking. */
    var pipelined: bool
    /** `registered`: classic INCR reads are fetched one beat ahead. */
    const registered: bool
    /** resp_queue: the issued requests not yet played back, oldest first. */
    var respQueue: seq<Issued>
    /** data_queue: the beats still to acknowledge for the request being played back. */
    var dataQueue: seq<nat>
    var cmdAck: bool
    var cmdFirst: bool
    /** Commands accepted less beats acknowledged. */
    var outstanding: int
    /** The command accumulator: direction, first address, and a data and strobe word per command. */
    var pipeWe: bool
    var pipeAddr: nat
    var pipeData: seq<nat>
    var pipeStrb: seq<nat>
    /** The addresses of the commands in the accumulator. */
    ghost var pipeAddrs: seq<nat>
    var stall: bool
    var ack: bool
    var err: bool
    var dat: nat
    /** Every initiator call, in order. */
    var issued: seq<Issued>
    /** dlsc_error reports. */
    var errors: nat

    /**
     * The accumulator holds fewer than max_length commands of one
     * direction at consecutive word addresses from pipeAddr, a read's
     * carrying zero data; an empty one is cleared.
     */
    ghost predicate Valid()
      reads this`pipeWe, this`pipeAddr, this`pipeData, this`pipeStrb, this`pipeAddrs
    {
      Accumulated() && |pipeData| < MAX_LENGTH
    }

    /** The accumulator's shape, up to and including a full burst. */
    ghost predicate Accumulated()
      reads this`pipeWe, this`pipeAddr, this`pipeData, this`pipeStrb, this`pipeAddrs
    {
      Shape(pipeWe, pipeAddr, pipeData, pipeStrb, pipeAddrs, width)
    }

    function State(): SlaveState
      reads this
    {
      SlaveState(respQueue, dataQueue, cmdAck, cmdFirst, outstanding, Pipe(pipeWe, pipeAddr, pipeData, pipeStrb),
                 stall, ack, err, dat, issued, errors)
    }

    constructor (w: nat)
      ensures Valid() && width == w && !pipelined && registered
      ensures respQueue == [] && dataQueue == [] && !cmdAck && cmdFirst && outstanding == 0
      ensures pipeData == [] && !stall && !ack && !err && dat == 0 && issued == [] && errors == 0
    {
      width := w;
      pipelined, registered := false, true;
      respQueue, dataQueue, cmdAck, cmdFirst, outstanding := [], [], false, true, 0;
      pipeWe, pipeAddr, pipeData, pipeStrb, pipeAddrs := false, 0, [], [], [];
      stall, ack, err, dat := false, false, false, 0;
      issued, errors := [], 0;
    }

    /** set_pipelined. */
    method SetPipelined(p: bool)
      modifies this`pipelined
      ensures pipelined == p
    {
      pipelined := p;
    }

    /** clk_method: reset, or the command, response and stall steps. */
    method Clock(rst: bool, pins: WbIn, head: Reply, ackDraw: bool, stallDraw: bool)
      requires Valid()
      modifies this
      ensures Valid() && old(issued) <= issued
      ensures !rst && pipelined && outstanding >= MAX_OUTSTANDING ==> stall
      ensures !pipelined ==> !stall
      ensures pipelined == old(pipelined)
      ensures rst ==> State() == old(State()).(
                stall := false, ack := false, err := false, dat := 0, cmdAck := false, cmdFirst := true, outstanding := 0,
                pipe := PIPE_EMPTY, respQueue := [], dataQueue := [])
      ensures !rst ==>
                var c := AfterHandshake(AfterIssue(old(State()), pipelined, registered, width, pins), pipelined, pins);
                State() == AfterStall(AfterResponse(c, pipelined, pins.cyc, pins.stb, head, ackDraw), pipelined, stallDraw)
    {
      if rst {
        Reset();
      } else {
        Step(pins, head, ackDraw, stallDraw);
      }
    }

    /** A clock edge out of reset: the command, response and stall steps in order. */
    method Step(pins: WbIn, head: Reply, ackDraw: bool, stallDraw: bool)
      requires Valid()
      modifies this`pipeWe, this`pipeAddr, this`pipeData, this`pipeStrb, this`pipeAddrs, this`respQueue, this`issued
      modifies this`cmdFirst, this`cmdAck, this`outstanding, this`errors, this`dataQueue, this`ack, this`err, this`dat, this`stall
      ensures Valid() && old(issued) <= issued
      ensures stall == (pipelined && (outstanding >= MAX_OUTSTANDING || stallDraw))
      ensures var c := AfterHandshake(AfterIssue(old(State()), pipelined, registered, width, pins), pipelined, pins);
              State() == AfterStall(AfterResponse(c, pipelined, pins.cyc, pins.stb, head, ackDraw), pipelined, stallDraw)
    {
      CommandStep(pins);
      Finish(pins.cyc, pins.stb, head, ackDraw, stallDraw);
    }

    /** The response and stall steps of a clock edge out of reset. */
    method Finish(cyc: bool, stb: bool, head: Reply, ackDraw: bool, stallDraw: bool)
      requires Valid()
      modifies this`respQueue, this`dataQueue, this`ack, this`err, this`dat, this`outstanding, this`errors, this`stall
      ensures Valid() && issued == old(issued)
      ensures stall == (pipelined && (outstanding >= MAX_OUTSTANDING || stallDraw))
      ensures State() == AfterStall(AfterResponse(old(State()), pipelined, cyc, stb, head, ackDraw), pipelined, stallDraw)
    {
      ResponseStep(cyc, stb, head, ackDraw);
      StallStep(stallDraw);
    }

    /** rst_method: pins low, flags and counter back to their start, accumulator and queues cleared. */
    method Reset()
      modifies this`stall, this`ack, this`err, this`dat, this`cmdAck, this`cmdFirst, this`outstanding
      modifies this`pipeWe, this`pipeAddr, this`pipeData, this`pipeStrb, this`pipeAddrs, this`respQueue, this`dataQueue
      ensures Valid() && !stall && !ack && !err && dat == 0 && !cmdAck && cmdFirst && outstanding == 0
      ensures pipeData == [] && respQueue == [] && dataQueue == []
      ensures !pipeWe && pipeAddr == 0 && pipeStrb == []
    {
      ResetPins();
      ClearQueues();
    }

    /** The pins, flags and counter of rst_method. */
    method ResetPins()
      modifies this`stall, this`ack, this`err, this`dat, this`cmdAck, this`cmdFirst, this`outstanding
      ensures !stall && !ack && !err && dat == 0 && !cmdAck && cmdFirst && outstanding == 0
    {
      stall, ack, err, dat := false, false, false, 0;
      cmdAck, cmdFirst, outstanding := false, true, 0;
    }

    /** The accumulator and queues of rst_method. */
    method ClearQueues()
      modifies this`pipeWe, this`pipeAddr, this`pipeData, this`pipeStrb, this`pipeAddrs, this`respQueue, this`dataQueue
      ensures Valid() && pipeData == [] && respQueue == [] && dataQueue == []
      ensures !pipeWe && pipeAddr == 0 && pipeStrb == []
    {
      pipeWe, pipeAddr, pipeData, pipeStrb, pipeAddrs := false, 0, [], [], [];
      respQueue, dataQueue := [], [];
    }

    /**
     * pipe_submit: the accumulated commands go out as one request and the
     * accumulator is cleared. The request is 1 to max_length words long
     * and covers exactly the accumulated commands' addresses.
     */
    method Submit()
      requires Accumulated() && pipeData != []
      modifies this`pipeWe, this`pipeAddr, this`pipeData, this`pipeStrb, this`pipeAddrs, this`respQueue, this`issued
      ensures Valid() && pipeData == []
      ensures var call := Call(old(pipeWe), old(pipeAddr), old(pipeData), old(pipeStrb));
              issued == old(issued) + [call] && respQueue == old(respQueue) + [call]
      ensures 1 <= old(|pipeData|) <= MAX_LENGTH && Strided(old(pipeAddr), old(|pipeData|), width) == old(pipeAddrs)
      ensures State() == AfterSubmit(old(State()))
    {
      Issue1(Call(pipeWe, pipeAddr, pipeData, pipeStrb));
      ClearPipe();
    }

    /** One request issued through the initiator and queued for playback. */
    method Issue1(call: Issued)
      modifies this`respQueue, this`issued
      ensures State() == old(State()).(issued := old(issued) + [call], respQueue := old(respQueue) + [call])
    {
      issued := issued + [call];
      respQueue := respQueue + [call];
    }

    /** The accumulator cleared. */
    method ClearPipe()
      modifies this`pipeWe, this`pipeAddr, this`pipeData, this`pipeStrb, this`pipeAddrs
      ensures Valid() && State() == old(State()).(pipe := PIPE_EMPTY)
    {
      pipeWe, pipeAddr, pipeData, pipeStrb, pipeAddrs := false, 0, [], [], [];
    }

    /**
     * cmd_method: the pipelined accumulation or the classic issue, then
     * the handshake bookkeeping common to both.
     */
    method CommandStep(pins: WbIn)
      requires Valid()
      modifies this`pipeWe, this`pipeAddr, this`pipeData, this`pipeStrb, this`pipeAddrs, this`respQueue, this`issued
      modifies this`cmdFirst, this`cmdAck, this`outstanding, this`errors
      ensures Valid() && old(issued) <= issued
      ensures outstanding == old(outstanding) + (if pins.cyc && pins.stb && (!pipelined || !stall) && !old(cmdAck) then 1 else 0)
      ensures State() == AfterHandshake(AfterIssue(old(State()), pipelined, registered, width, pins), pipelined, pins)
    {
      Issue(pins);
      Handshake(pins);
    }

    /**
     * The issuing half of cmd_method: when pipelined, a new command is
     * accumulated and a cycle with none submits what is pending; in
     * classic mode a new command is issued at once.
     */
    method Issue(pins: WbIn)
      requires Valid()
      modifies this`pipeWe, this`pipeAddr, this`pipeData, this`pipeStrb, this`pipeAddrs, this`respQueue, this`issued
      modifies this`cmdFirst
      ensures Valid() && old(issued) <= issued
      ensures pipelined && !(pins.cyc && pins.stb && !stall && !cmdAck) ==> pipeData == []
      ensures State() == AfterIssue(old(State()), pipelined, registered, width, pins)
    {
      if pipelined {
        PipelinedIssue(pins);
      }
      if !pipelined && pins.cyc && pins.stb && !cmdAck {
        ClassicCommand(pins);
      }
    }

    /** The pipelined half of Issue: a new command is accumulated, and a cycle with none submits what is pending. */
    method PipelinedIssue(pins: WbIn)
      requires Valid() && pipelined
      modifies this`pipeWe, this`pipeAddr, this`pipeData, this`pipeStrb, this`pipeAddrs, this`respQueue, this`issued
      ensures Valid() && old(issued) <= issued
      ensures !(pins.cyc && pins.stb && !stall && !cmdAck) ==> pipeData == []
      ensures State() == AfterIssue(old(State()), true, registered, width, pins)
    {
      if pins.cyc && pins.stb && !stall && !cmdAck {
        Accumulate(pins.we, pins.adr, pins.dat, pins.sel);
      } else if pipeData != [] {
        Submit();
      }
    }

    /**
     * A new pipelined command: it joins the accumulated burst only when
     * it has the same direction and the next word address; otherwise that
     * burst is submitted first. A read command contributes a zero data
     * word. A burst reaching max_length is submitted at once.
     */
    method Accumulate(we: bool, adr: nat, data: nat, sel: nat)
      requires Valid()
      modifies this`pipeWe, this`pipeAddr, this`pipeData, this`pipeStrb, this`pipeAddrs, this`respQueue, this`issued
      ensures Valid()
      ensures var merges := old(pipeData) == [] || (old(pipeWe) == we && old(pipeAddr) + width * old(|pipeData|) == adr);
              var flushed := if merges then [] else [Call(old(pipeWe), old(pipeAddr), old(pipeData), old(pipeStrb))];
              var base := if merges && old(pipeData) != [] then old(pipeAddr) else adr;
              var accData := (if merges then old(pipeData) else []) + [if we then data else 0];
              var accStrb := (if merges then old(pipeStrb) else []) + [sel];
              && (|accData| < MAX_LENGTH ==>
                    && issued == old(issued) + flushed && respQueue == old(respQueue) + flushed
                    && pipeWe == we && pipeAddr == base && pipeData == accData && pipeStrb == accStrb)
              && (|accData| == MAX_LENGTH ==>
                    && issued == old(issued) + flushed + [Call(we, base, accData, accStrb)]
                    && respQueue == old(respQueue) + flushed + [Call(we, base, accData, accStrb)]
                    && pipeData == [])
      ensures State() == AfterAccumulate(old(State()), width, we, adr, data, sel)
    {
      if pipeData != [] && (pipeWe != we || pipeAddr + width * |pipeData| != adr) {
        Submit();
      }
      Push(we, adr, data, sel);
      if |pipeData| >= MAX_LENGTH {
        Submit();
      }
    }

    /** A command joining the accumulator, which is empty or ends just before it in the same direction. */
    method Push(we: bool, adr: nat, data: nat, sel: nat)
      requires Valid() && (pipeData == [] || (pipeWe == we && pipeAddr + width * |pipeData| == adr))
      modifies this`pipeWe, this`pipeAddr, this`pipeData, this`pipeStrb, this`pipeAddrs
      ensures Accumulated() && pipeWe == we
      ensures pipeAddr == (if old(pipeData) == [] then adr else old(pipeAddr))
      ensures pipeData == old(pipeData) + [if we then data else 0] && pipeStrb == old(pipeStrb) + [sel]
      ensures State() == AfterPush(old(State()), we, adr, data, sel)
    {
      if pipeData == [] {
        pipeWe, pipeAddr := we, adr;
      }
      var word := if we then data else 0;
      ShapeSnoc(we, pipeAddr, pipeData, pipeStrb, pipeAddrs, width, word, sel);
      Append(word, sel);
    }

    /** The accumulator grows by a data and a strobe word at the next address. */
    method Append(word: nat, sel: nat)
      modifies this`pipeData, this`pipeStrb, this`pipeAddrs
      ensures pipeAddrs == old(pipeAddrs + [pipeAddr + width * |pipeData|])
      ensures State() == old(State().(pipe := Pipe(pipeWe, pipeAddr, pipeData + [word], pipeStrb + [sel])))
    {
      pipeAddrs := pipeAddrs + [pipeAddr + width * |pipeData|];
      pipeData := pipeData + [word];
      pipeStrb := pipeStrb + [sel];
    }

    /**
     * A classic command: a write is issued as a one-word nb_write. A read
     * of the first beat of a cycle is issued as a one-word nb_read; with
     * registered feedback an INCR read also issues the next word's read
     * ahead, and any other CTI marks the end, so the next read is a first.
     */
    method ClassicCommand(pins: WbIn)
      modifies this`respQueue, this`issued, this`cmdFirst
      ensures pins.we ==>
                var call := Issued(false, pins.adr, 1, [pins.dat], [pins.sel]);
                issued == old(issued) + [call] && respQueue == old(respQueue) + [call] && cmdFirst == old(cmdFirst)
      ensures !pins.we ==>
                var incr := registered && pins.cti == WB_CTI_INCR;
                var calls := (if old(cmdFirst) then [Issued(true, pins.adr, 1, [], [])] else [])
                             + (if incr then [Issued(true, pins.adr + width, 1, [], [])] else []);
                issued == old(issued) + calls && respQueue == old(respQueue) + calls && cmdFirst == !incr
      ensures State() == AfterClassic(old(State()), registered, width, pins)
    {
      if pins.we {
        var call := Issued(false, pins.adr, 1, [pins.dat], [pins.sel]);
        issued := issued + [call];
        respQueue := respQueue + [call];
      } else {
        if cmdFirst {
          cmdFirst := false;
          var call := Issued(true, pins.adr, 1, [], []);
          issued := issued + [call];
          respQueue := respQueue + [call];
        }
        if registered && pins.cti == WB_CTI_INCR {
          var call := Issued(true, pins.adr + width, 1, [], []);
          issued := issued + [call];
          respQueue := respQueue + [call];
        } else {
          cmdFirst := true;
        }
      }
    }

    /**
     * The handshake bookkeeping of cmd_method: a command is accepted
     * (counted outstanding and held acknowledged-pending) when CYC_I and
     * STB_I are high, STALL_O was low in pipelined mode, and none is
     * pending; it stops pending once taken (STALL_O low when pipelined,
     * ACK_O in classic mode). A cycle dropped with a command pending is
     * reported.
     */
    method Handshake(pins: WbIn)
      modifies this`cmdAck, this`outstanding, this`errors
      ensures var accept := pins.cyc && pins.stb && (!pipelined || !stall) && !old(cmdAck);
              var taken := pins.cyc && pins.stb && (if pipelined then !stall else ack);
              && outstanding == old(outstanding) + (if accept then 1 else 0)
              && cmdAck == (!taken && (accept || old(cmdAck)))
              && errors == old(errors) + (if !pins.cyc && cmdAck then 1 else 0)
      ensures State() == AfterHandshake(old(State()), pipelined, pins)
    {
      if pins.cyc && pins.stb && (!pipelined || !stall) && !cmdAck {
        cmdAck := true;
        outstanding := outstanding + 1;
      }
      if pins.cyc && pins.stb && (if pipelined then !stall else ack) {
        cmdAck := false;
      }
      if !pins.cyc && cmdAck {
        errors := errors + 1;
      }
    }

    /**
     * resp_method: with STB_I high (or always when pipelined), once the
     * previous request's beats are all sent and the oldest request is
     * done, it is taken off the queue and its size() beats loaded, with
     * ERR_O set iff it did not end OK; then the next beat is acknowledged
     * if the gate allows. With no beat to send, the response pins drop.
     * A cycle dropped with requests or beats left is reported.
     */
    method ResponseStep(cyc: bool, stb: bool, head: Reply, ackDraw: bool)
      modifies this`respQueue, this`dataQueue, this`ack, this`err, this`dat, this`outstanding, this`errors
      ensures errors == old(errors) + (if !cyc && (old(respQueue) != [] || old(dataQueue) != []) then 1 else 0)
      ensures !(pipelined || stb) ==>
                && respQueue == old(respQueue) && dataQueue == old(dataQueue)
                && ack == old(ack) && err == old(err) && dat == old(dat) && outstanding == old(outstanding)
      ensures pipelined || stb ==>
                var loads := old(dataQueue) == [] && old(respQueue) != [] && head.done;
                var beats := if loads then ResponseBeats(old(respQueue[0]), head) else old(dataQueue);
                && respQueue == (if loads then old(respQueue[1..]) else old(respQueue))
                && (beats != [] && ackDraw ==>
                      ack && dat == beats[0] && dataQueue == beats[1..] && outstanding == old(outstanding) - 1)
                && (beats != [] && !ackDraw ==> !ack && dataQueue == beats && outstanding == old(outstanding))
                && (beats == [] ==> !ack && !err && dat == 0 && dataQueue == [] && outstanding == old(outstanding))
                && (loads && beats != [] ==> err == (head.status != Ok))
                && (!loads && beats != [] ==> err == old(err))
      ensures State() == AfterResponse(old(State()), pipelined, cyc, stb, head, ackDraw)
    {
      ResponseFields(State(), pipelined, cyc, stb, head, ackDraw);
      Respond(cyc, stb, head, ackDraw);
    }

    /** The report, load and beat sub-steps of resp_method in order. */
    method Respond(cyc: bool, stb: bool, head: Reply, ackDraw: bool)
      modifies this`respQueue, this`dataQueue, this`ack, this`err, this`dat, this`outstanding, this`errors
      ensures State() == AfterResponse(old(State()), pipelined, cyc, stb, head, ackDraw)
    {
      ReportDrop(cyc);
      if pipelined || stb {
        LoadHead(head);
        SendBeat(ackDraw);
      }
    }

    method ReportDrop(cyc: bool)
      modifies this`errors
      ensures State() == AfterDrop(old(State()), cyc)
    {
      if !cyc && (respQueue != [] || dataQueue != []) {
        errors := errors + 1;
      }
    }

    method LoadHead(head: Reply)
      modifies this`respQueue, this`err, this`dataQueue
      ensures State() == AfterLoad(old(State()), head)
    {
      if dataQueue == [] && respQueue != [] && head.done {
        var ts := respQueue[0];
        respQueue := respQueue[1..];
        err := head.status != Ok;
        dataQueue := ResponseBeats(ts, head);
      }
    }

    method SendBeat(ackDraw: bool)
      modifies this`ack, this`err, this`dat, this`dataQueue, this`outstanding
      ensures State() == AfterBeat(old(State()), ackDraw)
    {
      if dataQueue != [] {
        if ackDraw {
          ack := true;
          dat := dataQueue[0];
          dataQueue := dataQueue[1..];
          outstanding := outstanding - 1;
        } else {
          ack := false;
        }
      } else {
        ack, err, dat := false, false, 0;
      }
    }

    /** stall_method: STALL_O is low in classic mode; when pipelined it is high at max_outstanding, or when the gate says so. */
    method StallStep(stallDraw: bool)
      modifies this`stall
      ensures stall == (pipelined && (outstanding >= MAX_OUTSTANDING || stallDraw))
      ensures State() == AfterStall(old(State()), pipelined, stallDraw)
    {
      if !pipelined {
        stall := false;
        return;
      }
      stall := outstanding >= MAX_OUTSTANDING || stallDraw;
    }
  }
}
