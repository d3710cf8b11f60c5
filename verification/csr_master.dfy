/**
 * The CSR master adapter (dlsc_csr_tlm_master_template): each TLM request
 * arriving at its target becomes a burst of single-word register
 * commands, at most one of them outstanding at a time. A command is a
 * one-cycle csr_cmd_valid pulse; the matching response is a one-cycle
 * csr_rsp_valid. The sampled response pins and the `dlsc_rand_bool`
 * gate are parameters; the driven command pins are a field.
 */
module CsrMaster {
  import opened Tlm
  import opened BusJob
  import opened WordBurst

  /** The driven pins: csr_cmd_valid, csr_cmd_write, csr_cmd_addr, csr_cmd_data. */
  datatype CsrCmd = CsrCmd(valid: bool, write: bool, addr: nat, data: nat)

  const CMD_IDLE := CsrCmd(false, false, 0, 0)

  /** What a clock can change: the queue, the active flag, the command pins, the completions and the error count. */
  datatype MasterState = MasterState(btQueue: seq<Burst>, active: bool, cmd: CsrCmd, completed: seq<Job>, errors: nat)

  /** The response to the active command, from state s: nothing is active and the head burst takes the answer. */
  function Answer(s: MasterState, rspError: bool, rspData: nat): MasterState
    requires s.btQueue != []
  {
    var a := AnswerHead(s.btQueue, s.completed, rspData, rspError);
    s.(btQueue := a.queue, active := false, completed := a.completed)
  }

  /** The response check, from state s: a response with nothing active only counts an error. */
  function Responded(s: MasterState, rspValid: bool, rspError: bool, rspData: nat): MasterState
    requires s.active ==> s.btQueue != []
  {
    if !rspValid then s
    else if s.active then Answer(s, rspError, rspData)
    else s.(errors := s.errors + 1)
  }

  /** The head burst of s has a word left to send, with its data word for a write. */
  predicate Startable(s: MasterState)
  {
    s.btQueue != [] && s.btQueue[0].addrs != [] && (s.btQueue[0].job.write ==> s.btQueue[0].data != [])
  }

  /** The command for the head burst's next word, from state s; a read leaves csr_cmd_data as it was. */
  function Commanded(s: MasterState): MasterState
    requires Startable(s)
  {
    var bt := s.btQueue[0];
    if bt.job.write then
      s.(cmd := CsrCmd(true, true, bt.addrs[0] % ADDR_LIMIT, bt.data[0]), active := true,
         btQueue := s.btQueue[0 := bt.(addrs := bt.addrs[1..], data := bt.data[1..])])
    else
      s.(cmd := s.cmd.(valid := true, write := false, addr := bt.addrs[0] % ADDR_LIMIT), active := true,
         btQueue := s.btQueue[0 := bt.(addrs := bt.addrs[1..])])
  }

  class Master {
    /** sizeof(DATATYPE), the bus width in bytes. */
    const width: nat
    var btQueue: seq<Burst>
    /** A command has been sent and its response has not arrived. */
    var active: bool
    var cmd: CsrCmd
    /** Every complete() call, in order. */
    var completed: seq<Job>
    /** The "unexpected response" errors reported. */
    var errors: nat

    ghost predicate Valid()
      reads this
    {
      && width >= 1
      && (cmd.valid ==> active)
      && (active ==> btQueue != [])
      && (btQueue != [] ==> Underway(btQueue[0], width, if active then 1 else 0))
      && (forall i :: 1 <= i < |btQueue| ==> Fresh(btQueue[i], width))
    }

    function State(): MasterState
      reads this`btQueue, this`active, this`cmd, this`completed, this`errors
    {
      MasterState(btQueue, active, cmd, completed, errors)
    }

    constructor (w: nat)
      requires w >= 1
      ensures Valid() && width == w && btQueue == [] && !active && cmd == CMD_IDLE
      ensures completed == [] && errors == 0
    {
      width := w;
      btQueue, active, cmd, completed, errors := [], false, CMD_IDLE, [], 0;
    }

    /**
     * target_callback: preset OK and queue a burst of size() word
     * addresses; a write also captures its data and strobe words.
     */
    method TargetCallback(j: Job)
      requires Valid() && j.Valid()
      modifies this`btQueue
      ensures Valid()
      ensures btQueue == old(btQueue) + [NewBurst(j, width)]
    {
      var bt := NewBurst(j, width);
      if btQueue == [] {
        FreshIsUnderway(bt, width);
      }
      btQueue := btQueue + [bt];
    }

    /**
     * clk_method: reset, or one clock. The command strobe drops; a
     * response ends the active command (or is reported as unexpected);
     * then, when nothing is active and the gate allows, the next command
     * goes out.
     */
    method Clock(rst: bool, rspValid: bool, rspError: bool, rspData: nat, draw: bool)
      requires Valid()
      modifies this`btQueue, this`active, this`cmd, this`completed, this`errors
      ensures Valid() && old(completed) <= completed
      ensures |btQueue| + |completed| == old(|btQueue| + |completed|)
      ensures cmd.valid ==> !rst && draw && (!old(active) || rspValid)
      ensures !rst && !old(active) && btQueue != [] && draw ==> cmd.valid
      ensures !rst && rspValid && !old(active) ==>
                errors == old(errors) + 1 && completed == old(completed)
      ensures rst ==> State() == MasterState([], false, CMD_IDLE, old(completed) + Incompleted(JobsOf(old(btQueue))), old(errors))
      ensures !rst ==>
                var m := Responded(old(State()).(cmd := old(cmd).(valid := false)), rspValid, rspError, rspData);
                if !m.active && m.btQueue != [] && draw then Startable(m) && State() == Commanded(m) else State() == m
    {
      if rst {
        Reset();
      } else {
        cmd := cmd.(valid := false);
        Respond(rspValid, rspError, rspData);
        if !active && btQueue != [] && draw {
          StartCommand();
        }
      }
    }

    /**
     * The response check: a response ends the active command; one that
     * arrives while nothing is active is reported and changes no queue.
     */
    method Respond(rspValid: bool, rspError: bool, rspData: nat)
      requires Valid() && !cmd.valid
      modifies this`btQueue, this`active, this`completed, this`errors
      ensures Valid() && old(completed) <= completed && (rspValid ==> !active)
      ensures |btQueue| + |completed| == old(|btQueue| + |completed|)
      ensures !rspValid ==> btQueue == old(btQueue) && active == old(active) && completed == old(completed) && errors == old(errors)
      ensures rspValid && !old(active) ==>
                btQueue == old(btQueue) && completed == old(completed) && errors == old(errors) + 1
      ensures rspValid && old(active) ==> errors == old(errors)
      ensures State() == Responded(old(State()), rspValid, rspError, rspData)
    {
      if rspValid {
        if active {
          EndCommand(rspError, rspData);
        } else {
          errors := errors + 1;
        }
      }
    }

    /** The reset branch of clk_method: pins idle, nothing active, every queued burst completed with INCOMPLETE. */
    method Reset()
      requires Valid()
      modifies this`btQueue, this`active, this`cmd, this`completed
      ensures Valid() && cmd == CMD_IDLE && !active && btQueue == []
      ensures completed == old(completed) + Incompleted(JobsOf(old(btQueue)))
    {
      cmd := CMD_IDLE;
      active := false;
      completed := DrainQueue(JobsOf(btQueue), completed);
      btQueue := [];
    }

    /**
     * The response to the active command: nothing is active any more, an
     * error marks the request GENERIC_ERROR, and the request completes
     * when its last word is answered: a write once no data is left, a
     * read (via set_data) once it holds size() words.
     */
    method EndCommand(rspError: bool, rspData: nat)
      requires Valid() && active && !cmd.valid
      modifies this`btQueue, this`active, this`completed
      ensures Valid() && !active && old(completed) <= completed
      ensures |btQueue| + |completed| == old(|btQueue| + |completed|)
      ensures State() == Answer(old(State()), rspError, rspData)
    {
      if btQueue[0].job.write {
        EndWrite(rspError);
      } else {
        EndRead(rspError, rspData);
      }
    }

    /** EndCommand for a write burst. */
    method EndWrite(rspError: bool)
      requires Valid() && active && !cmd.valid && btQueue[0].job.write
      modifies this`btQueue, this`active, this`completed
      ensures Valid() && !active
      ensures var bt := old(btQueue[0]);
              var ts := bt.job.(status := AfterError(bt.job.status, rspError));
              && (bt.data == [] ==> completed == old(completed) + [ts] && btQueue == old(btQueue[1..]))
              && (bt.data != [] ==> completed == old(completed) && btQueue == old(btQueue)[0 := bt.(job := ts)])
    {
      active := false;
      var bt := btQueue[0];
      var ts := bt.job.(status := AfterError(bt.job.status, rspError));
      if bt.data == [] {
        PopHead(btQueue, width);
        completed := completed + [ts];
        btQueue := btQueue[1..];
      } else {
        WriteSettles(bt, width, ts.status);
        ReplaceHead(btQueue, bt.(job := ts), btQueue[0 := bt.(job := ts)], width);
        btQueue := btQueue[0 := bt.(job := ts)];
      }
    }

    /** EndCommand for a read burst: csr_rsp_data joins the words already returned. */
    method EndRead(rspError: bool, rspData: nat)
      requires Valid() && active && !cmd.valid && !btQueue[0].job.write
      modifies this`btQueue, this`active, this`completed
      ensures Valid() && !active
      ensures var bt := old(btQueue[0]);
              var ts := bt.job.(status := AfterError(bt.job.status, rspError));
              var got := bt.data + [rspData];
              && (|got| == bt.job.size ==> completed == old(completed) + [ts.(data := got)] && btQueue == old(btQueue[1..]))
              && (|got| < bt.job.size ==> completed == old(completed) && btQueue == old(btQueue)[0 := bt.(job := ts, data := got)])
    {
      active := false;
      var bt := btQueue[0];
      var ts := bt.job.(status := AfterError(bt.job.status, rspError));
      var got := bt.data + [rspData];
      if |got| == ts.size {
        PopHead(btQueue, width);
        completed := completed + [ts.(data := got)];
        btQueue := btQueue[1..];
      } else {
        ReadSettles(bt, width, ts.status, got[|got| - 1]);
        assert bt.data + [got[|got| - 1]] == got;
        ReplaceHead(btQueue, bt.(job := ts, data := got), btQueue[0 := bt.(job := ts, data := got)], width);
        btQueue := btQueue[0 := bt.(job := ts, data := got)];
      }
    }

    /**
     * Driving a command: the head burst's next word address, and for a
     * write its next data word (a read leaves csr_cmd_data as it was),
     * with csr_cmd_valid for this one cycle; the command is now active.
     */
    method StartCommand()
      requires Valid() && !active && btQueue != []
      modifies this`btQueue, this`active, this`cmd
      ensures Valid() && active
      ensures Startable(old(State())) && State() == Commanded(old(State()))
      ensures var bt := old(btQueue[0]);
              var k := bt.job.size - |bt.addrs|;
              && 0 <= k < bt.job.size && bt.addrs != []
              && cmd.valid && bt.addrs[0] == BeatAddresses(bt.job, width)[k] && cmd.addr == bt.addrs[0] % ADDR_LIMIT
              && cmd.write == bt.job.write
              && (bt.job.write ==>
                    cmd.data == bt.job.data[k] && btQueue == old(btQueue)[0 := bt.(addrs := bt.addrs[1..], data := bt.data[1..])])
              && (!bt.job.write ==>
                    cmd.data == old(cmd.data) && btQueue == old(btQueue)[0 := bt.(addrs := bt.addrs[1..])])
    {
      var bt := btQueue[0];
      var a := bt.addrs[0] % ADDR_LIMIT;
      if bt.job.write {
        cmd := CsrCmd(true, true, a, bt.data[0]);
        btQueue := btQueue[0 := bt.(addrs := bt.addrs[1..], data := bt.data[1..])];
      } else {
        cmd := cmd.(valid := true, write := false, addr := a);
        btQueue := btQueue[0 := bt.(addrs := bt.addrs[1..])];
      }
      active := true;
    }
  }
}
