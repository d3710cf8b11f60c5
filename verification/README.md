# dls_cores simulation models in Dafny

This project models the C++/SystemC verification models of the dls_cores
hardware library and proves properties of them. The main parts are:

- **The TLM-2.0 transaction engine.** It follows the non-blocking base
  protocol of clauses 14 and 15 of IEEE 1666-2011 (SystemC TLM-2.0):
  - the pooled payload allocator (`dlsc_tlm_mm`);
  - the non-blocking initiator (`dlsc_tlm_initiator_nb`), which builds read
    and write payloads, launches them one request phase at a time and tracks
    their completion;
  - the non-blocking target (`dlsc_tlm_target_nb`), which validates
    requests, hands them to its owner and releases responses in completion
    order;
  - the sparse block memory (`dlsc_tlm_memory`);
  - the address-routing fabric (`dlsc_tlm_fabric`);
  - the memory tester (`dlsc_tlm_memtest`), with its pending-access
    counters and region search.
- **The bus adapters between TLM transactions and pin-level bursts.** These
  cover APB and CSR masters, Wishbone B4 pipelined masters and slaves
  (chapter 4 of the Wishbone B4 specification), and an AXI4-Lite-burst
  master and slave. Each adapter's queues are fields of a class, updated
  one clock edge at a time.
- **The PCI Express transaction-layer packet class (`dlsc_pcie_tlp`).** The
  model covers its setters, its serialisation to header, data and digest
  dwords, its deserialisation and validation, and its equality.
- **The packed-vector helper (`dlsc_bv`)** and the small utilities of
  `dlsc_main`: `log2`, `clog2`, power-of-two tests, seeds and the final
  verdict.
- **The stereo block-matcher reference models.** These are the x-Sobel
  prefilter, the sum-of-absolute-differences disparity search with
  sub-pixel refinement, the uniqueness and texture filters, the invoker,
  and the testbench model that packs results into records.

The SystemC kernel is not modelled. Instead:

- every process is a method that takes one explicit step;
- simulated time is a `now` tick count;
- payload objects are identified by natural-number ids;
- each value the source draws from `rand()` is a parameter;
- the other side of a socket is a parameter too. For the non-blocking
  initiator, `replies(k, d)` is the target's answer to the k-th BEGIN_REQ
  call of a launch run made with annotated delay d. The delay is threaded
  from call to call as `launch_update` threads it. For the non-blocking
  target, `answers(k)` is the initiator's answer to the k-th BEGIN_RESP.

Dafny integers are unbounded, so the source's fixed-width arithmetic is
written out explicitly: 32-bit wrap-around of counters, 16-bit `short`
stores, 64-bit address sums, and the address pins of the APB, CSR,
Wishbone and AXI4-Lite-burst adapters, which are `ADDRTYPE` (uint32_t by
default) and so keep the low 32 bits of a transaction address
(`ADDR_LIMIT` = 2^32). Places where the model leaves a width out are
listed under "## Left out".

## Model

| member | source | states |
|---|---|---|
| Tlm.WordOfBytesOf | tlm/sim/dlsc_tlm_initiator_nb.h:532-533 | a word that fits in n bytes, stored as n little-endian bytes, reads back unchanged |
| Tlm.BytesOfWordOf | tlm/sim/dlsc_tlm_target_nb.h:456-457 | n bytes read as a word and stored again give back the same n bytes |
| Tlm.BytesToWordsRoundTrip | tlm/sim/dlsc_tlm_initiator_nb.h:220 | words copied into a payload's byte buffer and copied out again are the same words, when each fits the bus width |
| TlmMm.Reinitialise | tlm/sim/dlsc_tlm_mm.cpp:77-85 | a descriptor handed out has IGNORE command, address 0, data, byte-enable and streaming lengths 0, no DMI and INCOMPLETE status; its buffers are kept |
| TlmMm.MemoryManager.constructor | tlm/sim/dlsc_tlm_mm.cpp:7-10 | a new manager has an empty pool, nothing outstanding and the given capacity and buffer size |
| TlmMm.MemoryManager.SetSize | tlm/sim/dlsc_tlm_mm.cpp:25-34 | the capacity becomes the new size and the pool is cut from the back down to it; outstanding is unchanged |
| TlmMm.MemoryManager.Free | tlm/sim/dlsc_tlm_mm.cpp:36-48 | the descriptor joins the back of the pool unless the pool is full; outstanding drops by one with 32-bit wrap-around |
| TlmMm.MemoryManager.Alloc | tlm/sim/dlsc_tlm_mm.cpp:59-90 | the most recently pooled descriptor is reused, or a new one gets two buffers of dsize bytes holding whatever the allocator left there; either way the fields are reset and outstanding rises by one |
| BusJob.DrainQueue | axi/sim/dlsc_apb_tlm_master_template.h:112-118 | the completion log grows by every queued request, in queue order, each marked INCOMPLETE |
| BusJob.Resized | tlm/sim/dlsc_tlm_target_nb.h:354-355 | resizing keeps the first n words and pads with zeros up to n |
| BusJob.ReadBeats | tlm/sim/dlsc_tlm_initiator_nb.h:562-588 | b_read into a deque yields size() words: the payload's words when the status is OK, zeros otherwise |
| BusJob.AfterError | axi/sim/dlsc_apb_tlm_master_template.h:133-136 | an error answer sets GENERIC_ERROR; the status is OK afterwards exactly when it was OK and no error came |
| BusJob.OkIffNoError | axi/sim/dlsc_apb_tlm_master_template.h:121-153 | a burst ends OK exactly when it started OK and none of its transfers was answered with an error |
| BusJob.ErrorSticks | axi/sim/dlsc_apb_tlm_master_template.h:133-136 | once GENERIC_ERROR is set, later answers leave it in place |
| WordBurst.BeatAddresses | axi/sim/dlsc_apb_tlm_master_template.h:88-93 | size() addresses one bus word apart; the first is the request address rounded down to the bus width, and equals it when it is aligned |
| WordBurst.NewBurst | axi/sim/dlsc_apb_tlm_master_template.h:81-101 | the queued burst has status OK and the beat addresses; a write holds the request's data and strobes, a read holds no data |
| WordBurst.PopHead | axi/sim/dlsc_apb_tlm_master_template.h:140-151 | after the head burst leaves the queue, the next burst starts with nothing on the bus and the rest are still untouched |
| WordBurst.WriteSettles | axi/sim/dlsc_apb_tlm_master_template.h:138-143 | a write burst whose answered beat was not its last stays at the head with its remaining data and addresses matched |
| WordBurst.ReadSettles | axi/sim/dlsc_apb_tlm_master_template.h:144-151 | a read burst that has fewer than size() words after an answer stays at the head holding the words read so far |
| WordBurst.AnswerHead | axi/sim/dlsc_apb_tlm_master_template.h:128-153 | the head burst takes one answer: either it completes, leaving the queue and joining the back of the completions, or it stays at the head with the rest of the queue untouched; no burst is lost or duplicated |
| ApbMaster.Master.constructor | axi/sim/dlsc_apb_tlm_master_template.h:53-78 | a new master has idle APB outputs, an empty burst queue and no completions |
| ApbMaster.Master.TargetCallback | axi/sim/dlsc_apb_tlm_master_template.h:81-101 | the request is queued at the back as a new burst |
| ApbMaster.Master.Clock | axi/sim/dlsc_apb_tlm_master_template.h:104-186 | reset empties the queue, idles the bus and completes every queued burst as INCOMPLETE in order; otherwise an idle bus starts the head burst's next beat when the gate allows, a setup cycle only raises PENABLE, an access cycle without PREADY changes nothing, and one with PREADY ends the transfer (Transferred) and starts the next beat when one is queued and allowed; PADDR always carries a beat address modulo 2^32; requests are never lost or duplicated |
| ApbMaster.Master.Reset | axi/sim/dlsc_apb_tlm_master_template.h:105-118 | outputs idle and every queued request completed as INCOMPLETE, in queue order |
| ApbMaster.Master.Respond | axi/sim/dlsc_apb_tlm_master_template.h:121-154 | a setup cycle raises PENABLE and changes nothing else; an access cycle without PREADY, or an idle bus, changes nothing; an access cycle with PREADY gives exactly the Transferred state, with PSEL low |
| ApbMaster.Master.EndTransfer | axi/sim/dlsc_apb_tlm_master_template.h:128-153 | PSEL and PENABLE drop and the head burst takes the answer exactly as AnswerHead says: a write completes when no data is left, a read with all size() words once they are in; otherwise the burst stays at the head with the status and words updated |
| ApbMaster.Master.EndWrite | axi/sim/dlsc_apb_tlm_master_template.h:138-143 | a write burst completes exactly when its data queue is empty, with PSLVERR turned into GENERIC_ERROR |
| ApbMaster.Master.EndRead | axi/sim/dlsc_apb_tlm_master_template.h:144-151 | PRDATA joins the words read; the burst completes with them exactly when size() words are in |
| ApbMaster.Master.StartBeat | axi/sim/dlsc_apb_tlm_master_template.h:156-171 | the new state is the Started setup cycle: the next beat address of the head burst, modulo 2^32 as the 32-bit PADDR pin keeps it, goes out with PSEL and without PENABLE; a write beat takes the next data and strobe word, a read beat drives PSTRB low; only the head burst changes |
| CsrMaster.Master.constructor | csr/sim/dlsc_csr_tlm_master_template.h:56-81 | a new master has no command driven, nothing active, an empty queue and no completions |
| CsrMaster.Master.TargetCallback | csr/sim/dlsc_csr_tlm_master_template.h:84-104 | the request is queued at the back as a new burst |
| CsrMaster.Master.Clock | csr/sim/dlsc_csr_tlm_master_template.h:107-186 | reset idles the command pins and completes every queued burst as INCOMPLETE in order; otherwise csr_cmd_valid drops, the response check runs (Responded), and the next command goes out (Commanded), its csr_cmd_addr the beat address modulo 2^32, exactly when nothing is then active, a burst is queued and the gate allows; a response while idle is counted as an error; no request is lost or duplicated |
| CsrMaster.Master.Reset | csr/sim/dlsc_csr_tlm_master_template.h:108-120 | command pins idle, nothing active, every queued request completed as INCOMPLETE in order |
| CsrMaster.Master.Respond | csr/sim/dlsc_csr_tlm_master_template.h:127-158 | the new state is Responded: a response ends the active command with the head burst taking the answer; one that arrives with nothing active only increments the error count; no response changes nothing |
| CsrMaster.Master.EndCommand | csr/sim/dlsc_csr_tlm_master_template.h:128-154 | nothing is active any more and the head burst takes the answer exactly as AnswerHead says: a write completes when no data is left, a read with size() words; otherwise the burst stays at the head |
| CsrMaster.Master.EndWrite | csr/sim/dlsc_csr_tlm_master_template.h:140-145 | a write burst completes exactly when its data queue is empty, with csr_rsp_error turned into GENERIC_ERROR |
| CsrMaster.Master.EndRead | csr/sim/dlsc_csr_tlm_master_template.h:146-153 | csr_rsp_data joins the words read; the burst completes with them exactly when size() words are in |
| CsrMaster.Master.StartCommand | csr/sim/dlsc_csr_tlm_master_template.h:170-183 | the new state is Commanded: the head burst's next address, modulo 2^32 as the 32-bit csr_cmd_addr pin keeps it, goes out with csr_cmd_valid and a write's next data word, a read leaves csr_cmd_data as it was; the command becomes active |
| WishboneMaster.SplitShape | wishbone/sim/dlsc_wishbone_tlm_master_template.h:130-138 | each word becomes one command with its own data and strobe; the address steps by the bus width and wraps as an ADDRTYPE; every command carries CTI INCR except the last, which carries CTI END |
| WishboneMaster.CommandsFor | wishbone/sim/dlsc_wishbone_tlm_master_template.h:105-141 | a request yields size() commands: a write's carry its data words, a read's carry zeros, and each carries its strobe word |
| WishboneMaster.WordsOut | wishbone/sim/dlsc_wishbone_tlm_master_template.h:119-124 | the words sent for a request: its data for a write, size() zeros for a read |
| WishboneMaster.Master.constructor | wishbone/sim/dlsc_wishbone_tlm_master_template.h:72-103 | a new master starts non-pipelined with idle pins, empty queues and no completions |
| WishboneMaster.Master.SetPipelined | wishbone/sim/dlsc_wishbone_tlm_master_template.h:49 | set_pipelined sets the mode |
| WishboneMaster.Master.TargetCallback | wishbone/sim/dlsc_wishbone_tlm_master_template.h:105-141 | the request's commands join the command queue and the request, preset to OK, joins the queue awaiting beats |
| WishboneMaster.Master.QueueCommands | wishbone/sim/dlsc_wishbone_tlm_master_template.h:130-138 | the splitting loop appends exactly the request's commands to the command queue |
| WishboneMaster.Master.Clock | wishbone/sim/dlsc_wishbone_tlm_master_template.h:144-153 | reset drops every pin, clears the queues and completes every awaiting request as INCOMPLETE in order; otherwise the new state is the command step (Commanded), then the response step (Answered) on an acknowledged beat of an open cycle, with CYC_O high exactly when some request awaits its beats |
| WishboneMaster.Master.Reset | wishbone/sim/dlsc_wishbone_tlm_master_template.h:155-174 | pins low, queues cleared, and every awaiting request completed as INCOMPLETE in order |
| WishboneMaster.Master.CommandStep | wishbone/sim/dlsc_wishbone_tlm_master_template.h:177-203 | the new state is Commanded: when the bus is free (no strobe, or the command taken: STALL_I low when pipelined, ACK_I in classic mode) and the gate allows, the next command goes out; when free and nothing goes out, STB_O and the command pins drop; a command still waiting stays on the bus |
| WishboneMaster.Master.ResponseStep | wishbone/sim/dlsc_wishbone_tlm_master_template.h:206-232 | the new state is Answered: an acknowledged beat joins the oldest request's beats and ERR_I marks it GENERIC_ERROR; the request completes, with its words for a read, exactly when it holds size() beats; a beat with nothing awaiting it only counts an error |
| WishboneSlave.ResponseBeats | wishbone/sim/dlsc_wishbone_tlm_slave_template.h:258-264 | a finished request is answered with b_read's words for a successful read, and with zeros for a write or a failed read |
| WishboneSlave.Call | wishbone/sim/dlsc_wishbone_tlm_slave_template.h:155-160 | the accumulated burst is issued as nb_write with its data and strobes, or as nb_read of as many words |
| WishboneSlave.ShapeSnoc | wishbone/sim/dlsc_wishbone_tlm_slave_template.h:184-190 | a command in the same direction at the next word address keeps the accumulated burst contiguous, with zero data for reads |
| WishboneSlave.Slave.constructor | wishbone/sim/dlsc_wishbone_tlm_slave_template.h:80-121 | a new slave is non-pipelined and registered, with idle pins, empty queues and nothing outstanding |
| WishboneSlave.Slave.SetPipelined | wishbone/sim/dlsc_wishbone_tlm_slave_template.h:43 | set_pipelined sets the mode |
| WishboneSlave.Slave.Clock | wishbone/sim/dlsc_wishbone_tlm_slave_template.h:123-132 | reset drops the pins, restores the flags and counter and clears the accumulator and queues, keeping the issued requests; otherwise the new state is the issue step, the handshake, the response step and the stall step in order (AfterIssue, AfterHandshake, AfterResponse, AfterStall); STALL_O is high when pipelined at max_outstanding and low in classic mode |
| WishboneSlave.Slave.Reset | wishbone/sim/dlsc_wishbone_tlm_slave_template.h:134-152 | pins low, flags and counter back to their start, accumulator and queues cleared |
| WishboneSlave.Slave.ResetPins | wishbone/sim/dlsc_wishbone_tlm_slave_template.h:136-146 | the pins, flags and counter of the reset |
| WishboneSlave.Slave.ClearQueues | wishbone/sim/dlsc_wishbone_tlm_slave_template.h:147-151 | the accumulator and the queues of the reset |
| WishboneSlave.Slave.Submit | wishbone/sim/dlsc_wishbone_tlm_slave_template.h:155-165 | the accumulated burst goes out as one request of 1 to max_length words covering exactly its commands' addresses, and the accumulator is cleared |
| WishboneSlave.Slave.CommandStep | wishbone/sim/dlsc_wishbone_tlm_slave_template.h:168-247 | the new state is the issue step followed by the handshake (AfterIssue, AfterHandshake); outstanding rises by one exactly when a command is accepted |
| WishboneSlave.Slave.Issue | wishbone/sim/dlsc_wishbone_tlm_slave_template.h:170-231 | the new state is AfterIssue: when pipelined a new command is accumulated (submitting a burst it does not continue, and one reaching max_length) and a cycle without one submits what is pending; in classic mode a new command is issued at once as a one-word write or first or read-ahead read |
| WishboneSlave.Slave.Accumulate | wishbone/sim/dlsc_wishbone_tlm_slave_template.h:173-196 | a new command joins the burst only when it has the same direction and the next word address, otherwise the burst is submitted first; a burst reaching max_length is submitted |
| WishboneSlave.Slave.Push | wishbone/sim/dlsc_wishbone_tlm_slave_template.h:184-190 | the command joins the burst; the burst's direction and start address are taken from the first command |
| WishboneSlave.Slave.ClassicCommand | wishbone/sim/dlsc_wishbone_tlm_slave_template.h:208-231 | a write is a one-word nb_write; the first read of a cycle is a one-word nb_read; a registered INCR read also reads the next word ahead, and any other CTI makes the next read a first |
| WishboneSlave.Slave.Handshake | wishbone/sim/dlsc_wishbone_tlm_slave_template.h:233-245 | a command is accepted (counted outstanding and held pending) on CYC_I and STB_I when not stalled and none is pending; it stops pending once taken; a cycle dropped with a command pending is counted as an error |
| WishboneSlave.Slave.ResponseStep | wishbone/sim/dlsc_wishbone_tlm_slave_template.h:250-286 | the new state is AfterResponse: a dropped cycle with work left is counted as an error; when pipelined or with STB_I, the oldest done request's size() beats are loaded once the previous ones are sent, with ERR_O set iff it failed, and the next beat is acknowledged if the gate allows, lowering outstanding; with none to send ACK_O, ERR_O and DAT_O drop |
| WishboneSlave.ResponseFields | wishbone/sim/dlsc_wishbone_tlm_slave_template.h:250-286 | field by field, resp_method reports a dropped cycle with work left, loads a done request's beats only after the previous ones are sent, acknowledges one beat per allowed cycle and otherwise leaves the accumulator, the issued requests and the command flags alone |
| WishboneSlave.Slave.StallStep | wishbone/sim/dlsc_wishbone_tlm_slave_template.h:289-298 | the new state is AfterStall: STALL_O is low in classic mode; when pipelined it is high exactly at max_outstanding or when the gate says so; nothing else changes |
| WishboneMaster.Split | wishbone/sim/dlsc_wishbone_tlm_master_template.h:130-138 | the splitting loop queues one command per word |
| Axi4lbMaster.ErrorStatus | axi/sim/dlsc_axi4lb_tlm_master_template.h:209-213 | a non-OKAY response always sets an error status, COMMAND_ERROR exactly for SLVERR |
| Axi4lbMaster.AfterResp | axi/sim/dlsc_axi4lb_tlm_master_template.h:208-214 | an OKAY beat leaves the status alone; any other beat sets its error status; the result is OK only if the status was OK and the beat OKAY |
| Axi4lbMaster.OkIffAllOkay | axi/sim/dlsc_axi4lb_tlm_master_template.h:202-224 | a burst preset to OK ends OK exactly when every beat answered OKAY |
| Axi4lbMaster.LastErrorWins | axi/sim/dlsc_axi4lb_tlm_master_template.h:208-214 | the last non-OKAY beat of a burst decides its final status |
| Axi4lbMaster.AllOkayKeeps | axi/sim/dlsc_axi4lb_tlm_master_template.h:208 | OKAY beats never change the status |
| Axi4lbMaster.Master.constructor | axi/sim/dlsc_axi4lb_tlm_master_template.h:82-118 | a new master has all five queues empty and idle channels |
| Axi4lbMaster.Master.TargetCallback | axi/sim/dlsc_axi4lb_tlm_master_template.h:120-129 | the transaction, preset to OK, joins the AW queue when it writes and the AR queue when it reads; nothing else changes |
| Axi4lbMaster.Master.Clock | axi/sim/dlsc_axi4lb_tlm_master_template.h:132-142 | reset completes every transaction of the AR, R, AW, W and B queues as INCOMPLETE in that order and idles the channels; otherwise the new state is the AR and R steps (AfterAr, AfterR) followed by the AW, W and B steps (AfterAw, AfterW, AfterB), the write side seeing the completions and errors the read side left; ARADDR and AWADDR carry the transaction address modulo 2^32; the transactions held are the same before and after |
| Axi4lbMaster.Master.ReadChannels | axi/sim/dlsc_axi4lb_tlm_master_template.h:136-137 | the read side (AR, R queues and channels, the completions and the error count) becomes exactly AfterR of AfterAr of the old one, ARADDR being the address modulo 2^32; every read is still queued or completed |
| Axi4lbMaster.Master.WriteChannels | axi/sim/dlsc_axi4lb_tlm_master_template.h:138-140 | the write side (AW, W, B queues, the data being sent, the channels, the completions and the error count) becomes exactly AfterB of AfterW of AfterAw of the old one, AWADDR being the address modulo 2^32; every write is still queued or completed |
| Axi4lbMaster.Master.Reset | axi/sim/dlsc_axi4lb_tlm_master_template.h:157-180 | every queued transaction completes as INCOMPLETE, the AR, R, AW, W and B queues in that order; the data queues are cleared and the channels idle |
| Axi4lbMaster.Master.IdleOutputs | axi/sim/dlsc_axi4lb_tlm_master_template.h:158-179 | the channel outputs of the reset go idle and the data and strobe queues are cleared |
| Axi4lbMaster.Master.DrainAll | axi/sim/dlsc_axi4lb_tlm_master_template.h:145-154 | the completions grow by the five queues' transactions, each INCOMPLETE, in queue order |
| Axi4lbMaster.Master.ArStep | axi/sim/dlsc_axi4lb_tlm_master_template.h:183-198 | when the channel is free the AR head goes out with ARADDR its address modulo 2^32 and ARLEN = size()-1 and moves to the R queue; with nothing queued the channel goes idle; a busy channel keeps its state |
| Axi4lbMaster.Master.RStep | axi/sim/dlsc_axi4lb_tlm_master_template.h:201-229 | an R beat joins the head read's data and folds RRESP into its status; on RLAST or size() beats the read completes with exactly size() words (a mismatch is zero-padded or cut and counted as an error); stray data is counted and dropped; RREADY rises when idle |
| Axi4lbMaster.Master.AwStep | axi/sim/dlsc_axi4lb_tlm_master_template.h:232-247 | when the channel is free the AW head goes out with AWADDR its address modulo 2^32 and AWLEN = size()-1 and moves to the W queue; with nothing queued the channel goes idle |
| Axi4lbMaster.Master.WStep | axi/sim/dlsc_axi4lb_tlm_master_template.h:250-271 | when the channel is free and the previous write's beats are sent, the next write loads its data and strobes and moves to the B queue; the next beat goes out with WLAST exactly on the final beat |
| Axi4lbMaster.Master.BStep | axi/sim/dlsc_axi4lb_tlm_master_template.h:274-293 | a B response folds BRESP into the head write's status and completes it, so writes complete in order; a stray response is counted and dropped; BREADY rises when idle |
| Axi4lbSlave.RespOf | axi/sim/dlsc_axi4lb_tlm_slave_template.h:179-183 | OKAY exactly for OK, DECERR exactly for ADDRESS_ERROR, SLVERR for every other status, never EXOKAY |
| Axi4lbSlave.ErrorCodesRoundTrip | axi/sim/dlsc_axi4lb_tlm_slave_template.h:255-259 | the slave's response codes and the master's statuses are inverse on SLVERR/DECERR and COMMAND_ERROR/ADDRESS_ERROR, and any failure the slave reports the master sees as a failure |
| Axi4lbSlave.Slave.constructor | axi/sim/dlsc_axi4lb_tlm_slave_template.h:85-127 | a new slave has empty queues, no write waiting for its AW and nothing issued |
| Axi4lbSlave.Slave.Reset | axi/sim/dlsc_axi4lb_tlm_slave_template.h:143-162 | outputs low, the wait-for-AW flag cleared and every queue emptied |
| Axi4lbSlave.Slave.IdleOutputs | axi/sim/dlsc_axi4lb_tlm_slave_template.h:144-152 | the reset's output assignments |
| Axi4lbSlave.Slave.ClearQueues | axi/sim/dlsc_axi4lb_tlm_slave_template.h:154-161 | the reset's queue clearing and wait-flag reset |
| Axi4lbSlave.Slave.Clock | axi/sim/dlsc_axi4lb_tlm_slave_template.h:130-141 | reset drops the outputs and empties every queue, keeping the issued requests; otherwise the new state is the AR and R steps (AfterAr, AfterR) followed by the AW, W and B steps (AfterAw, AfterW, AfterB), the write side issuing after the read side; requests are only ever issued, never withdrawn |
| Axi4lbSlave.Slave.ReadChannels | axi/sim/dlsc_axi4lb_tlm_slave_template.h:134-135 | the read side becomes exactly AfterR of AfterAr of the old read side, keeping its invariant |
| Axi4lbSlave.Slave.WriteChannels | axi/sim/dlsc_axi4lb_tlm_slave_template.h:136-138 | the write side becomes exactly AfterB of AfterW of AfterAw of the old write side, keeping its invariant |
| Axi4lbSlave.Slave.ArStep | axi/sim/dlsc_axi4lb_tlm_slave_template.h:165-171 | an AR handshake issues nb_read(ARADDR, ARLEN+1) and queues its handle; ARREADY follows the gate |
| Axi4lbSlave.Slave.RStep | axi/sim/dlsc_axi4lb_tlm_slave_template.h:174-199 | a beat that was not accepted stays on the channel; otherwise the fetch and beat halves run |
| Axi4lbSlave.Slave.Fetch | axi/sim/dlsc_axi4lb_tlm_slave_template.h:176-185 | with no beats left, a finished oldest read leaves the AR queue and its size() beats (zeros if it failed) fill the R queue, with RRESP from its status |
| Axi4lbSlave.Slave.Drive | axi/sim/dlsc_axi4lb_tlm_slave_template.h:187-197 | the next beat goes out with RLAST exactly on the final beat; otherwise RVALID drops and RRESP keeps its value |
| Axi4lbSlave.Slave.AwStep | axi/sim/dlsc_axi4lb_tlm_slave_template.h:202-209 | an AW handshake queues (AWADDR, AWLEN+1); AWREADY follows the gate |
| Axi4lbSlave.Slave.WStep | axi/sim/dlsc_axi4lb_tlm_slave_template.h:212-248 | a W beat is captured and WLAST starts the wait for an AW; once one is queued, the burst is cut or zero-padded to its length, issued as one nb_write and cleared; WREADY is low while waiting |
| Axi4lbSlave.Slave.BStep | axi/sim/dlsc_axi4lb_tlm_slave_template.h:251-267 | when the channel is free and the gate allows, a finished oldest write is answered with its response code and leaves the queue; otherwise BVALID and BRESP drop |
| TlmInitiatorNb.LocalQuantum | tlm/sim/dlsc_tlm_utils.cpp:10 | with a global quantum q set, the local quantum is between 1 and q: the time left to the next multiple of q |
| TlmInitiatorNb.QuantumWait | tlm/sim/dlsc_tlm_utils.cpp:6-15 | sleeping in local-quantum steps keeps the local time now+delay fixed, never moves now backwards, and leaves a delay within the local quantum |
| TlmInitiatorNb.LaneEnables | tlm/sim/dlsc_tlm_initiator_nb.h:257-264 | the W byte enables of one strobe word, lane i ENABLED exactly when bit i is set |
| TlmInitiatorNb.Expand | tlm/sim/dlsc_tlm_initiator_nb.h:255-265 | the byte-enable buffer of a strobed write holds W enables per strobe word |
| TlmInitiatorNb.ExpandAt | tlm/sim/dlsc_tlm_initiator_nb.h:258-262 | byte k*W+i of the buffer is ENABLED exactly when bit i of strobe word k is set, and DISABLED otherwise |
| TlmInitiatorNb.ExpandSnoc | tlm/sim/dlsc_tlm_initiator_nb.h:255-257 | one more strobe word appends exactly its own lanes to the buffer |
| TlmInitiatorNb.StrobeTest | tlm/sim/dlsc_tlm_initiator_nb.h:258 | `strb & (1<<i)` is non-zero exactly when lane i is enabled |
| TlmInitiatorNb.AllEnabledConcat | tlm/sim/dlsc_tlm_initiator_nb.h:253-262 | every byte of two concatenated buffers is enabled exactly when every byte of each is |
| TlmInitiatorNb.ExpandStrobes | tlm/sim/dlsc_tlm_initiator_nb.h:253-265 | the strobe loop writes exactly the expanded strobes into the first |strb|*W bytes, leaves the rest unchanged, and reports whether every byte was enabled |
| TlmInitiatorNb.StrobeStep | tlm/sim/dlsc_tlm_initiator_nb.h:255-264 | writing the lanes of strobe word k after the first k words extends the expanded prefix by one word and keeps the all-enabled flag exact |
| TlmInitiatorNb.ExpandLane | tlm/sim/dlsc_tlm_initiator_nb.h:257-264 | the inner loop writes the W lanes of one strobe word at position p and nothing else, and reports whether all were enabled |
| TlmInitiatorNb.Transaction.constructor | tlm/sim/dlsc_tlm_initiator_nb.h:605-618 | a new handle is neither done nor locally done, with done time 0 |
| TlmInitiatorNb.Transaction.NotifyLocal | tlm/sim/dlsc_tlm_initiator_nb.h:621-625 | the handle is locally done with done time dt; done_flag is unchanged; from then on nb_done(delay) holds exactly when the local time now+delay has reached dt |
| TlmInitiatorNb.Transaction.Notify | tlm/sim/dlsc_tlm_initiator_nb.h:628-632 | only after notify_local: the handle is done; its done time is unchanged |
| TlmInitiatorNb.Transaction.Size | tlm/sim/dlsc_tlm_initiator_nb.h:439 | size() is data_length divided by the bus width, rounded down |
| TlmInitiatorNb.Transaction.Wait | tlm/sim/dlsc_tlm_initiator_nb.h:484-512 | after wait(delay) the caller's local time is the latest of its old local time, the time it woke up and the done time, so nb_done holds at it; a caller for which nb_done already holds keeps its local time |
| TlmInitiatorNb.Transaction.BRead | tlm/sim/dlsc_tlm_initiator_nb.h:527-536 | b_read waits as wait(delay) does, so nb_done holds at the caller's new local time, then succeeds exactly when the status is OK, returning the payload's first size() words |
| TlmInitiatorNb.ReadRequest | tlm/sim/dlsc_tlm_initiator_nb.h:182-199 | nb_read builds a READ of length*W bytes at the address, with no byte enables and a streaming width equal to the length |
| TlmInitiatorNb.WriteRequest | tlm/sim/dlsc_tlm_initiator_nb.h:204-225 | the data-only nb_write builds a WRITE of |data|*W bytes, with no byte enables, leaving the buffer past the data unchanged |
| TlmInitiatorNb.WriteRequestData | tlm/sim/dlsc_tlm_initiator_nb.h:220 | a target reading the write's data_length bytes as words finds exactly the words written |
| TlmInitiatorNb.StrobedWriteRequest | tlm/sim/dlsc_tlm_initiator_nb.h:230-275 | the strobed nb_write carries the expanded strobes and a byte-enable length of |data|*W, dropped to 0 exactly when every byte is enabled |
| TlmInitiatorNb.LaunchStepSound | tlm/sim/dlsc_tlm_initiator_nb.h:343-361 | the request stays queued exactly when the target returns ACCEPTED or keeps BEGIN_REQ; END_RESP is sent exactly for an UPDATED BEGIN_RESP; the transaction completes exactly when the reply carries its response |
| TlmInitiatorNb.Initiator.constructor | tlm/sim/dlsc_tlm_initiator_nb.h:143-165 | a new initiator uses socket 0 with nothing queued or outstanding and a pool of 20 descriptors |
| TlmInitiatorNb.Initiator.SetSocket | tlm/sim/dlsc_tlm_initiator_nb.h:174-177 | later requests go out on socket id; nothing queued changes |
| TlmInitiatorNb.Initiator.Enqueue | tlm/sim/dlsc_tlm_initiator_nb.h:367-369 | a new handle joins the back of the launch queue and the outstanding map |
| TlmInitiatorNb.Initiator.CompleteLocal | tlm/sim/dlsc_tlm_initiator_nb.h:375-383 | the handle is locally done at now+delay; with no delay it is finalised at once, otherwise it is queued in the peq for now+delay |
| TlmInitiatorNb.Initiator.CompleteFinal | tlm/sim/dlsc_tlm_initiator_nb.h:386-389 | the handle leaves the outstanding map and is done |
| TlmInitiatorNb.Initiator.LaunchUpdate | tlm/sim/dlsc_tlm_initiator_nb.h:336-363 | requests leave the launch queue from the front until one is held awaiting END_REQ or the queue is empty; the k-th BEGIN_REQ call gets the caller's delay for the first request and, after that, the delay the previous pass left (DelayIn); each request whose reply carried its response is locally done at now plus the delay its own pass left; the delay returned is the one the last call left; no handle joins or changes in the outstanding map, and one of the queue that leaves it was sent and is done |
| TlmInitiatorNb.Initiator.LaunchNext | tlm/sim/dlsc_tlm_initiator_nb.h:337-361 | one loop pass sends the next request with the delay the earlier passes left, keeping what launch_update knows of the queue, the outstanding map and the threaded delay |
| TlmInitiatorNb.Initiator.LaunchHead | tlm/sim/dlsc_tlm_initiator_nb.h:338-361 | one pass: the head is held, with launch_outstanding set and nothing else changed, exactly when the target returns ACCEPTED or keeps BEGIN_REQ, the delay being the one BEGIN_REQ left; otherwise it leaves the queue, the delay is the one the END_RESP call left when END_RESP was sent and the one BEGIN_REQ left otherwise, the head is locally done at now plus that delay when the reply carried the response, and it leaves the outstanding map only when it is done |
| TlmInitiatorNb.Initiator.LaunchMethod | tlm/sim/dlsc_tlm_initiator_nb.h:330-333 | the launch event restarts the launch queue with a zero delay threaded through the calls, with the same guarantees as launch_update: each request sent with its response is locally done at now plus the delay its pass left, and a request that leaves the outstanding map is done |
| TlmInitiatorNb.Initiator.Launch | tlm/sim/dlsc_tlm_initiator_nb.h:366-372 | a new handle with the next id, on the current socket, is queued and the launch queue is run at once with the caller's delay: the queue is a suffix of the old one plus the handle, and the handle is outstanding unless it is already done; when the queue empties, the delay returned is the one left after every queued request and the new one were sent, and the new handle, if its reply carried the response, is locally done at now plus that delay |
| TlmInitiatorNb.Initiator.NbRead | tlm/sim/dlsc_tlm_initiator_nb.h:182-199 | a pooled descriptor is set up as the READ request and launched with delay_initial, a copy, so the caller's delay is unchanged; the launch queue is a suffix of the old one plus the handle, which is outstanding unless already done; when the queue empties and the new request's reply carried the response, it is locally done at now plus the delay left after it was sent |
| TlmInitiatorNb.Initiator.NbWrite | tlm/sim/dlsc_tlm_initiator_nb.h:204-225 | a pooled descriptor is set up as the data-only WRITE request and launched with delay_initial, a copy, so the caller's delay is unchanged; the launch queue is a suffix of the old one plus the handle, which is outstanding unless already done; when the queue empties and the new request's reply carried the response, it is locally done at now plus the delay left after it was sent |
| TlmInitiatorNb.Initiator.NbWriteStrobed | tlm/sim/dlsc_tlm_initiator_nb.h:230-275 | a pooled descriptor is set up as the strobed WRITE request and launched with delay_initial, a copy, so the caller's delay is unchanged; the launch queue is a suffix of the old one plus the handle, which is outstanding unless already done; when the queue empties and the new request's reply carried the response, it is locally done at now plus the delay left after it was sent |
| TlmInitiatorNb.Initiator.NbTransportBw | tlm/sim/dlsc_tlm_initiator_nb.h:294-324 | END_REQ releases the head of the launch queue and answers ACCEPTED; BEGIN_RESP makes the handle locally done at now+delay and answers END_RESP with COMPLETED |
| TlmInitiatorNb.Initiator.CompleteMethod | tlm/sim/dlsc_tlm_initiator_nb.h:392-399 | every peq entry due by now finalises its handle in queue order; exactly the entries not yet due stay queued |
| TlmInitiatorNb.Initiator.CompleteStep | tlm/sim/dlsc_tlm_initiator_nb.h:394-398 | one peq entry: a due one finalises its handle, a later one is kept |
| TlmInitiatorNb.Initiator.CompleteEntry | tlm/sim/dlsc_tlm_initiator_nb.h:395-397 | a due entry's handle is finalised and leaves the outstanding map |
| TlmInitiatorNb.NotDueMembers | tlm/sim/dlsc_tlm_initiator_nb.h:394 | the entries kept are exactly those due after now |
| TlmInitiatorNb.DueIdsMembers | tlm/sim/dlsc_tlm_initiator_nb.h:394-397 | the handles finalised are exactly those of entries due by now |
| TlmInitiatorNb.NotDueSnoc | tlm/sim/dlsc_tlm_initiator_nb.h:394-397 | one more peq entry is either kept or finalised, according to its due time |
| TlmInitiatorNb.AsWrittenDropsUpdatedResponse | tlm/sim/dlsc_tlm_initiator_nb.h:352-361 | as written, a target answering BEGIN_REQ with TLM_UPDATED and BEGIN_RESP gets END_RESP but its transaction is never completed |
| TlmTargetNb.ValidatePayload | tlm/sim/dlsc_tlm_target_nb.h:210-258 | a payload is accepted exactly when it is a read or a write that meets the address, burst and strobe rules; the first rule broken decides the status (OK for neither read nor write, then ADDRESS_ERROR, BURST_ERROR, BYTE_ENABLE_ERROR), and an accepted payload keeps INCOMPLETE |
| TlmTargetNb.InitiatorReadAccepted | tlm/sim/dlsc_tlm_target_nb.h:229-245 | a read built by nb_read is accepted exactly when its address is bus-aligned, it stays inside a 4 KiB page and it has 1 to max_length words |
| TlmTargetNb.InitiatorWriteAccepted | tlm/sim/dlsc_tlm_target_nb.h:229-245 | the same holds for a data-only nb_write |
| TlmTargetNb.InitiatorStrobedWriteAccepted | tlm/sim/dlsc_tlm_target_nb.h:229-254 | the same holds for a strobed nb_write: its byte-enable length never breaks the strobe rules |
| TlmTargetNb.CalcCompleteDelay | tlm/sim/dlsc_tlm_target_nb.h:435-443 | the delay never shrinks, and the local time it gives is the later of the old local time and the completion time |
| TlmTargetNb.LaneMask | tlm/sim/dlsc_tlm_target_nb.h:469-476 | the strobe word of a run of byte enables fits in as many bits as there are bytes |
| TlmTargetNb.StrobeWords | tlm/sim/dlsc_tlm_target_nb.h:466-477 | n strobe words, one per W byte enables |
| TlmTargetNb.ModPow2Snoc | tlm/sim/dlsc_tlm_target_nb.h:473 | setting bit i of the strobe word adds 2^i exactly when the lane is enabled |
| TlmTargetNb.LaneMaskOfEnables | tlm/sim/dlsc_tlm_target_nb.h:469-476 | the strobe word rebuilt from the enables of strobe word s is s cut to W bits |
| TlmTargetNb.StrobeRoundTrip | tlm/sim/dlsc_tlm_target_nb.h:461-483 | get_strobes after the initiator's strobe expansion gives back every strobe word cut to the bus width |
| TlmTargetNb.ExpandEnableBytes | tlm/sim/dlsc_tlm_target_nb.h:471 | the initiator's expansion writes only ENABLED and DISABLED, so get_strobes' assertion holds |
| TlmTargetNb.LaneStrobe | tlm/sim/dlsc_tlm_target_nb.h:469-476 | the inner loop builds exactly the strobe word of the W byte enables at p |
| TlmTargetNb.GetStrobes | tlm/sim/dlsc_tlm_target_nb.h:461-483 | size() strobe words: those of the byte enables when there are any, all W bits set when there are none |
| TlmTargetNb.StrobeLoop | tlm/sim/dlsc_tlm_target_nb.h:467-477 | the outer loop yields exactly the strobe words of the first n*W byte enables |
| TlmTargetNb.StrobeWordsPrefix | tlm/sim/dlsc_tlm_target_nb.h:467-477 | only the first n*W byte enables affect the strobe words |
| TlmTargetNb.Request.constructor | tlm/sim/dlsc_tlm_target_nb.h:487-499 | a new request is not complete and is ready at the given time |
| TlmTargetNb.Request.Size | tlm/sim/dlsc_tlm_target_nb.h:341 | size() is data_length divided by the bus width, rounded down |
| TlmTargetNb.Target.constructor | tlm/sim/dlsc_tlm_target_nb.h:99-147 | a new target has nothing outstanding, queued or pending |
| TlmTargetNb.Target.CompleteCommon | tlm/sim/dlsc_tlm_target_nb.h:427-430 | the request is complete and joins the back of the completion FIFO; nothing else changes |
| TlmTargetNb.Target.Complete | tlm/sim/dlsc_tlm_target_nb.h:406-409 | the request completes at the current time |
| TlmTargetNb.Target.CompleteDelay | tlm/sim/dlsc_tlm_target_nb.h:413-416 | the request completes at now+delay |
| TlmTargetNb.Target.CompleteDelta | tlm/sim/dlsc_tlm_target_nb.h:420-423 | the request completes delta after its ready time |
| TlmTargetNb.Target.Retire | tlm/sim/dlsc_tlm_target_nb.h:283-287 | the head of the completion FIFO leaves the FIFO and the outstanding map |
| TlmTargetNb.Target.NbTransportFw | tlm/sim/dlsc_tlm_target_nb.h:160-206 | BEGIN_REQ creates a request ready at now+delay with the validated status; a rejected one completes at once; an accepted one goes into the ready peq when it carries a delay to an unannotated owner, and otherwise to the owner now, where it is complete exactly when the owner completes it during the call (at now plus the owner's delay), the peq untouched; the answer is BEGIN_RESP with COMPLETED exactly when it completed during the call, heads the FIFO and no response is pending, and END_REQ with UPDATED otherwise; END_RESP retires the pending response |
| TlmTargetNb.Target.CompleteMethod | tlm/sim/dlsc_tlm_target_nb.h:262-279 | while no response is pending, the FIFO head is offered with the delay that reaches its completion time; every offer but the last was acknowledged (COMPLETED or END_RESP) and the last one exactly when no response is left pending; the acknowledged heads leave the FIFO in order and their ids leave the outstanding map, an unacknowledged one stays at the head, pending; the ready peq is untouched |
| TlmTargetNb.Target.Offer | tlm/sim/dlsc_tlm_target_nb.h:264-278 | one pass: the head is offered with the delay to its completion time and retired (FIFO and outstanding map) exactly when the answer acknowledges it; otherwise the response is left pending |
| TlmTargetNb.IdsSnoc | tlm/sim/dlsc_tlm_target_nb.h:285-286 | retiring one more head removes exactly its id from the outstanding map |
| Tlm.ByteRange | tlm/sim/dlsc_tlm_memory.h:378 | the number of values an n-byte word holds is at least 1 |
| Tlm.WordOf | tlm/sim/dlsc_tlm_target_nb.h:456-457 | the little-endian value of n bytes fits in n bytes |
| Tlm.BytesOf | tlm/sim/dlsc_tlm_memory.h:378 | a word stored in memory takes exactly n bytes |
| Tlm.WordsToBytes | tlm/sim/dlsc_tlm_initiator_nb.h:220 | copying words into a byte buffer takes W bytes per word |
| Tlm.BytesToWords | tlm/sim/dlsc_tlm_initiator_nb.h:532-533 | copying a byte buffer out as words gives one word per W bytes |
| TlmMemory.AlignDown | tlm/sim/dlsc_tlm_memory.h:154 | an address rounded down to the bus width is a multiple of it, at most W-1 below the address |
| TlmMemory.AlignDownMask | tlm/sim/dlsc_tlm_memory.h:154 | clearing the low bits with `& ~(W-1)` on 64 bits is rounding down to a multiple of W |
| TlmMemory.LastAddress | tlm/sim/dlsc_tlm_memory.h:236 | the last byte address `addr + length - 1` is computed in 64-bit arithmetic |
| TlmMemory.CrossesBlockMask | tlm/sim/dlsc_tlm_memory.h:236 | the block-crossing test written with `~block_mask` is the comparison of block numbers |
| TlmMemory.WithinBlock | tlm/sim/dlsc_tlm_memory.h:236 | a transfer of at least one byte passes the crossing test exactly when it fits in the rest of its block |
| TlmMemory.ZeroLengthCrossing | tlm/sim/dlsc_tlm_memory.h:236 | a zero-length transfer counts as crossing exactly when it starts a block |
| TlmMemory.PatternSlice | tlm/sim/dlsc_tlm_memory.h:376-379 | the W bytes of a fresh block at an aligned offset p are the bytes of start + p |
| TlmMemory.InitialWord | tlm/sim/dlsc_tlm_memory.h:376-379 | each aligned word of a fresh block reads back as its own address, truncated to W bytes |
| TlmMemory.PatternWord | tlm/sim/dlsc_tlm_memory.h:378 | one pass of the fill loop writes the next word of the address pattern and keeps the words already written |
| TlmMemory.InitBlock | tlm/sim/dlsc_tlm_memory.h:376-379 | the fill loop, with its bound taken without wrap-around, gives every word of the block its address value |
| TlmMemory.InitBlockAsWritten | tlm/sim/dlsc_tlm_memory.h:377 | the fill loop as written fills the pattern when the block ends below 2^64, and leaves the block's raw contents when its bound wraps to 0 |
| TlmMemory.WholeBlocks | tlm/sim/dlsc_tlm_memory.h:128-130 | a configuration the constructor's assertions accept has a memory size that is a whole number of blocks |
| TlmMemory.TopBlockStart | tlm/sim/dlsc_tlm_memory.h:128-130 | there is a configuration the constructor accepts whose top block makes the fill loop's bound wrap to 0 |
| TlmMemory.CopyBytes | tlm/sim/dlsc_tlm_memory.h:299-312 | without byte enables the copy is straight; with them, byte i is copied exactly when enable i mod be_length is set, and every other destination byte keeps its value |
| TlmMemory.ModIncrement | tlm/sim/dlsc_tlm_memory.h:310 | the enable counter wraps to 0 exactly when it reaches be_length, so it always equals i mod be_length |
| TlmMemory.Schedule | tlm/sim/dlsc_tlm_memory.h:249-277 | the memory's next free time becomes xfer after the later of its old value and now; the initiator's delay becomes the later of its delay plus xfer and the memory's completion time relative to now |
| TlmMemory.Classify | tlm/sim/dlsc_tlm_memory.h:227-246 | a command that neither reads nor writes needs no access; otherwise a block crossing is refused with ADDRESS_ERROR, then a zero length or streaming with BURST_ERROR; every other transfer is carried out |
| TlmMemory.Status | tlm/sim/dlsc_tlm_memory.h:226-316 | b_transport ends OK exactly for a command without access or a carried-out transfer without injected error; an injected error gives GENERIC_ERROR; a refusal gives its own status |
| TlmMemory.AccessFitsBlock | tlm/sim/dlsc_tlm_memory.h:236-246 | a transfer that is carried out lies inside one block |
| TlmMemory.WordsOfBytes | tlm/sim/dlsc_tlm_memory.h:164 | bytes making up whole words convert to words and back unchanged |
| TlmMemory.ChunkBytes | tlm/sim/dlsc_tlm_memory.h:157-160 | one backdoor step copies at least one whole word, no more than remains, and stays inside the current block |
| TlmMemory.NextChunk | tlm/sim/dlsc_tlm_memory.h:157-160 | the step at byte d of a transfer is at least one word, ends on a word boundary and stays inside its block |
| TlmMemory.ChunkFits | tlm/sim/dlsc_tlm_memory.h:157-160 | the word count `min((block_size - (addr & block_mask))/W, remaining)` times W fits before the block end and in what remains |
| TlmMemory.ChunkFresh | tlm/sim/dlsc_tlm_memory.h:182-194 | a step never writes over the location of an earlier byte less than the memory size before the step's end |
| TlmMemory.Memory.constructor | tlm/sim/dlsc_tlm_memory.h:109-143 | a new memory has no blocks, no error injection, next free time 0, and delays enabled exactly when a latency is non-zero |
| TlmMemory.Memory.SetErrorRateRead | tlm/sim/dlsc_tlm_memory.h:31 | the read error rate is set; nothing else changes |
| TlmMemory.Memory.SetErrorRateWrite | tlm/sim/dlsc_tlm_memory.h:32 | the write error rate is set; nothing else changes |
| TlmMemory.Memory.SetErrorRate | tlm/sim/dlsc_tlm_memory.h:30 | both error rates are set to the same value |
| TlmMemory.Memory.GetBlock | tlm/sim/dlsc_tlm_memory.h:367-386 | the block key is `addr & blocks_mask` and the offset `addr & block_mask`; a new block is added only for that key, and no location's content changes |
| TlmMemory.Memory.Store | tlm/sim/dlsc_tlm_memory.h:303-311 | the enabled bytes of the source land at the location of cur, inside one block; every other location keeps its content |
| TlmMemory.Memory.Load | tlm/sim/dlsc_tlm_memory.h:303 | length bytes are read from the location of cur, inside one block; no content changes |
| TlmMemory.Memory.NbWrite | tlm/sim/dlsc_tlm_memory.h:172-195 | the words' bytes land at consecutive locations from the address rounded down to a word, wrapping at the end of the memory, so that every location holds the last byte written to it; every location the transfer does not reach keeps its content |
| TlmMemory.Memory.WriteChunk | tlm/sim/dlsc_tlm_memory.h:183-193 | one step of nb_write writes the next run of words and keeps what earlier steps wrote, as far as the step does not lap it |
| TlmMemory.Memory.NbRead | tlm/sim/dlsc_tlm_memory.h:146-169 | n words are read from consecutive locations from the address rounded down to a word; no location's content changes |
| TlmMemory.Memory.ReadChunk | tlm/sim/dlsc_tlm_memory.h:157-167 | one step of nb_read appends the next run of words read from memory |
| TlmMemory.Memory.ChunkHolds | tlm/sim/dlsc_tlm_memory.h:164 | bytes read from the next locations extend a prefix that matches the memory |
| TlmMemory.Memory.BackdoorRoundTrip | tlm/sim/dlsc_tlm_memory.h:146-195 | words written with nb_write are read back unchanged by nb_read at the same address |
| TlmMemory.Memory.BTransport | tlm/sim/dlsc_tlm_memory.h:226-316 | the status follows Status; refused transfers leave timing and memory untouched; accepted ones are scheduled when latency is configured; an injected error leaves memory untouched; otherwise a write stores its enabled bytes, a read loads them, and DMI is allowed |
| TlmMemory.Memory.Occupy | tlm/sim/dlsc_tlm_memory.h:249-277 | with latency configured the next free time and the delay follow Schedule; otherwise they are unchanged |
| TlmMemory.Memory.Serve | tlm/sim/dlsc_tlm_memory.h:287-315 | a write's enabled bytes are stored, a read's are loaded; the payload becomes OK with DMI allowed |
| TlmMemory.Memory.NbTransportFw | tlm/sim/dlsc_tlm_memory.h:212-223 | BEGIN_REQ is served at once exactly as b_transport serves it (the same status, Schedule timing, bytes stored in or loaded from the memory at the address modulo its size, DMI allowed on success, nothing touched on refusal or injected error) and answered with BEGIN_RESP and COMPLETED |
| TlmMemory.Memory.TransportDbg | tlm/sim/dlsc_tlm_memory.h:319-347 | a command that neither reads nor writes, or crosses a block, moves nothing and returns 0; otherwise all length bytes are copied, ignoring byte enables and timing, and length is returned |
| TlmMemory.Memory.GetDirectMemPtr | tlm/sim/dlsc_tlm_memory.h:350-364 | DMI is always granted, read and write, for the whole block holding the address, with the per-byte latency; no content changes |
| TlmMemtest.SubU32 | tlm/sim/dlsc_tlm_memtest.h:401 | the unsigned 32-bit subtraction stays below 2^32 and is the plain difference when it does not borrow |
| TlmMemtest.MinLength | tlm/sim/dlsc_tlm_memtest.h:400 | the shortest burst aimed for is at least one word and never above max_length |
| TlmMemtest.MaxLengthAsWritten | tlm/sim/dlsc_tlm_memtest.h:401 | the bound as written divides by zero exactly when max_length - min is zero |
| TlmMemtest.AsWrittenNeverReachesMax | tlm/sim/dlsc_tlm_memtest.h:401 | no draw of the bound as written ever yields max_length |
| TlmMemtest.AsWrittenDividesByZero | tlm/sim/dlsc_tlm_memtest.h:400-401 | a max_length of 2 with the not-small minimum divides by zero |
| TlmMemtest.MaxLength | tlm/sim/dlsc_tlm_memtest.h:401 | the corrected bound lies between min and max_length inclusive |
| TlmMemtest.MaxLengthCovers | tlm/sim/dlsc_tlm_memtest.h:401 | every bound from min to max_length, max_length included, is drawn by some draw |
| TlmMemtest.Opened | tlm/sim/dlsc_tlm_memtest.h:497-506 | opening a run keeps the number of counters |
| TlmMemtest.Closed | tlm/sim/dlsc_tlm_memtest.h:510-519 | closing a run whose counters are positive keeps the number of counters |
| TlmMemtest.CloseAfterOpen | tlm/sim/dlsc_tlm_memtest.h:497-519 | closing a run just opened restores every counter |
| TlmMemtest.OpenedStaysByte | tlm/sim/dlsc_tlm_memtest.h:503 | opening a run whose counters are below 0xFF keeps every counter within a uint8 |
| TlmMemtest.IndexRoundTrip | tlm/sim/dlsc_tlm_memtest.h:437 | the word index complete recovers from a request's address is the index it was launched with, for any base address |
| TlmMemtest.Truncated | tlm/sim/dlsc_tlm_memtest.h:372-385 | each random draw is reduced modulo the width of the type it is assigned to |
| TlmMemtest.Zeros | tlm/sim/dlsc_tlm_memtest.h:325-331 | the statistics counters start at zero, one per socket |
| TlmMemtest.NoRequests | tlm/sim/dlsc_tlm_memtest.h:322-324 | init gives every socket an empty queue of transactions in flight |
| TlmMemtest.NewArrays | tlm/sim/dlsc_tlm_memtest.h:313-321 | init allocates four distinct arrays of one entry per word |
| TlmMemtest.MemTest.constructor | tlm/sim/dlsc_tlm_memtest.h:110-137 | the tester starts with the given word width, maximum burst and socket count, a strobe rate of 20 percent, and no region |
| TlmMemtest.MemTest.SetStrobeRate | tlm/sim/dlsc_tlm_memtest.h:33 | set_strobe_rate stores the percentage and leaves the region alone |
| TlmMemtest.MemTest.Test | tlm/sim/dlsc_tlm_memtest.h:147-157 | test records the region and iteration count; its base must be a multiple of the maximum burst |
| TlmMemtest.MemTest.Init | tlm/sim/dlsc_tlm_memtest.h:308-332 | init needs a power-of-two word count and leaves every word uninitialised with nothing pending |
| TlmMemtest.MemTest.Allocate | tlm/sim/dlsc_tlm_memtest.h:313-331 | the arrays and statistics of init are fresh and zero |
| TlmMemtest.MemTest.AllocateArrays | tlm/sim/dlsc_tlm_memtest.h:313-321 | the per-word arrays are allocated and zeroed |
| TlmMemtest.MemTest.ResetStatistics | tlm/sim/dlsc_tlm_memtest.h:325-331 | the per-socket statistics are zeroed without touching the per-word arrays |
| TlmMemtest.MemTest.BurstWords | tlm/sim/dlsc_tlm_memtest.h:396 | the 4 KiB window holds at least one word |
| TlmMemtest.MemTest.OpenRegion | tlm/sim/dlsc_tlm_memtest.h:497-506 | open_region adds one pending access to every word of the run and changes no other counter, exactly when every counter of the run is below 0xFF; otherwise its assertion fails at the first counter at 0xFF, the words before it already counted |
| TlmMemtest.MemTest.CloseRegion | tlm/sim/dlsc_tlm_memtest.h:510-519 | close_region removes one pending access from every word of the run and changes no other counter |
| TlmMemtest.MemTest.FindRegion | tlm/sim/dlsc_tlm_memtest.h:391-432 | find_region succeeds exactly when the scan ends with a non-empty run; the run found is the scan's, clamped to its 4 KiB window: a usable, in-range run of at most the drawn bound; when it fails, the word scanned last (the one before the start) is not usable |
| TlmMemtest.MemTest.ScanRun | tlm/sim/dlsc_tlm_memtest.h:404-421 | the do-while returns exactly the run of the reference scan Scan: an in-range run of usable words no longer than the bound |
| TlmMemtest.MemTest.ScanFromEnds | tlm/sim/dlsc_tlm_memtest.h:404-421 | a scan that stops short of the bound went all the way round: its run is empty exactly when the last word scanned is unusable, and a non-empty run ends at that word |
| TlmMemtest.MemTest.ScanEmpty | tlm/sim/dlsc_tlm_memtest.h:404-421 | an empty scan result means the word just before the start is unusable; below the bound the result is empty exactly then, and a non-empty one ends just before the start |
| TlmMemtest.MemTest.LastScanned | tlm/sim/dlsc_tlm_memtest.h:420-421 | the word before the start is the last one a scan all the way round visits |
| TlmMemtest.MemTest.Launch | tlm/sim/dlsc_tlm_memtest.h:336-357 | launch queues one read (only when drawn) or write on its socket over a usable run of 1 .. max_length words, falling back to a write; it fails exactly when both scans (the drawn direction, then a write) end empty, and then the word before each start is unusable for its direction; a read run with a counter already at 0xFF stops at open_region's assertion (aborted) with nothing queued, which a write run, having no pending access, never does |
| TlmMemtest.MemTest.PickRegion | tlm/sim/dlsc_tlm_memtest.h:340-348 | the drawn search, then a write search when it fails; nothing is found only when both scans end empty |
| TlmMemtest.MemTest.LaunchRun | tlm/sim/dlsc_tlm_memtest.h:350-354 | the request is launch_read's or launch_write's (strobes allowed) for the run found, queued exactly when open_region's assertion holds, and only a read can fail it |
| TlmMemtest.MemTest.LaunchRead | tlm/sim/dlsc_tlm_memtest.h:361-366 | launch_read opens the run's read counters and queues the read request on its socket, exactly when open_region's assertion holds; otherwise nothing is queued |
| TlmMemtest.MemTest.LaunchWrite | tlm/sim/dlsc_tlm_memtest.h:370-387 | launch_write opens the run's write counters and queues the write, with strobes only when drawn and allowed, exactly when open_region's assertion holds; otherwise nothing is queued |
| TlmMemtest.MemTest.Complete | tlm/sim/dlsc_tlm_memtest.h:436-493 | complete closes the run's counters; a failure counts its bytes as errors and a failed write de-initialises its words; a success counts its bytes, a write records its data as expected and marks the words initialised when it had no strobes, and a read is clean exactly when every word matches |
| TlmMemtest.MemTest.Account | tlm/sim/dlsc_tlm_memtest.h:448-491 | the statistics, expected values and comparison of complete, for both outcomes |
| TlmMemtest.Fill | tlm/sim/dlsc_tlm_memtest.h:451 | the fill sets exactly the run to the value and leaves every other word |
| TlmMemtest.CopyInto | tlm/sim/dlsc_tlm_memtest.h:471 | the copy puts the payload's words over the run and leaves every other word |
| TlmMemtest.Matches | tlm/sim/dlsc_tlm_memtest.h:483-490 | the comparison is clean exactly when every word read back is the expected one |
| TlmFabric.Complement | tlm/sim/dlsc_tlm_fabric.h:151 | ~m on a uint64 is the value that adds to m to give all ones |
| TlmFabric.DefaultMap | tlm/sim/dlsc_tlm_fabric.h:65-73 | a default window allows both reads and writes |
| TlmFabric.FirstMatch | tlm/sim/dlsc_tlm_fabric.h:150-159 | the window found selects the payload and no earlier window does |
| TlmFabric.Resized | tlm/sim/dlsc_tlm_fabric.h:98-100 | resizing the table keeps the first entries and fills the rest with default windows |
| TlmFabric.LowBitsOfMask | tlm/sim/dlsc_tlm_fabric.h:120-121 | 2^k - 1 has its 12 low bits set exactly when k >= 12 |
| TlmFabric.MaskOkHasForm | tlm/sim/dlsc_tlm_fabric.h:120-123 | every mask set_map accepts is 2^k - 1 with 12 <= k <= 64 |
| TlmFabric.FormIsMaskOk | tlm/sim/dlsc_tlm_fabric.h:120-123 | every 2^k - 1 with 12 <= k <= 64 passes the mask checks of set_map |
| TlmFabric.MaskForm | tlm/sim/dlsc_tlm_fabric.h:120-123 | the masks set_map accepts are exactly the windows of 2^k bytes, at least 4 KiB |
| TlmFabric.AlignedBase | tlm/sim/dlsc_tlm_fabric.h:124-125 | a base has no bit in common with the mask exactly when it is a multiple of the window size |
| TlmFabric.ComplementOfMask | tlm/sim/dlsc_tlm_fabric.h:151 | masking with ~(2^k - 1) clears the k low bits of the address |
| TlmFabric.MatchRange | tlm/sim/dlsc_tlm_fabric.h:151 | a window accepts exactly the 2^k addresses from its base on |
| TlmFabric.RemapFields | tlm/sim/dlsc_tlm_fabric.h:154 | the translated address lies in the output window at the offset the input had within the mask |
| TlmFabric.DefaultMapOk | tlm/sim/dlsc_tlm_fabric.h:65-73 | the default window is one set_map could install |
| TlmFabric.DefaultMapRoutes | tlm/sim/dlsc_tlm_fabric.h:65-73 | the default window accepts every address and forwards it unchanged |
| TlmFabric.Fabric.constructor | tlm/sim/dlsc_tlm_fabric.h:86-94 | a new fabric has its socket counts, no window and nothing outstanding |
| TlmFabric.Fabric.ResizedOk | tlm/sim/dlsc_tlm_fabric.h:98-100 | resizing with default windows keeps every window well formed |
| TlmFabric.Fabric.EndOfElaboration | tlm/sim/dlsc_tlm_fabric.h:96-101 | end_of_elaboration leaves one window per downstream socket and nothing else changed |
| TlmFabric.Fabric.SetMap | tlm/sim/dlsc_tlm_fabric.h:105-133 | set_map sizes the table to the downstream sockets and replaces exactly the chosen window |
| TlmFabric.Fabric.Decode | tlm/sim/dlsc_tlm_fabric.h:148-159 | the decoder loop finds the first window that selects the payload |
| TlmFabric.Fabric.NbTransportFw | tlm/sim/dlsc_tlm_fabric.h:138-184 | an unrouted payload completes at once with ADDRESS_ERROR; a routed one goes out on the first matching window with its translated address; the caller's delay moves only when the request finished; a finished payload is forgotten and any other recorded with its upstream socket |
| TlmFabric.Fabric.NbTransportBw | tlm/sim/dlsc_tlm_fabric.h:189-212 | a backward call goes to the upstream socket recorded for the payload, leaves the caller's delay, and the record is dropped on END_RESP or TLM_COMPLETED |
| TlmFabric.RoutingIsFirstMatch | tlm/sim/dlsc_tlm_fabric.h:150-159 | routing picks window i exactly when it selects the payload and no lower window does |
| TlmFabric.FirstMatchSkips | tlm/sim/dlsc_tlm_fabric.h:150-159 | the scan from any window passes over the ones that do not select the payload |
| TlmFabric.ForwardedAddress | tlm/sim/dlsc_tlm_fabric.h:151-154 | every forwarded address has the output base in its high bits and the input's offset in its low bits |
| DlscMain.FloorLog2 | common/sim/dlsc_main.cpp:189-195 | the result is the floor base-2 logarithm: 2^r <= i < 2^(r+1), and 0 for inputs 0 and 1 |
| DlscMain.Log2 | common/sim/dlsc_main.cpp:189-195 | the shifting loop of dlsc_log2 computes the floor logarithm |
| DlscMain.Clog2 | common/sim/dlsc_main.cpp:197-201 | dlsc_clog2 is the least r with 2^r >= i, as Verilog's $clog2 |
| DlscMain.IsPowerOf2Exactly | common/sim/dlsc_main.cpp:184-187 | the test i && !(i & (i-1)) holds exactly of the numbers with a single bit set |
| DlscMain.PowersOf2Pass | common/sim/dlsc_main.cpp:184-187 | every power of two below 2^64 passes the test |
| DlscMain.FloorLog2OfPow2 | common/sim/dlsc_main.cpp:189-195 | the logarithm of 2^k is k |
| DlscMain.SeedCounter.constructor | common/sim/dlsc_main.cpp:51-55 | the seed counter starts at PARAM_RAND_SEED, or at 0 when none is configured |
| DlscMain.SeedCounter.GetSeed | common/sim/dlsc_main.cpp:49-58 | get_seed increments the 32-bit counter, wrapping, and returns the new value |
| DlscMain.Assert | common/sim/dlsc_common.h:68 | dlsc_assert records an okay exactly when its condition holds and an error otherwise, never a warning |
| DlscMain.Tally | common/sim/dlsc_common.h:36-66 | the counters after a run: errors never exceed checks, and checks and warnings together number the calls made |
| DlscMain.TallyCounts | common/sim/dlsc_common.h:36-66 | each counter is zero exactly when the run holds none of the events it counts |
| DlscMain.ReportOfRun | common/sim/dlsc_main.cpp:67-81 | a run's report fails exactly when an assertion failed or none was evaluated, and a pass carries warnings exactly when a warning was issued |
| DlscMain.DrawSeeds | common/sim/dlsc_main.cpp:49-58 | n successive seeds from a counter at s are s+1, ..., s+n modulo 2^32, and the counter ends at s+n |
| DlscBv.Low | common/sim/dlsc_bv.h:72 | assigning a value to a bit range keeps a value below the field's radix |
| DlscBv.SignExtended | common/sim/dlsc_bv.h:98-112 | sign extension of a field gives a value in the signed range of the field that has the same low bits |
| DlscBv.Fields | common/sim/dlsc_bv.h:51-54 | slicing a vector gives n fields, each below the radix |
| DlscBv.Extended | common/sim/dlsc_bv.h:98-112 | sign extension keeps the number of elements |
| DlscBv.Unpack | common/sim/dlsc_bv.h:49-57 | unpacking a vector gives one element per field |
| DlscBv.Pack | common/sim/dlsc_bv.h:67-75 | the packed vector fits in WIDTH bits |
| DlscBv.Pow2Limits | common/sim/dlsc_bv.h:13 | the 64-bit element types hold values below 2^63 (signed) and 2^64 (unsigned) |
| DlscBv.Pow2Width | common/sim/dlsc_bv.h:12-14 | a WIDTH = ELEMENTS*BITS bit vector is a vector of ELEMENTS fields of radix 2^BITS |
| DlscBv.Pow2Radix | common/sim/dlsc_bv.h:104-109 | 2^BITS is a field radix and half of it is the sign bit 2^(BITS-1) |
| DlscBv.FieldsStep | common/sim/dlsc_bv.h:51-54 | taking the low field of the rest of the vector moves it from the fields to come to those taken |
| DlscBv.DivWidth | common/sim/dlsc_bv.h:51-54 | dropping the low field of a vector ELEMENTS fields wide leaves one ELEMENTS-1 fields wide |
| DlscBv.LowDetermines | common/sim/dlsc_bv.h:98-112 | two values in the signed range of a field are equal when their low bits are |
| DlscBv.UnpackStep | common/sim/dlsc_bv.h:49-57 | the lowest field unpacks to the first element and the rest from the vector shifted down one field |
| DlscBv.PackFields | common/sim/dlsc_bv.h:67-75 | packing the fields of a vector gives the vector back |
| DlscBv.PackExtended | common/sim/dlsc_bv.h:67-75 | sign extension leaves the low bits of every element, so the packed vector is unchanged |
| DlscBv.PackUnpack | common/sim/dlsc_bv.h:49-75 | vector to elements to vector is the identity on WIDTH-bit vectors, signed or unsigned |
| DlscBv.UnpackPack | common/sim/dlsc_bv.h:49-75 | elements to vector to elements is the identity on elements that fit their field |
| DlscBv.PackSnoc | common/sim/dlsc_bv.h:70-73 | element i's low bits are written just above the fields before it |
| DlscBv.Bv.constructor | common/sim/dlsc_bv.h:21-24 | the default constructor sets every element to 0 |
| DlscBv.Bv.Copy | common/sim/dlsc_bv.h:26-29 | the copy constructor gives the same shape and elements in a new array |
| DlscBv.Bv.FromVector | common/sim/dlsc_bv.h:31-34 | construction from a WIDTH-bit vector gives its unpacked elements |
| DlscBv.Bv.FromUint64 | common/sim/dlsc_bv.h:36-39 | construction from a uint64 gives the elements of its low WIDTH bits |
| DlscBv.Bv.FieldFits | common/sim/dlsc_bv.h:13 | every field value, sign-extended or not, is a value of the element type |
| DlscBv.Bv.Assign | common/sim/dlsc_bv.h:43-47 | assignment from a vector of the same shape copies its elements |
| DlscBv.Bv.AssignVector | common/sim/dlsc_bv.h:49-57 | assignment from a WIDTH-bit vector leaves exactly its unpacked elements |
| DlscBv.Bv.Slice | common/sim/dlsc_bv.h:51-54 | element i receives bits [i*BITS+BITS-1 : i*BITS] of the vector |
| DlscBv.Bv.AssignUint64 | common/sim/dlsc_bv.h:59-63 | assignment from a uint64 leaves the elements of its low WIDTH bits |
| DlscBv.Bv.SignExtend | common/sim/dlsc_bv.h:98-112 | every element is sign extended from bit BITS-1 for a signed type and left alone for an unsigned one |
| DlscBv.Bv.ToVector | common/sim/dlsc_bv.h:67-75 | the cast to a vector packs the elements' low bits |
| DlscBv.Bv.ToUint64 | common/sim/dlsc_bv.h:77-81 | the cast to uint64 is the low 64 bits of the packed vector |
| DlscBv.Bv.Get | common/sim/dlsc_bv.h:91-95 | a read element is a value of the element type |
| DlscBv.Bv.Set | common/sim/dlsc_bv.h:85-89 | a write through the element reference changes that element only |
| DlscBv.RoundTrip | common/sim/dlsc_bv.h:31-75 | a vector a dlsc_bv is built from comes back from the cast |
| PcieTlp.WithFormat | pcie/sim/dlsc_pcie_tlp.cpp:66-75 | set_format makes the header 4 dwords exactly for the 4DW formats and carries data exactly for the with-data formats |
| PcieTlp.WithType | pcie/sim/dlsc_pcie_tlp.cpp:77-120 | set_type records the code and succeeds exactly for the thirteen defined codes, which are exactly those that set a class flag |
| PcieTlp.AddressDwords | pcie/sim/dlsc_pcie_tlp.cpp:506-534 | the routing part of a header is two dwords in a 4DW header and one otherwise |
| PcieTlp.Serialized | pcie/sim/dlsc_pcie_tlp.cpp:462-545 | a serialized packet is its header, its payload when the format carries data, and one digest dword when present |
| PcieTlp.DecodeDword0 | pcie/sim/dlsc_pcie_tlp.cpp:300-309 | the decoded length is 1 .. 1024 with a wire length of 0 read as 1024, and the header size is kept |
| PcieTlp.DecodeDword1 | pcie/sim/dlsc_pcie_tlp.cpp:316-340 | a completion's decoded byte count is 1 .. 4096 with a wire count of 0 read as 4096 |
| PcieTlp.DecodeAddress | pcie/sim/dlsc_pcie_tlp.cpp:344-385 | decoding the routing dwords keeps the header size |
| PcieTlp.Tlp.constructor | pcie/sim/dlsc_pcie_tlp.cpp:15-21 | a new packet is cleared |
| PcieTlp.Tlp.Clear | pcie/sim/dlsc_pcie_tlp.cpp:24-64 | clear resets the packet to a well-formed 3DW memory read of length 1 |
| PcieTlp.Tlp.SetFormat | pcie/sim/dlsc_pcie_tlp.cpp:66-75 | set_format always succeeds and derives header size and payload presence |
| PcieTlp.Tlp.SetType | pcie/sim/dlsc_pcie_tlp.cpp:77-120 | set_type fails exactly for a reserved code |
| PcieTlp.Tlp.SetTrafficClass | pcie/sim/dlsc_pcie_tlp.cpp:122-127 | the traffic class is stored, and a value of 8 or more throws and changes nothing |
| PcieTlp.Tlp.SetDigest | pcie/sim/dlsc_pcie_tlp.cpp:129-133 | set_digest stores the digest and announces one digest dword |
| PcieTlp.Tlp.SetPoisoned | pcie/sim/dlsc_pcie_tlp.cpp:135-137 | set_poisoned changes only the poisoned flag |
| PcieTlp.Tlp.SetAttributes | pcie/sim/dlsc_pcie_tlp.cpp:139-142 | set_attributes changes only the two attribute bits |
| PcieTlp.Tlp.SetLength | pcie/sim/dlsc_pcie_tlp.cpp:144-153 | a length of 1 .. 1024 is stored and a single-dword packet loses its last byte enables; any other length throws and changes nothing |
| PcieTlp.Tlp.SetSource | pcie/sim/dlsc_pcie_tlp.cpp:155-160 | a 16-bit requester id is stored; a wider one throws and changes nothing |
| PcieTlp.Tlp.SetTag | pcie/sim/dlsc_pcie_tlp.cpp:162-168 | an 8-bit tag is stored; a wider one throws and changes nothing |
| PcieTlp.Tlp.SetCompletionStatus | pcie/sim/dlsc_pcie_tlp.cpp:170-184 | any status is stored, and the result says whether it is SC, UR, CRS or CA |
| PcieTlp.Tlp.SetCompletion | pcie/sim/dlsc_pcie_tlp.cpp:186-201 | all completion fields are stored and the packet becomes a completion when it was not one; an out-of-range byte count, tag or lower address throws |
| PcieTlp.Tlp.SetBcm | pcie/sim/dlsc_pcie_tlp.cpp:203-205 | set_bcm changes only the BCM flag |
| PcieTlp.Tlp.SetByteCount | pcie/sim/dlsc_pcie_tlp.cpp:207-213 | a byte count of 1 .. 4096 is stored; any other throws and changes nothing |
| PcieTlp.Tlp.SetLowerAddr | pcie/sim/dlsc_pcie_tlp.cpp:215-221 | a 7-bit lower address is stored; a wider one throws and changes nothing |
| PcieTlp.Tlp.SetCompletionTag | pcie/sim/dlsc_pcie_tlp.cpp:223-229 | an 8-bit completion tag is stored; a wider one throws and changes nothing |
| PcieTlp.Tlp.SetByteEnables | pcie/sim/dlsc_pcie_tlp.cpp:231-238 | 4-bit byte enables are stored; a wider one throws and changes nothing |
| PcieTlp.Tlp.SetAddress | pcie/sim/dlsc_pcie_tlp.cpp:240-252 | a dword-aligned address is stored with a 4DW header exactly when an upper bit is set, the data choice kept; an unaligned one throws |
| PcieTlp.Tlp.SetDestination | pcie/sim/dlsc_pcie_tlp.cpp:254-259 | a 16-bit destination id is stored; a wider one throws and changes nothing |
| PcieTlp.Tlp.SetData | pcie/sim/dlsc_pcie_tlp.cpp:261-265 | the payload is stored, the length becomes its word count and the format its with-data variant; an empty or over-long payload throws in set_length |
| PcieTlp.Tlp.Deserialize | pcie/sim/dlsc_pcie_tlp.cpp:268-410 | deserialize leaves the packet and the result the staged decoding defines |
| PcieTlp.Tlp.DecodeFirst | pcie/sim/dlsc_pcie_tlp.cpp:300-309 | the dword 0 stage of deserialize |
| PcieTlp.Tlp.DecodeSecond | pcie/sim/dlsc_pcie_tlp.cpp:316-340 | the dword 1 stage of deserialize |
| PcieTlp.Tlp.DecodeRouting | pcie/sim/dlsc_pcie_tlp.cpp:344-385 | the routing stage of deserialize |
| PcieTlp.Tlp.DecodeIds | pcie/sim/dlsc_pcie_tlp.cpp:362-379 | the id fields of the routing stage |
| PcieTlp.Tlp.DecodeData | pcie/sim/dlsc_pcie_tlp.cpp:389-407 | the payload and digest stage of deserialize |
| PcieTlp.Tlp.Serialize | pcie/sim/dlsc_pcie_tlp.cpp:462-545 | serialize appends the packet's dwords and leaves what was already there |
| PcieTlpLemmas.WriteCarriesPayload | pcie/sim/dlsc_pcie_tlp.h:107-112 | is_write holds exactly for the with-data formats and is_read for the others; the serialized packet carries size() payload dwords after its header exactly when it is a write, and its length field announces size() modulo 1024 |
| PcieTlpLemmas.ValidateAfterDeserialize | pcie/sim/dlsc_pcie_tlp.cpp:412-460 | after deserialize returns, validate fails exactly when the header was short or of a reserved type, or the announced digest dword is missing |
| PcieTlpLemmas.EqualsAfterRoundTrip | pcie/sim/dlsc_pcie_tlp.cpp:627-700 | operator== is reflexive, and a packet deserialized from another's serialization validates and compares equal to it |
| PcieTlpLemmas.PostedAfterSetters | pcie/sim/dlsc_pcie_tlp.h:110 | is_posted agrees with the non_posted flag set_format and set_type derive, in either order: exactly the memory writes are posted |
| PcieTlpLemmas.Extract | pcie/sim/dlsc_pcie_tlp.cpp:300-305 | a value placed in a bit field is read back from it |
| PcieTlpLemmas.FlagBit | pcie/sim/dlsc_pcie_tlp.cpp:301-304 | a flag placed in a bit is read back from it |
| PcieTlpLemmas.Dword0Codes | pcie/sim/dlsc_pcie_tlp.cpp:469-471 | format, type and traffic class are read back from dword 0 |
| PcieTlpLemmas.Dword0Flags | pcie/sim/dlsc_pcie_tlp.cpp:472-476 | the four flag bits and the length (1024 as 0) are read back from dword 0 |
| PcieTlpLemmas.Dword1Request | pcie/sim/dlsc_pcie_tlp.cpp:483-498 | a request's requester id, tag and byte enables are read back from dword 1 |
| PcieTlpLemmas.Dword1Message | pcie/sim/dlsc_pcie_tlp.cpp:483-502 | a message's requester id, tag and message code are read back from dword 1 |
| PcieTlpLemmas.Dword1Completion | pcie/sim/dlsc_pcie_tlp.cpp:483-493 | a completion's completer id, status, BCM and byte count are read back from dword 1 |
| PcieTlpLemmas.IdDwordConfig | pcie/sim/dlsc_pcie_tlp.cpp:514-527 | a configuration request's destination id and register are read back from dword 2 |
| PcieTlpLemmas.IdDwordCompletion | pcie/sim/dlsc_pcie_tlp.cpp:514-523 | a completion's requester id, tag and lower address are read back from dword 2 |
| PcieTlpLemmas.AddressSplit | pcie/sim/dlsc_pcie_tlp.cpp:346-355 | a dword-aligned 64-bit address survives being split into an upper and a lower dword |
| PcieTlpLemmas.AddressLow | pcie/sim/dlsc_pcie_tlp.cpp:508-512 | a dword-aligned address below 2^32 survives a 3DW header |
| PcieTlpLemmas.HeaderRoundTrip | pcie/sim/dlsc_pcie_tlp.cpp:278-309 | decoding dword 0 of a serialized packet gives back format, type and the header fields, and is not malformed |
| PcieTlpLemmas.DecodeSerialized | pcie/sim/dlsc_pcie_tlp.cpp:268-410 | deserialize accepts every serialized packet and runs through all of its stages |
| PcieTlpLemmas.Dword1RoundTripRequest | pcie/sim/dlsc_pcie_tlp.cpp:316-336 | dword 1 of a serialized request decodes to its requester id, tag and byte enables |
| PcieTlpLemmas.Dword1RoundTripMessage | pcie/sim/dlsc_pcie_tlp.cpp:316-340 | dword 1 of a serialized message decodes to its requester id, tag and message code |
| PcieTlpLemmas.Dword1RoundTripCompletion | pcie/sim/dlsc_pcie_tlp.cpp:316-331 | dword 1 of a serialized completion decodes to its completer id, status, BCM and byte count |
| PcieTlpLemmas.RoutingRoundTripAddress | pcie/sim/dlsc_pcie_tlp.cpp:346-360 | the routing dwords of a serialized memory or I/O request decode to its address |
| PcieTlpLemmas.RoutingRoundTripConfig | pcie/sim/dlsc_pcie_tlp.cpp:362-379 | the routing dword of a serialized configuration request decodes to its destination id and register |
| PcieTlpLemmas.RoutingRoundTripCompletion | pcie/sim/dlsc_pcie_tlp.cpp:362-372 | the routing dword of a serialized completion decodes to its requester id, tag and lower address |
| PcieTlpLemmas.RoutingMessage | pcie/sim/dlsc_pcie_tlp.cpp:346-385 | decoding a message's routing dwords touches only the address and destination id |
| PcieTlpLemmas.AddressOnly | pcie/sim/dlsc_pcie_tlp.cpp:346-360 | decoding the address dwords touches only the address |
| PcieTlpLemmas.MessageIds | pcie/sim/dlsc_pcie_tlp.cpp:362-364 | decoding a message's id dword touches only the destination id |
| PcieTlpLemmas.PayloadRoundTrip | pcie/sim/dlsc_pcie_tlp.cpp:389-407 | decoding the rest of a serialized packet gives back the payload and the digest |
| PcieTlpLemmas.SerializedLaidOut | pcie/sim/dlsc_pcie_tlp.cpp:462-545 | serialize lays a packet out as header, routing dwords, payload and digest |
| PcieTlpLemmas.EqualAddressed | pcie/sim/dlsc_pcie_tlp.cpp:627-700 | what the decoding stages leave of a memory or I/O request compares equal to the packet |
| PcieTlpLemmas.EqualConfig | pcie/sim/dlsc_pcie_tlp.cpp:627-700 | what the decoding stages leave of a configuration request compares equal to the packet |
| PcieTlpLemmas.EqualMessage | pcie/sim/dlsc_pcie_tlp.cpp:627-700 | what the decoding stages leave of a message compares equal to the packet |
| PcieTlpLemmas.EqualCompletion | pcie/sim/dlsc_pcie_tlp.cpp:627-700 | what the decoding stages leave of a completion compares equal to the packet |
| PcieTlpLemmas.RoundTripAddressed | pcie/sim/dlsc_pcie_tlp.cpp:316-407 | the stages after dword 0 give back a memory or I/O request |
| PcieTlpLemmas.RoundTripConfig | pcie/sim/dlsc_pcie_tlp.cpp:316-407 | the stages after dword 0 give back a configuration request |
| PcieTlpLemmas.RoundTripMessage | pcie/sim/dlsc_pcie_tlp.cpp:316-407 | the stages after dword 0 give back a message |
| PcieTlpLemmas.RoundTripCompletion | pcie/sim/dlsc_pcie_tlp.cpp:316-407 | the stages after dword 0 give back a completion |
| PcieTlpLemmas.RoundTrip | pcie/sim/dlsc_pcie_tlp.cpp:268-545 | deserialize of serialize returns true, leaves the packet well formed, and the result compares equal to the original, for every packet whose fields fit their wire widths |
| PcieTlpLemmas.DecodeRejects | pcie/sim/dlsc_pcie_tlp.cpp:268-298 | deserialize throws exactly on empty input, and returns false exactly when the input is shorter than its header or the type is reserved, always leaving the packet malformed |
| PcieTlpLemmas.DecodeAccepted | pcie/sim/dlsc_pcie_tlp.cpp:268-410 | an accepted input runs through every stage of deserialize |
| PcieTlpLemmas.AddressFrame | pcie/sim/dlsc_pcie_tlp.cpp:344-385 | decoding the routing dwords touches only the address and id fields |
| PcieTlpLemmas.PayloadFrame | pcie/sim/dlsc_pcie_tlp.cpp:389-407 | decoding the payload keeps the header and marks the packet malformed only for a missing digest |
| PcieTlpLemmas.DecodeCounts | pcie/sim/dlsc_pcie_tlp.cpp:305-330 | an accepted packet's length is 1 .. 1024 with 0 read as 1024, and a completion's byte count 1 .. 4096 with 0 read as 4096 |
| PcieTlpLemmas.DecodeMissingDigest | pcie/sim/dlsc_pcie_tlp.cpp:400-407 | an accepted packet is malformed exactly when it announces a digest and nothing follows the header; it still returns true |
| PcieTlpLemmas.SerializedCounts | pcie/sim/dlsc_pcie_tlp.cpp:476-492 | serialize writes a length of 1024 and a byte count of 4096 as 0 |
| PcieTlpLemmas.WireLengthMod | pcie/sim/dlsc_pcie_tlp.cpp:476 | a length of 1 .. 1024 is written as the length modulo 1024 |
| PcieTlpLemmas.WireByteCountMod | pcie/sim/dlsc_pcie_tlp.cpp:492 | a byte count of 1 .. 4096 is written as the count modulo 4096 |
| StereoCost.Flat | stereo/tb/dlsc_stereobm_models.cpp:159 | the constant data_max/2 image the texture pass compares against holds that value everywhere |
| StereoCost.SumFront | stereo/tb/dlsc_stereobm_models.cpp:144 | the oldest column sum leaves the window total from the front of the delay line |
| StereoCost.ColumnsTail | stereo/tb/dlsc_stereobm_models.cpp:144 | dropping the oldest column sum leaves the sums of the columns after it |
| StereoSelect.ScanSnoc | stereo/tb/dlsc_stereobm_models.cpp:93-147 | visiting one more disparity is one more step of the per-column fold |
| StereoSelect.ScanBest | stereo/tb/dlsc_stereobm_models.cpp:113-127 | the fold keeps the smallest cost seen, ties going to the higher disparity |
| StereoSelect.ScanNeighbours | stereo/tb/dlsc_stereobm_models.cpp:132-141 | the fold keeps the last cost visited and the costs just below and just above the best disparity |
| StereoSelect.StepNeighbours | stereo/tb/dlsc_stereobm_models.cpp:113-141 | one step either keeps the best disparity or moves it to d, and tracks the costs around it |
| StereoSelect.ScanThresh | stereo/tb/dlsc_stereobm_models.cpp:114-130 | the fold keeps the smallest cost outside the best disparity's exclusion window |
| StereoXSobel.Byte | stereo/tb/dlsc_stereobm_models.cpp:23-37 | the uint8_t conversion gives a byte and changes no byte |
| StereoXSobel.Half | stereo/tb/dlsc_stereobm_models.cpp:23 | C's halving agrees with floor division on values that are not negative |
| StereoXSobel.SobelImage | stereo/tb/dlsc_stereobm_models.cpp:9-43 | the filtered image has the input's size and every pixel is the filter's value there |
| StereoXSobel.XSobel | stereo/tb/dlsc_stereobm_models.cpp:9-43 | dlsc_xsobel computes, row by row, the filtered image |
| StereoXSobel.SobelRow | stereo/tb/dlsc_stereobm_models.cpp:15-39 | each output row has its border pixels at data_max/2 and every interior pixel at its clamped gradient |
| StereoXSobel.SobelBorders | stereo/tb/dlsc_stereobm_models.cpp:23-24 | the first and last columns read data_max/2 |
| StereoXSobel.SobelClamped | stereo/tb/dlsc_stereobm_models.cpp:32-37 | with an 8-bit data_max every interior pixel is the gradient clamped to 0 .. data_max |
| StereoXSobel.Flip | stereo/tb/dlsc_stereobm_models.cpp:17-19 | the upside-down image has the rows in reverse order |
| StereoXSobel.SobelFlip | stereo/tb/dlsc_stereobm_models.cpp:17-19 | the mirroring at the top and bottom edges is symmetric: filtering the upside-down image gives the upside-down result |
| StereoPost.ToShort | stereo/tb/dlsc_stereobm_models.cpp:185 | the conversion to short lands in -32768 .. 32767 and agrees with the value modulo 2^16 |
| StereoPost.ToShortInRange | stereo/tb/dlsc_stereobm_models.cpp:185 | the conversion to short changes no value that fits |
| StereoPost.CDiv | stereo/tb/dlsc_stereobm_models.cpp:207 | C's division truncates toward zero: the quotient's magnitude is the floor of the magnitudes' quotient |
| StereoPost.SubPixelBounds | stereo/tb/dlsc_stereobm_models.cpp:190-200 | the sub-pixel correction is at most half a pixel, toward the neighbour with the lower cost |
| StereoPost.AmbiguousMeaning | stereo/tb/dlsc_stereobm_models.cpp:205-210 | the uniqueness test fails exactly when INIT or some cost outside the chosen disparity's exclusion window is within sads*(unique_mul+unique_div)/unique_div |
| StereoPost.ScanBracketed | stereo/tb/dlsc_stereobm_models.cpp:190-195 | a scanned column's neighbouring costs are no smaller than its best, so the sub-pixel division is well defined |
| StereoPost.DispOutNear | stereo/tb/dlsc_stereobm_models.cpp:185-203 | the output disparity is disp << sub_bits, moved by at most half a pixel toward the cheaper neighbour when refined |
| StereoPost.DispOutRefined | stereo/tb/dlsc_stereobm_models.cpp:185-200 | in the refined case the correction is added without wrapping |
| StereoPost.ShortNear | stereo/tb/dlsc_stereobm_models.cpp:197-199 | adding a small correction to a short that leaves room for it needs no wrapping |
| StereoInvoker.Crop | stereo/tb/dlsc_stereobm_models.cpp:273-274 | the crop has the requested size and each pixel is the source pixel at the offset |
| StereoInvoker.CentralCrop | stereo/tb/dlsc_stereobm_models.cpp:269-272 | the central crop lies inside the image and its margins differ by at most one pixel |
| StereoInvoker.CropWhole | stereo/tb/dlsc_stereobm_models.cpp:267-275 | cropping an image to its own size changes nothing |
| StereoInvoker.UnscaledFits | stereo/tb/dlsc_stereobm_models.cpp:246 | without a resize the input is at least the output size, so the crop fits |
| StereoInvoker.AndImage | stereo/tb/dlsc_stereobm_models.cpp:289 | filtered &= valid keeps the filtered flag where valid is set and clears it where valid is clear |
| StereoInvoker.ByteMask | stereo/tb/dlsc_stereobm_models.cpp:289 | AND with 255 keeps an 8-bit value |
| StereoInvoker.FlagsAreBytes | stereo/tb/dlsc_stereobm_models.cpp:171-209 | the valid and filtered flags the matcher writes are 0 or 255 |
| StereoInvoker.Prepared | stereo/tb/dlsc_stereobm_models.cpp:267-285 | the cropped and prefiltered image has the output size |
| StereoInvoker.PrepareInputs | stereo/tb/dlsc_stereobm_models.cpp:240-285 | the invoker's inputs are the central crop of the resized or original pair, prefiltered when asked; none exactly when the crop does not fit |
| StereoInvoker.Invoker | stereo/tb/dlsc_stereobm_models.cpp:229-290 | the invoker's outputs are the prepared pair and the matcher's images on it, with the filtered flag cleared wherever valid is |
| StereoBm.Reach | stereo/tb/dlsc_stereobm_models.cpp:98-111 | column xd is evaluated exactly at the disparities below a bound |
| StereoBm.ValidReachesAll | stereo/tb/dlsc_stereobm_models.cpp:181 | every disparity is evaluated in the post-processed columns |
| StereoBm.ValidColumnBest | stereo/tb/dlsc_stereobm_models.cpp:93-147 | in a post-processed column the chosen disparity is the highest one of smallest window cost, or 0 with cost INIT when every cost exceeds INIT |
| StereoBm.ValidColumnFiltered | stereo/tb/dlsc_stereobm_models.cpp:149-211 | a post-processed column is filtered exactly when its window is too flat or the uniqueness test fails |
| StereoBm.Win | stereo/tb/dlsc_stereobm_models.cpp:73-74 | the window of an output row holds sad_window input rows |
| StereoBm.ExpectedImages | stereo/tb/dlsc_stereobm_models.cpp:45-227 | the expected output images, pixel by pixel |
| StereoBm.DispImage | stereo/tb/dlsc_stereobm_models.cpp:66 | the expected disparity image has the input's size and expected pixels |
| StereoBm.ValidImage | stereo/tb/dlsc_stereobm_models.cpp:67 | the expected valid image has the input's size and expected pixels |
| StereoBm.FilteredImage | stereo/tb/dlsc_stereobm_models.cpp:68 | the expected filtered image has the input's size and expected pixels |
| StereoBm.ResultImages | stereo/tb/dlsc_stereobm_models.cpp:66-68 | images that agree with the expected pixels everywhere are the expected images |
| StereoBm.FilledNext | stereo/tb/dlsc_stereobm_models.cpp:77-80 | output row y - S/2 takes its expected value once input row y is read |
| StereoBm.FilledSkip | stereo/tb/dlsc_stereobm_models.cpp:77 | reading an input row changes nothing while the window is not yet full |
| StereoBm.DequeNext | stereo/tb/dlsc_stereobm_models.cpp:73-74 | the row deques hold the window of output row y - S/2 once they hold S rows |
| StereoBm.RowsMatch | stereo/tb/dlsc_stereobm_models.cpp:77-217 | the rows computed for a window are the expected output rows |
| StereoBm.ZeroRows | stereo/tb/dlsc_stereobm_models.cpp:66-68 | an output row that receives no results is zero in the expected images |
| StereoBm.Stereobm | stereo/tb/dlsc_stereobm_models.cpp:45-227 | dlsc_stereobm produces exactly the expected disparity, valid and filtered images |
| StereoBm.NextRow | stereo/tb/dlsc_stereobm_models.cpp:71-217 | one iteration of the row loop fills the next output row with its expected values and keeps the deques as the window |
| StereoBm.MatchRow | stereo/tb/dlsc_stereobm_models.cpp:77-217 | one matched row holds, for every column, the expected disparity, valid flag and filtered flag |
| StereoBm.FinalBracketed | stereo/tb/dlsc_stereobm_models.cpp:189-195 | the state of a post-processed column meets what the sub-pixel division needs |
| StereoBm.RowResults | stereo/tb/dlsc_stereobm_models.cpp:181-211 | a column's disparity and filtered flag follow from its final state |
| StereoBm.VisitedNext | stereo/tb/dlsc_stereobm_models.cpp:93-147 | the scan of disparity d extends every evaluated column's fold by one step |
| StereoBm.VisitedStart | stereo/tb/dlsc_stereobm_models.cpp:83-90 | reset columns have visited no disparity |
| StereoBm.VisitedAll | stereo/tb/dlsc_stereobm_models.cpp:93-147 | once every disparity is visited each column holds its final state |
| StereoBm.ScanRow | stereo/tb/dlsc_stereobm_models.cpp:83-147 | the reset and the loop over disparities leave every column in its final state |
| StereoBm.ScanCostStep | stereo/tb/dlsc_stereobm_models.cpp:93-147 | one more disparity extends a column's fold by one step |
| StereoBm.ResetColumns | stereo/tb/dlsc_stereobm_models.cpp:83-90 | the reset sets every column state to disparity 0 and INT_MAX/256 costs |
| StereoBm.ColumnSad | stereo/tb/dlsc_stereobm_models.cpp:101-103 | the column sum is the sum of absolute differences over the window rows |
| StereoBm.FillNext | stereo/tb/dlsc_stereobm_models.cpp:107-110 | the delay line becomes full exactly when the window ending at x lies right of d |
| StereoBm.ProducedNext | stereo/tb/dlsc_stereobm_models.cpp:110-111 | feeding column x completes the cost of column x - S/2 exactly when the delay line then holds S sums |
| StereoBm.ProducedAll | stereo/tb/dlsc_stereobm_models.cpp:98-146 | once the scan has passed every column exactly the evaluated columns are complete |
| StereoBm.PushHolds | stereo/tb/dlsc_stereobm_models.cpp:106-107 | the push adds the next column sum to the delay line and the total |
| StereoBm.PopHolds | stereo/tb/dlsc_stereobm_models.cpp:144 | the pop removes the oldest column sum from the delay line and the total |
| StereoBm.LineNext | stereo/tb/dlsc_stereobm_models.cpp:101-145 | a full delay line's total is the window cost of column x - S/2 |
| StereoBm.LineIdle | stereo/tb/dlsc_stereobm_models.cpp:99 | before column d the delay line stays empty |
| StereoBm.CostRow | stereo/tb/dlsc_stereobm_models.cpp:98-146 | the costs of a row at one disparity, 0 where a column is not evaluated |
| StereoBm.ScannedNext | stereo/tb/dlsc_stereobm_models.cpp:110-145 | feeding column x steps column x - S/2 when its cost completes, and no other |
| StereoBm.Record | stereo/tb/dlsc_stereobm_models.cpp:111-141 | the update of column x - S/2 applies one step of the fold to it |
| StereoBm.Feed | stereo/tb/dlsc_stereobm_models.cpp:99-145 | one column of the scan keeps the delay line's invariant and steps the completed column |
| StereoBm.ScanDisparity | stereo/tb/dlsc_stereobm_models.cpp:93-146 | one disparity across the row steps every evaluated column's state once and leaves the others |
| StereoBm.TextureColumn | stereo/tb/dlsc_stereobm_models.cpp:157-159 | the texture column sum is the deviation of the window rows from data_max/2 |
| StereoBm.FlaggedNext | stereo/tb/dlsc_stereobm_models.cpp:166-176 | feeding column x settles the flag of column x - S/2 once its total completes |
| StereoBm.Mark | stereo/tb/dlsc_stereobm_models.cpp:167-172 | the texture test marks column x - S/2 filtered when its total is below the threshold |
| StereoBm.FeedTexture | stereo/tb/dlsc_stereobm_models.cpp:155-177 | one column of the texture pass keeps the delay line's invariant and settles the completed column |
| StereoBm.TexturePass | stereo/tb/dlsc_stereobm_models.cpp:149-178 | the texture pass marks exactly the columns whose window is too flat and leaves the other flags |
| StereoBm.PostProcess | stereo/tb/dlsc_stereobm_models.cpp:181-212 | in the post-processed columns the valid flag is set, the disparity is written with its correction, and the uniqueness failures are marked; other columns are left |
| StereoCost.Columns | stereo/tb/dlsc_stereobm_models.cpp:101-107 | the column sums of a run of columns at one disparity, each the sum of absolute differences over the window rows |
| StereoCost.CostList | stereo/tb/dlsc_stereobm_models.cpp:93-111 | the window costs of one column at every disparity visited so far |
| StereoTb.TextureOffAgrees | stereo/tb/dlsc_stereobm_tb_models.cpp:115-135 | compiling the texture pass out for TEXTURE <= 0 agrees with running it: such a threshold filters nothing |
| StereoTb.SumColumnsNonNegative | stereo/tb/dlsc_stereobm_tb_models.cpp:115-135 | window sums of absolute differences are never negative |
| StereoTb.ColSadNonNegative | stereo/tb/dlsc_stereobm_models.cpp:101-103 | column sums of absolute differences are never negative |
| StereoTb.TbStereobm | stereo/tb/dlsc_stereobm_tb_models.cpp:15-193 | the testbench's matcher, with its compile-time parameters, produces exactly the expected images; its progress indicator needs no rows or at least ten |
| StereoTb.TbXSobel | stereo/tb/dlsc_stereobm_tb_models.cpp:195-225 | the testbench's prefilter with DATA_MAX is the x-Sobel filter |
| StereoTb.TopLeft | stereo/tb/dlsc_stereobm_tb_models.cpp:237-240 | the crop is the top-left IMG_HEIGHT x IMG_WIDTH part of the image |
| StereoTb.Prefiltered | stereo/tb/dlsc_stereobm_tb_models.cpp:246-252 | the image the matcher sees keeps the crop's size |
| StereoTb.LanesAt | stereo/tb/dlsc_stereobm_tb_models.cpp:262-284 | the inner loop reads MULT_R rows at one column |
| StereoTb.ExpectedFrames | stereo/tb/dlsc_stereobm_tb_models.cpp:244-254 | the images the testbench expects are the prefiltered pair and the matcher's results on it |
| StereoTb.Pack | stereo/tb/dlsc_stereobm_tb_models.cpp:261-287 | one column of one group of rows gives the input record of its pixels and the output record of its results |
| StereoTb.RunTestCv | stereo/tb/dlsc_stereobm_tb_models.cpp:227-300 | run_test_cv appends one input and one output record per column of every group of MULT_R rows, in raster order, after what the streams held |
| StereoTb.EmitRecords | stereo/tb/dlsc_stereobm_tb_models.cpp:259-299 | the loops append the records of every group of rows in order |
| StereoTb.RecordRows | stereo/tb/dlsc_stereobm_tb_models.cpp:259 | every record's group of rows ends by IMG_HEIGHT |
| StereoTb.Prepare | stereo/tb/dlsc_stereobm_tb_models.cpp:234-254 | the crop, the prefilter and the matcher give the expected frames |
| StereoTb.RecOfRow | stereo/tb/dlsc_stereobm_tb_models.cpp:259-260 | column x of group j of rows is record j * IMG_WIDTH + x |
| StereoTb.RowRecs | stereo/tb/dlsc_stereobm_tb_models.cpp:260-298 | a group of rows gives one record per column |
| StereoTb.EmitStep | stereo/tb/dlsc_stereobm_tb_models.cpp:259-299 | streams holding the records of j groups, extended by group j, hold those of j + 1 |
| StereoTb.RunRecsStep | stereo/tb/dlsc_stereobm_tb_models.cpp:259-299 | one more group of rows appends its row of records to both streams |
| StereoTb.RunRecsAt | stereo/tb/dlsc_stereobm_tb_models.cpp:259-299 | the first j groups of rows give j * IMG_WIDTH records, each the record of its place |
| StereoTb.TopLeftReady | stereo/tb/dlsc_stereobm_tb_models.cpp:234-242 | the crop of images that pass the entry check has the frame's size |
| StereoTb.GroupFits | stereo/tb/dlsc_stereobm_tb_models.cpp:259 | a group of MULT_R rows that starts above IMG_HEIGHT ends by it |
| StereoTb.TopLeftWhole | stereo/tb/dlsc_stereobm_tb_models.cpp:237 | cropping an image of the frame's size changes nothing |
| StereoTb.PackRow | stereo/tb/dlsc_stereobm_tb_models.cpp:260-298 | the column loop appends one record per column after what the streams held |
| StereoTb.RecordPlace | stereo/tb/dlsc_stereobm_tb_models.cpp:289-294 | record k sits at column k % IMG_WIDTH of the rows from (k / IMG_WIDTH) * MULT_R, its row and frame flags set exactly at the edges |
| StereoTb.OutOfPlace | stereo/tb/dlsc_stereobm_tb_models.cpp:289-294 | an output record carries its column, first row and the four edge flags |
| StereoTb.RecordIndex | stereo/tb/dlsc_stereobm_tb_models.cpp:289-294 | the first record is the only one at the frame's start and the last the only one at its end |
| StereoTb.RasterOrder | stereo/tb/dlsc_stereobm_tb_models.cpp:259-299 | a later record lies in a later group of rows, or further right in the same one |
| StereoTb.RasterIndex | stereo/tb/dlsc_stereobm_tb_models.cpp:259-260 | the raster order of the record indices |
| StereoTb.ValidAnyLanes | stereo/tb/dlsc_stereobm_tb_models.cpp:261-286 | disp_valid_any is set exactly when one of the record's rows is valid |
| StereoTb.ValidAnyMeaning | stereo/tb/dlsc_stereobm_tb_models.cpp:261-286 | disp_valid_any is set exactly when the column is post-processed and one of its rows is complete |
| StereoTb.PackUnpack | stereo/tb/dlsc_stereobm_models_sc.h:50-68 | packing rows into records and reading row i back gives row i |
| StereoTb.RecordLane | stereo/tb/dlsc_stereobm_tb_models.cpp:262-283 | row i of record k is what the inner loop reads at its row and column |
| StereoTb.ExpectedLane | stereo/tb/dlsc_stereobm_tb_models.cpp:265-283 | the inner loop reads the matcher's results (the disparity as unsigned, the flags as booleans), the prefiltered pixels and the original pixels |

## Left out

- The SystemC kernel is replaced by explicit step methods and a `now` field. This covers `sc_event`, `peq_with_get`, `wait`, socket binding and process registration.
- `dlsc_tlm_quantum_wait` depends on the kernel's global quantum, so only the fact that it keeps now+delay unchanged is modelled.
- Every `rand()` draw is a parameter of the operation that uses it, and `dlsc_random` is not part of this model. These draws include:
  - error injection in the memory;
  - the memory tester's region, length and data draws;
  - the adapters' random stalls.
- Floating-point work is not part of this model:
  - `dlsc_tlm_channel`;
  - the quadrature encoder model;
  - `set_error_rate`;
  - the memory tester's throughput report;
  - the invoker's `cv::resize`. The resized images are parameters, used exactly when the invoker resizes.
- I/O is not modelled: `sc_main` argument parsing, tracing, logging and assertion macros, the DPI bridge, the stereo model program, the PCIe `operator<<` printers and OpenCV image files.
- The adapters' clock-by-clock port driving and idle-pin warnings are not modelled. Each adapter's `Clock` step takes the sampled input pins as parameters.
- The memory tester's `test_thread` driver loop and its final `clear()` deallocation are not modelled. Its steps (`init`, `launch`, `complete`, `find_region`) are.
- The target's `ready_method` delivery through the payload event queue is not modelled. The owner's action during its callback is a parameter.
- Payload identity is a natural-number id. The pool's descriptor reference counting and release are not modelled; `dlsc_tlm_mm` frees a descriptor explicitly.
- The RVH source and sink (threads over `sc_fifo` with SCV randomisation) are not part of this model.
- The blocking initiator, the SCV enum registration and the declaration-only headers are not part of this model.
- The single-beat APB, CSR and Wishbone slave pin forwarders are not part of this model.
- The stereo SystemC glue (`dlsc_stereobm_models_sc`) is not part of this model. Only its record structures are used.
- TlmInitiatorNb.Initiator.LaunchHead: handles the target's reply with the corrected step `LaunchStepFor` of the second finding below. As written, a TLM_UPDATED/BEGIN_RESP reply gets END_RESP but the transaction is never completed locally, so the completion clause does not hold of the source for that reply.
- TlmInitiatorNb.Initiator.LaunchUpdate: completes TLM_UPDATED/BEGIN_RESP replies through `LaunchHead`, that is with the corrected step; the source leaves such a transaction outstanding and never done.
- TlmInitiatorNb.Initiator.LaunchMethod: inherits the corrected reply handling of `LaunchUpdate`.
- TlmInitiatorNb.Initiator.Launch: inherits the corrected reply handling of `LaunchUpdate`; for a TLM_UPDATED/BEGIN_RESP reply the source's handle stays outstanding and is never done.
- TlmInitiatorNb.Initiator.NbRead: inherits the corrected reply handling of `Launch`.
- TlmInitiatorNb.Initiator.NbWrite: inherits the corrected reply handling of `Launch`.
- TlmInitiatorNb.Initiator.NbWriteStrobed: inherits the corrected reply handling of `Launch`.
- TlmMemtest.MemTest.FindRegion: draws the burst bound with the corrected `MaxLength` of the first finding below, uniform over [min, max_length]. As written, the bound never reaches max_length, and the draw divides by zero when min equals max_length; neither is captured by this member.
- TlmMemtest.MemTest.Launch: inherits the corrected bound of `FindRegion`, so the source's division by zero for max_length = 2 is not captured here.
- TlmMemory.Memory.GetBlock: fills a new block with the corrected `InitBlock` of the third finding below. As written, the top block below 2^64 keeps the raw contents of `new uint8_t[]`; that block's raw bytes are not modelled by the memory.
- TlmMemory.Memory.CellIn: gives a location of a block not yet created its corrected address pattern, including in the top block below 2^64, where the source holds raw bytes.
- StereoPost.Supported: the stereo models require `sad_window` >= 1 and `disparities` >= 1, which the source does not check. With no window every SAD is an empty sum, and with no disparity no candidate is scored. These degenerate configurations are not modelled.
- DlscBv.Bv.constructor: requires BITS <= 63 for a signed element type (the class predicate `Valid` says the same), so a signed 64-bit field is not modelled. The source's SignExtend shifts `1ll << BITS`, which is undefined for BITS = 64 (common/sim/dlsc_bv.h:104-109).
- StereoBm.Stereobm: the sum-of-absolute-differences costs are unbounded integers. An `int` overflow in the source for very large images is not modelled.
- StereoTb.TbStereobm: requires an image of 0 or at least 10 rows, because the source's progress report takes the row index modulo rows/10, which divides by zero for 1 to 9 rows.
- StereoTb.RunTestCv: requires IMG_HEIGHT to be a multiple of MULT_R. Otherwise the source's last row group reads past the cropped image.

## Findings

Each row has a member that models the code as written and a corrected one. The rest of the model uses the corrected one. The "Left out" lines for `LaunchHead`, `FindRegion`, `GetBlock` and the members that call them say what that leaves uncaptured.

| source | as written | input that shows it | evidently intended | confidence | as-written member | corrected member |
|---|---|---|---|---|---|---|
| tlm/sim/dlsc_tlm_memtest.h:401 | the burst bound is `rand() % (max_length-min) + min`. It lies in [min, max_length-1], and it divides by zero when min equals max_length | max_length = 2 with the "not-small" choice min = max_length/2+1 = 2 divides by zero. Also, no draw ever gives max_length | a bound drawn uniformly from [min, max_length], as the comment beside it says | not executed | TlmMemtest.AsWrittenNeverReachesMax, TlmMemtest.AsWrittenDividesByZero | TlmMemtest.MaxLengthCovers |
| tlm/sim/dlsc_tlm_initiator_nb.h:352-361 | `launch_update` answers a TLM_UPDATED/BEGIN_RESP reply by overwriting the phase with END_RESP before testing for BEGIN_RESP. So the transaction is never completed locally | a target that answers BEGIN_REQ with TLM_UPDATED and BEGIN_RESP | send END_RESP and complete the transaction, because the reply carries the response (clause 15.2 of IEEE 1666-2011) | not executed | TlmInitiatorNb.AsWrittenDropsUpdatedResponse | TlmInitiatorNb.LaunchStepSound |
| tlm/sim/dlsc_tlm_memory.h:377 | the pattern-fill loop bound `(addr & blocks_mask) + base_addr + block_size` is a 64-bit sum. For the last block below 2^64 it wraps to 0, so that block keeps the raw contents of `new uint8_t[]` | a 2^31-byte memory at base 2^64-2^31 with 4-byte words: its top block starts at 2^64-2^21 | every word of a new block holds its own address | not executed | TlmMemory.InitBlockAsWritten, TlmMemory.TopBlockStart | TlmMemory.InitBlock |
