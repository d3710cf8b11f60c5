/**
 * dlsc_tlm_target_nb: the non-blocking TLM target. Every BEGIN_REQ is
 * checked by an ordered validator; a request that passes goes to the owning
 * module, which completes it later with complete, complete_delay or
 * complete_delta. Completed requests wait in a FIFO and are answered with
 * BEGIN_RESP one at a time: while an answer awaits END_RESP no other is
 * issued.
 *
 * Simulation time is a tick count passed as `now`. The owner's callback is
 * represented by what it does to the request during the call; the
 * initiator's answers to BEGIN_RESP are a parameter.
 */
module TlmTargetNb {
  import opened Bits
  import opened Tlm
  import TlmInitiatorNb

  // ---------------------------------------------------------------------------
  // Validation.

  /** The address rules: bus-aligned address and length, no 4 KiB crossing. */
  predicate AddressRules(p: Payload, w: nat)
    requires w >= 1
  {
    p.address % w == 0 && p.dataLength % w == 0 && p.address % 4096 + p.dataLength <= 4096
  }

  /** The burst rules: 1 to maxLength beats, no streaming. */
  predicate BurstRules(p: Payload, w: nat, maxLength: nat)
    requires w >= 1
  {
    p.dataLength != 0 && p.dataLength / w <= maxLength && p.streamingWidth >= p.dataLength
  }

  /** The strobe rules: byte enables only on writes, one per data byte. */
  predicate StrobeRules(p: Payload)
  {
    p.beLength != 0 ==> p.IsWrite() && p.beLength == p.dataLength
  }

  datatype Validation = Validation(accepted: bool, status: ResponseStatus)

  /**
   * validate_payload (the internal fallback): the checks in source order;
   * the first that fails decides the status, and an accepted payload keeps
   * INCOMPLETE.
   */
  function ValidatePayload(p: Payload, w: nat, maxLength: nat): (v: Validation)
    requires w >= 1
    ensures v.accepted <==> (p.IsRead() || p.IsWrite()) && AddressRules(p, w) && BurstRules(p, w, maxLength) && StrobeRules(p)
    ensures v.accepted <==> v.status == Incomplete
    ensures !p.IsRead() && !p.IsWrite() ==> v.status == Ok
    ensures (p.IsRead() || p.IsWrite()) && !AddressRules(p, w) ==> v.status == AddressError
    ensures (p.IsRead() || p.IsWrite()) && AddressRules(p, w) && !BurstRules(p, w, maxLength) ==> v.status == BurstError
    ensures (p.IsRead() || p.IsWrite()) && AddressRules(p, w) && BurstRules(p, w, maxLength) && !StrobeRules(p) ==>
      v.status == ByteEnableError
  {
    if !p.IsRead() && !p.IsWrite() then Validation(false, Ok)
    else if p.address % w != 0 || p.dataLength % w != 0 || p.address % 4096 + p.dataLength > 4096 then
      Validation(false, AddressError)
    else if p.dataLength == 0 || p.dataLength / w > maxLength || p.streamingWidth < p.dataLength then
      Validation(false, BurstError)
    else if p.beLength != 0 && (p.IsRead() || p.beLength != p.dataLength) then
      Validation(false, ByteEnableError)
    else Validation(true, Incomplete)
  }

  lemma WordLength(n: nat, w: nat)
    requires w >= 1
    ensures (n * w) % w == 0 && (n * w) / w == n
  {
    DivModUnique(n * w, w, n, 0);
  }

  /**
   * A read built by the initiator passes this target's validation exactly
   * when its address is bus-aligned, it stays within a 4 KiB page and it
   * has 1 to maxLength words.
   */
  lemma InitiatorReadAccepted(p: Payload, addr: nat, length: nat, w: nat, maxLength: nat)
    requires w >= 1
    ensures ValidatePayload(TlmInitiatorNb.ReadRequest(p, addr, length, w), w, maxLength).accepted <==>
      addr % w == 0 && addr % 4096 + length * w <= 4096 && 1 <= length <= maxLength
  {
    WordLength(length, w);
  }

  /** The same holds for a data-only write of |ws| words. */
  lemma InitiatorWriteAccepted(p: Payload, addr: nat, ws: seq<nat>, w: nat, maxLength: nat)
    requires w >= 1 && |ws| * w <= |p.data|
    ensures ValidatePayload(TlmInitiatorNb.WriteRequest(p, addr, ws, w), w, maxLength).accepted <==>
      addr % w == 0 && addr % 4096 + |ws| * w <= 4096 && 1 <= |ws| <= maxLength
  {
    WordLength(|ws|, w);
  }

  /** And for a strobed write: its byte-enable length is 0 or one per data byte. */
  lemma InitiatorStrobedWriteAccepted(p: Payload, addr: nat, ws: seq<nat>, strb: seq<nat>, w: nat, maxLength: nat)
    requires w >= 1 && |ws| == |strb| && |ws| * w <= |p.data| && |ws| * w <= |p.byteEnable|
    ensures ValidatePayload(TlmInitiatorNb.StrobedWriteRequest(p, addr, ws, strb, w), w, maxLength).accepted <==>
      addr % w == 0 && addr % 4096 + |ws| * w <= 4096 && 1 <= |ws| <= maxLength
  {
    WordLength(|ws|, w);
  }

  // ---------------------------------------------------------------------------
  // Completion times.

  function Max(a: nat, b: nat): nat
  {
    if a >= b then a else b
  }

  /**
   * calc_complete_delay: the annotated delay that makes the caller's local
   * time reach the completion time; it never shrinks.
   */
  function CalcCompleteDelay(completeTime: nat, now: nat, delay: nat): (d: nat)
    ensures d >= delay
    ensures now + d == Max(now + delay, completeTime)
  {
    if completeTime > now + delay then delay + (completeTime - (now + delay)) else delay
  }

  // ---------------------------------------------------------------------------
  // Strobes.

  /** The strobe word of a run of byte enables: bit i is set iff byte i is enabled. */
  function LaneMask(b: seq<byte>): (m: nat)
    ensures m < Pow2(|b|)
    decreases |b|
  {
    if |b| == 0 then 0
    else
      var m := LaneMask(b[..|b| - 1]);
      m + (if b[|b| - 1] == BYTE_ENABLED then Pow2(|b| - 1) else 0)
  }

  /** The n strobe words of a byte-enable buffer, w bytes each. */
  function StrobeWords(be: seq<byte>, n: nat, w: nat): (r: seq<nat>)
    requires n * w <= |be|
    ensures |r| == n
    decreases n
  {
    if n == 0 then []
    else
      assert (n - 1) * w + w == n * w;
      [LaneMask(be[..w])] + StrobeWords(be[w..], n - 1, w)
  }

  /** Every byte is one of the two byte-enable values. */
  predicate EnableBytes(be: seq<byte>)
  {
    forall j :: 0 <= j < |be| ==> be[j] == BYTE_ENABLED || be[j] == BYTE_DISABLED
  }

  /** s mod 2^(w+1) adds bit w of s to s mod 2^w. */
  lemma ModPow2Snoc(s: nat, w: nat)
    ensures s % Pow2(w + 1) == s % Pow2(w) + Bit(s, w) * Pow2(w)
  {
    var p := Pow2(w);
    var q := s / p;
    var r := s % p;
    assert Pow2(w + 1) == 2 * p;
    assert s == q * p + r;
    assert q == 2 * (q / 2) + q % 2;
    assert s == (q / 2) * (2 * p) + ((q % 2) * p + r);
    assert (q % 2) * p + r < 2 * p;
    DivModUnique(s, 2 * p, q / 2, (q % 2) * p + r);
  }

  /** The strobe word of the enables a strobe word s expands to is s, cut to w bits. */
  lemma {:induction false} LaneMaskOfEnables(s: nat, w: nat)
    ensures LaneMask(TlmInitiatorNb.LaneEnables(s, w)) == s % Pow2(w)
  {
    if w > 0 {
      var b := TlmInitiatorNb.LaneEnables(s, w);
      assert b[..w - 1] == TlmInitiatorNb.LaneEnables(s, w - 1);
      LaneMaskOfEnables(s, w - 1);
      ModPow2Snoc(s, w - 1);
    }
  }

  /**
   * get_strobes after the initiator's strobe expansion gives back each
   * strobe word cut to the bus width: the two loops are inverse.
   */
  lemma {:induction false} StrobeRoundTrip(strb: seq<nat>, w: nat)
    ensures StrobeWords(TlmInitiatorNb.Expand(strb, w), |strb|, w) == seq(|strb|, k requires 0 <= k < |strb| => strb[k] % Pow2(w))
  {
    if |strb| > 0 {
      var be := TlmInitiatorNb.Expand(strb, w);
      assert be[..w] == TlmInitiatorNb.LaneEnables(strb[0], w);
      assert be[w..] == TlmInitiatorNb.Expand(strb[1..], w);
      LaneMaskOfEnables(strb[0], w);
      StrobeRoundTrip(strb[1..], w);
    }
  }

  /** The initiator's expansion only writes the two byte-enable values. */
  lemma {:induction false} ExpandEnableBytes(strb: seq<nat>, w: nat)
    ensures EnableBytes(TlmInitiatorNb.Expand(strb, w))
  {
    if |strb| > 0 {
      ExpandEnableBytes(strb[1..], w);
      var l := TlmInitiatorNb.LaneEnables(strb[0], w);
      assert EnableBytes(l);
      assert TlmInitiatorNb.Expand(strb, w) == l + TlmInitiatorNb.Expand(strb[1..], w);
    }
  }

  /** The inner loop of get_strobes: bit i of the word is set for each enabled byte be[p+i]. */
  method LaneStrobe(be: seq<byte>, p: nat, w: nat) returns (s: nat)
    requires p + w <= |be| && EnableBytes(be)
    ensures s == LaneMask(be[p..p + w])
  {
    s := 0;
    var i := 0;
    while i < w
      invariant 0 <= i <= w
      invariant s == LaneMask(be[p..p + i])
    {
      assert be[p..p + i + 1][..i] == be[p..p + i];
      if be[p + i] == BYTE_ENABLED {
        AndAlignedLow(Pow2(i), s, i);
        assert Pow2(i) % Pow2(i) == 0 by {
          DivModUnique(Pow2(i), Pow2(i), 1, 0);
        }
        OrDisjoint(s, Pow2(i));
        s := Or(s, Pow2(i));
      }
      i := i + 1;
    }
  }

  /**
   * get_strobes: the strobe word of each of the n beats, from the byte
   * enables when there are any, and with all W bits set when there are none.
   */
  method GetStrobes(p: Payload, w: nat) returns (strb: seq<nat>)
    requires w >= 1
    requires p.beLength != 0 ==> p.dataLength / w * w <= |p.byteEnable| && EnableBytes(p.byteEnable[..p.dataLength / w * w])
    ensures |strb| == p.dataLength / w
    ensures p.beLength != 0 ==> strb == StrobeWords(p.byteEnable, p.dataLength / w, w)
    ensures p.beLength == 0 ==> forall k :: 0 <= k < |strb| ==> strb[k] == Pow2(w) - 1
  {
    var n := p.dataLength / w;
    if p.beLength == 0 {
      strb := seq(n, _ => Pow2(w) - 1);
      return;
    }
    strb := StrobeLoop(p.byteEnable, n, w);
  }

  /** The outer loop of get_strobes over n beats of w byte enables. */
  method StrobeLoop(be: seq<byte>, n: nat, w: nat) returns (strb: seq<nat>)
    requires n * w <= |be| && EnableBytes(be[..n * w])
    ensures strb == StrobeWords(be, n, w)
  {
    strb := [];
    var rest := be[..n * w];
    assert StrobeWords(rest, n, w) == StrobeWords(be, n, w) by {
      StrobeWordsPrefix(be, n, w, n * w);
    }
    var k := 0;
    while k < n
      invariant 0 <= k <= n && |rest| == (n - k) * w && EnableBytes(rest)
      invariant strb + StrobeWords(rest, n - k, w) == StrobeWords(be, n, w)
    {
      StrobeWordsCons(rest, n - k, w);
      var s := LaneStrobe(rest, 0, w);
      EnableBytesSub(rest, w, |rest|, |rest|);
      strb := strb + [s];
      rest := rest[w..];
      k := k + 1;
    }
  }

  lemma StrobeWordsCons(rest: seq<byte>, m: nat, w: nat)
    requires m >= 1 && |rest| == m * w
    ensures w <= |rest| && |rest[w..]| == (m - 1) * w
    ensures StrobeWords(rest, m, w) == [LaneMask(rest[0..w])] + StrobeWords(rest[w..], m - 1, w)
  {
    assert (m - 1) * w + w == m * w;
    assert rest[0..w] == rest[..w];
  }

  /** Only the first n*w bytes matter to the strobe words. */
  lemma {:induction false} StrobeWordsPrefix(be: seq<byte>, n: nat, w: nat, m: nat)
    requires n * w <= m <= |be|
    ensures StrobeWords(be[..m], n, w) == StrobeWords(be, n, w)
  {
    if n > 0 {
      assert (n - 1) * w + w == n * w;
      assert be[..m][..w] == be[..w];
      assert be[..m][w..] == be[w..][..m - w];
      StrobeWordsPrefix(be[w..], n - 1, w, m - w);
    }
  }

  lemma EnableBytesSub(be: seq<byte>, lo: nat, hi: nat, m: nat)
    requires lo <= hi <= m <= |be| && EnableBytes(be[..m])
    ensures EnableBytes(be[lo..hi])
  {
    forall j | 0 <= j < hi - lo
      ensures be[lo..hi][j] == BYTE_ENABLED || be[lo..hi][j] == BYTE_DISABLED
    {
      assert be[lo..hi][j] == be[..m][lo + j];
    }
  }

  /** The strobe words from byte a on: the lane at a, then the words after it. */
  lemma StrobeWordsStep(be: seq<byte>, a: nat, n: nat, w: nat)
    requires n >= 1 && a + n * w <= |be|
    ensures a + w <= |be|
    ensures StrobeWords(be[a..], n, w) == [LaneMask(be[a..a + w])] + StrobeWords(be[a + w..], n - 1, w)
  {
    assert (n - 1) * w + w == n * w;
    assert be[a..][..w] == be[a..a + w];
    assert be[a..][w..] == be[a + w..];
  }

  // ---------------------------------------------------------------------------
  // The target.

  /** The initiator acknowledged a BEGIN_RESP: it returned TLM_COMPLETED or answered END_RESP. */
  predicate Acknowledged(answer: (SyncEnum, Phase))
  {
    answer.0 == Completed || answer.1 == EndResp
  }


  /** transaction_state: one accepted or rejected request and its completion. */
  class Request {
    var payload: Payload
    /** The identity of the payload object. */
    const id: nat
    /** When the owner may start on it: the arrival time plus the annotated delay. */
    const readyTime: nat
    var completeTime: nat
    var completeFlag: bool

    constructor (p: Payload, pid: nat, ready: nat)
      ensures payload == p && id == pid && readyTime == ready && !completeFlag && completeTime == 0
    {
      payload, id, readyTime := p, pid, ready;
      completeTime, completeFlag := 0, false;
    }

    /** size(): the length in bus words. */
    function Size(w: nat): (n: nat)
      requires w >= 1
      reads this
      ensures n * w <= payload.dataLength < n * w + w
    {
      DivModUnique(payload.dataLength, w, payload.dataLength / w, payload.dataLength % w);
      payload.dataLength / w
    }
  }

  /** The payload ids of a run of requests. */
  function Ids(q: seq<Request>): (r: set<nat>)
    ensures forall t :: t in q ==> t.id in r
    ensures forall k :: k in r ==> exists t :: t in q && t.id == k
  {
    set t | t in q :: t.id
  }

  /** One more request adds exactly its own id. */
  lemma IdsSnoc(q: seq<Request>, t: Request)
    ensures Ids(q + [t]) == Ids(q) + {t.id}
  {
    assert forall u :: u in q + [t] <==> u in q || u == t;
  }

  /** The owner's action during its callback: nothing yet, or complete_delay(d). */
  type OwnerAction = Option<nat>

  class Target {
    /** The bus width W, sizeof(DATATYPE). */
    const width: nat
    const maxLength: nat
    /** The owner takes annotated delays (the callback with a delay argument). */
    const tann: bool
    /** Requests by payload id. */
    var outstanding: map<nat, Request>
    /** Completed requests not yet acknowledged, in completion order. */
    var completeQueue: seq<Request>
    /** A BEGIN_RESP awaits END_RESP. */
    var completeOutstanding: bool
    /** The peq of unannotated requests: (payload id, ready time). */
    var readyQueue: seq<(nat, nat)>

    ghost predicate Valid()
      reads this
    {
      && width >= 1
      && (completeOutstanding ==> completeQueue != [])
      && (forall k :: k in outstanding ==> outstanding[k].id == k)
    }

    constructor (w: nat, maxLen: nat, annotated: bool)
      requires w >= 1
      ensures Valid() && width == w && maxLength == maxLen && tann == annotated
      ensures outstanding == map[] && completeQueue == [] && !completeOutstanding && readyQueue == []
    {
      width, maxLength, tann := w, maxLen, annotated;
      outstanding, completeQueue, completeOutstanding, readyQueue := map[], [], false, [];
    }

    /** complete_common and completed_notify: the request is done and joins the completion FIFO. */
    method CompleteCommon(ts: Request)
      requires Valid() && ts.id in outstanding && outstanding[ts.id] == ts
      modifies this, ts
      ensures Valid() && ts.completeFlag && ts.completeTime == old(ts.completeTime) && ts.payload == old(ts.payload)
      ensures completeQueue == old(completeQueue) + [ts]
      ensures outstanding == old(outstanding) && completeOutstanding == old(completeOutstanding)
      ensures readyQueue == old(readyQueue)
    {
      ts.completeFlag := true;
      completeQueue := completeQueue + [ts];
    }

    /** complete: completed at the current time. */
    method Complete(ts: Request, now: nat)
      requires Valid() && ts.id in outstanding && outstanding[ts.id] == ts
      modifies this, ts
      ensures Valid() && ts.completeFlag && ts.completeTime == now && ts.payload == old(ts.payload)
      ensures completeQueue == old(completeQueue) + [ts]
      ensures outstanding == old(outstanding) && completeOutstanding == old(completeOutstanding)
      ensures readyQueue == old(readyQueue)
    {
      ts.completeTime := now;
      CompleteCommon(ts);
    }

    /** complete_delay: completed at now + delay. */
    method CompleteDelay(ts: Request, now: nat, delay: nat)
      requires Valid() && ts.id in outstanding && outstanding[ts.id] == ts
      modifies this, ts
      ensures Valid() && ts.completeFlag && ts.completeTime == now + delay && ts.payload == old(ts.payload)
      ensures completeQueue == old(completeQueue) + [ts]
      ensures outstanding == old(outstanding) && completeOutstanding == old(completeOutstanding)
      ensures readyQueue == old(readyQueue)
    {
      ts.completeTime := now + delay;
      CompleteCommon(ts);
    }

    /** complete_delta: completed delta after the request became ready. */
    method CompleteDelta(ts: Request, delta: nat)
      requires Valid() && ts.id in outstanding && outstanding[ts.id] == ts
      modifies this, ts
      ensures Valid() && ts.completeFlag && ts.completeTime == ts.readyTime + delta && ts.payload == old(ts.payload)
      ensures completeQueue == old(completeQueue) + [ts]
      ensures outstanding == old(outstanding) && completeOutstanding == old(completeOutstanding)
      ensures readyQueue == old(readyQueue)
    {
      ts.completeTime := ts.readyTime + delta;
      CompleteCommon(ts);
    }

    /** complete (the tidy-up): the head of the FIFO leaves it and the map. */
    method Retire(ts: Request)
      requires Valid() && !completeOutstanding && completeQueue != [] && completeQueue[0] == ts
      modifies this
      ensures Valid()
      ensures completeQueue == old(completeQueue)[1..] && outstanding == old(outstanding) - {ts.id}
      ensures completeOutstanding == old(completeOutstanding) && readyQueue == old(readyQueue)
    {
      completeQueue := completeQueue[1..];
      outstanding := outstanding - {ts.id};
    }

    /**
     * nb_transport_fw. BEGIN_REQ: a new request, validated; a rejected one
     * is completed at once at its ready time and never reaches the owner;
     * an accepted one goes to the owner now (annotated owner, or no delay)
     * or through the ready peq. It is answered with BEGIN_RESP and
     * TLM_COMPLETED when it completed during the call, heads the FIFO and
     * no response is pending; otherwise with END_REQ and TLM_UPDATED.
     * END_RESP: the pending response is acknowledged and its request retired.
     */
    method NbTransportFw(id: nat, p: Payload, phase: Phase, delay: nat, now: nat, owner: OwnerAction)
      returns (sync: SyncEnum, phase': Phase, delay': nat, ts: Request)
      requires Valid()
      requires phase != EndReq && phase != BeginResp
      requires phase == EndResp ==> completeOutstanding && id in outstanding && completeQueue[0] == outstanding[id]
      modifies this
      ensures Valid()
      ensures phase == BeginReq ==> fresh(ts) && ts.id == id && ts.readyTime == now + delay
      ensures phase == BeginReq ==> ts.payload == p.(status := ValidatePayload(p, width, maxLength).status)
      ensures phase == BeginReq && !ValidatePayload(p, width, maxLength).accepted ==>
        ts.completeFlag && ts.completeTime == now + delay && readyQueue == old(readyQueue)
      ensures phase == BeginReq && ValidatePayload(p, width, maxLength).accepted && !tann && delay != 0 ==>
        !ts.completeFlag && readyQueue == old(readyQueue) + [(id, now + delay)]
      ensures phase == BeginReq && ValidatePayload(p, width, maxLength).accepted && (tann || delay == 0) ==>
        (ts.completeFlag <==> owner.Some?) && (owner.Some? ==> ts.completeTime == now + owner.value)
        && readyQueue == old(readyQueue)
      ensures phase == BeginReq && ValidatePayload(p, width, maxLength).accepted && (tann || delay == 0)
              && !old(completeOutstanding) && old(completeQueue) == [] ==>
        (sync == Completed <==> owner.Some?)
      ensures phase == BeginReq && ts.completeFlag && !old(completeOutstanding) && old(completeQueue) == [] ==>
        (sync == Completed && phase' == BeginResp && delay' == CalcCompleteDelay(ts.completeTime, now, delay)
         && completeQueue == [] && outstanding == old(outstanding) - {id})
      ensures phase == BeginReq && (!ts.completeFlag || old(completeOutstanding) || old(completeQueue) != []) ==>
        (sync == Updated && phase' == EndReq && delay' == delay && outstanding == old(outstanding)[id := ts])
      ensures phase == EndResp ==> sync == Completed && phase' == phase && !completeOutstanding
      ensures phase == EndResp ==> completeQueue == old(completeQueue)[1..] && outstanding == old(outstanding) - {id}
    {
      if phase == EndResp {
        completeOutstanding := false;
        ts := outstanding[id];
        Retire(ts);
        return Completed, phase, delay, ts;
      }
      var v := ValidatePayload(p, width, maxLength);
      ts := new Request(p.(status := v.status), id, now + delay);
      outstanding := outstanding[id := ts];
      if !v.accepted {
        CompleteDelta(ts, 0);
      } else if tann || delay == 0 {
        if owner.Some? {
          CompleteDelay(ts, now, owner.value);
        }
      } else {
        readyQueue := readyQueue + [(id, now + delay)];
      }
      if !completeOutstanding && completeQueue != [] && completeQueue[0] == ts {
        delay' := CalcCompleteDelay(ts.completeTime, now, delay);
        Retire(ts);
        return Completed, BeginResp, delay', ts;
      }
      return Updated, EndReq, delay, ts;
    }

    /**
     * What complete_method has done after offering `issued`, starting from
     * the FIFO q0 and the map o0: all offers but the last were acknowledged
     * and retired, and the last one was retired exactly when acknowledged.
     */
    ghost predicate Offered(q0: seq<Request>, o0: map<nat, Request>, issued: seq<(nat, nat)>,
                            answers: nat -> (SyncEnum, Phase))
      reads this
    {
      && |issued| <= |q0| && |completeQueue| <= |q0|
      && (forall i :: 0 <= i < |issued| ==> (Acknowledged(answers(i)) <==> i < |issued| - 1 || !completeOutstanding))
      && (completeOutstanding && issued != [] ==> completeQueue == q0[|issued| - 1..])
      && (completeOutstanding && issued == [] ==> completeQueue == q0)
      && (!completeOutstanding ==> completeQueue == q0[|issued|..])
      && outstanding == o0 - Ids(q0[..|q0| - |completeQueue|])
    }

    /**
     * complete_method: while no response is pending, offer BEGIN_RESP for
     * the head of the FIFO with the delay that reaches its completion time;
     * answers(k) is the initiator's reply to the k-th offer. An acknowledged
     * offer retires the head; otherwise the response stays pending.
     * `issued` lists the (payload id, delay) of every offer, in order.
     */
    method CompleteMethod(now: nat, answers: nat -> (SyncEnum, Phase)) returns (issued: seq<(nat, nat)>)
      requires Valid()
      modifies this
      ensures Valid()
      ensures readyQueue == old(readyQueue)
      ensures old(completeOutstanding) ==> issued == [] && completeQueue == old(completeQueue) && completeOutstanding
      ensures completeOutstanding || completeQueue == []
      ensures |issued| <= |old(completeQueue)|
      ensures forall i :: 0 <= i < |issued| ==>
        issued[i] == (old(completeQueue)[i].id, CalcCompleteDelay(old(completeQueue)[i].completeTime, now, 0))
      ensures forall i :: 0 <= i < |issued| ==>
        (Acknowledged(answers(i)) <==> i < |issued| - 1 || !completeOutstanding)
      ensures !old(completeOutstanding) && completeOutstanding ==> |issued| >= 1 && completeQueue == old(completeQueue)[|issued| - 1..]
      ensures !completeOutstanding ==> completeQueue == old(completeQueue)[|issued|..]
      ensures |completeQueue| <= |old(completeQueue)|
      ensures outstanding == old(outstanding) - Ids(old(completeQueue)[..|old(completeQueue)| - |completeQueue|])
    {
      issued := [];
      ghost var q0, was, o0 := completeQueue, completeOutstanding, outstanding;
      assert q0[..|q0| - |completeQueue|] == [];
      while !completeOutstanding && completeQueue != []
        invariant Valid() && readyQueue == old(readyQueue)
        invariant Offered(q0, o0, issued, answers)
        invariant forall i :: 0 <= i < |issued| ==> issued[i] == (q0[i].id, CalcCompleteDelay(q0[i].completeTime, now, 0))
        invariant was ==> issued == [] && completeOutstanding
        invariant !was && completeOutstanding ==> issued != []
        invariant forall t :: t in q0 ==> t.completeTime == old(t.completeTime)
        decreases |completeQueue|, !completeOutstanding
      {
        issued := Offer(now, answers, q0, o0, issued);
      }
    }

    /** One pass of complete_method: the head is offered and retired when the answer acknowledges it. */
    method Offer(now: nat, answers: nat -> (SyncEnum, Phase), ghost q0: seq<Request>, ghost o0: map<nat, Request>,
                 issued: seq<(nat, nat)>) returns (issued': seq<(nat, nat)>)
      requires Valid() && !completeOutstanding && completeQueue != []
      requires Offered(q0, o0, issued, answers)
      modifies this
      ensures Valid() && readyQueue == old(readyQueue) && Offered(q0, o0, issued', answers)
      ensures issued' == issued + [(q0[|issued|].id, CalcCompleteDelay(q0[|issued|].completeTime, now, 0))]
      ensures completeOutstanding ==> completeQueue == old(completeQueue)
      ensures !completeOutstanding ==> |completeQueue| == |old(completeQueue)| - 1
    {
      var ts := completeQueue[0];
      assert ts == q0[|issued|];
      var d := CalcCompleteDelay(ts.completeTime, now, 0);
      var answer := answers(|issued|);
      issued' := issued + [(ts.id, d)];
      if Acknowledged(answer) {
        ghost var k := |q0| - |completeQueue|;
        assert k == |issued| && q0[..k + 1] == q0[..k] + [ts];
        IdsSnoc(q0[..k], ts);
        Retire(ts);
      } else {
        completeOutstanding := true;
      }
    }
  }
}
