/**
 * The address-routing fabric: a table of address windows, one per
 * downstream socket, with first-match decoding, mask/base translation of
 * the forwarded address, an immediate ADDRESS_ERROR for undecodable
 * requests, and a record of the upstream socket of every request still in
 * flight so that backward calls find their way home.
 */
module TlmFabric {
  import opened Bits
  import opened Tlm
  import DlscMain
  import DlscBv

  /** ~m on a uint64. */
  function Complement(m: nat): (r: nat)
    requires m < UINT64_LIMIT
    ensures r < UINT64_LIMIT && r + m == UINT64_LIMIT - 1
  {
    UINT64_LIMIT - 1 - m
  }

  /** The two checks of set_map on a mask: its 12 low bits are set and mask+1 (wrapping) shares no bit with it. */
  predicate MaskOk(m: nat)
  {
    m < UINT64_LIMIT && And(m, 0xFFF) == 0xFFF && And((m + 1) % UINT64_LIMIT, m) == 0
  }

  /** The check of set_map on a base: no bit in common with its mask. */
  predicate BaseOk(base: nat, m: nat)
  {
    base < UINT64_LIMIT && And(base, m) == 0
  }

  /** One routing window (fabric_map): which input addresses it accepts, how it translates them, which directions it allows. */
  datatype FabricMap = FabricMap(
    inMask: nat,
    inBase: nat,
    outMask: nat,
    outBase: nat,
    readOkay: bool,
    writeOkay: bool)
  {
    /** Every window set_map can install. */
    predicate Ok()
    {
      MaskOk(inMask) && MaskOk(outMask) && BaseOk(inBase, inMask) && BaseOk(outBase, outMask)
    }
  }

  /** The default window: all-ones masks and zero bases, both directions allowed. */
  function DefaultMap(): (m: FabricMap)
    ensures m.readOkay && m.writeOkay
  {
    FabricMap(UINT64_LIMIT - 1, 0, UINT64_LIMIT - 1, 0, true, true)
  }

  /** The address test of the decoder: (addr & ~in_mask) == in_base. */
  predicate AddrMatches(m: FabricMap, addr: nat)
    requires m.inMask < UINT64_LIMIT
  {
    And(addr, Complement(m.inMask)) == m.inBase
  }

  /** The full test of the decoder: the address is in the window and the window allows the command. */
  predicate Selects(m: FabricMap, p: Payload)
    requires m.inMask < UINT64_LIMIT
  {
    AddrMatches(m, p.address) && ((p.IsRead() && m.readOkay) || (p.IsWrite() && m.writeOkay))
  }

  /** The forwarded address: (addr & out_mask) | out_base. */
  function Remap(m: FabricMap, addr: nat): nat
  {
    Or(And(addr, m.outMask), m.outBase)
  }

  predicate AllOk(maps: seq<FabricMap>)
  {
    forall i :: 0 <= i < |maps| ==> maps[i].Ok()
  }

  /** The index of the first window from i on that selects the payload. */
  function FirstMatch(maps: seq<FabricMap>, p: Payload, i: nat): (r: Option<nat>)
    requires AllOk(maps) && i <= |maps|
    decreases |maps| - i
    ensures r.Some? ==> i <= r.value < |maps| && Selects(maps[r.value], p)
    ensures r.Some? ==> forall j :: i <= j < r.value ==> !Selects(maps[j], p)
    ensures r.None? ==> forall j :: i <= j < |maps| ==> !Selects(maps[j], p)
  {
    if i == |maps| then None
    else if Selects(maps[i], p) then Some(i)
    else FirstMatch(maps, p, i + 1)
  }

  /** std::vector::resize: the first n entries are kept, new entries are default windows. */
  function Resized(maps: seq<FabricMap>, n: nat): (r: seq<FabricMap>)
    ensures |r| == n
    ensures forall i :: 0 <= i < n ==> r[i] == if i < |maps| then maps[i] else DefaultMap()
  {
    if |maps| >= n then maps[..n] else maps + seq(n - |maps|, _ => DefaultMap())
  }

  // ---------------------------------------------------------------------------
  // Masks and windows.

  lemma Pow2Of12()
    ensures Pow2(12) == 0x1000
  {
    assert Pow2(4) == 16;
    Pow2Add(4, 4);
    Pow2Add(8, 4);
  }

  lemma {:induction false} AndCommutes(a: nat, b: nat)
    ensures And(a, b) == And(b, a)
  {
    if a != 0 && b != 0 {
      AndCommutes(a / 2, b / 2);
    }
  }

  /** A multiple of d plus less than d leaves that much over. */
  lemma AlignedPlus(base: nat, t: nat, d: nat)
    requires d > 0 && base % d == 0 && t < d
    ensures (base + t) % d == t && (base + t) - (base + t) % d == base
  {
    var q := base / d;
    DivModUnique(base, d, q, 0);
    DivModUnique(base + t, d, q, t);
  }

  /** Below an aligned limit, an aligned value leaves room for a whole step. */
  lemma AlignedBelow(b: nat, limit: nat, d: nat)
    requires d > 0 && b % d == 0 && limit % d == 0 && b < limit
    ensures b + d <= limit
  {
    var q1, q2 := b / d, limit / d;
    DivModUnique(b, d, q1, 0);
    DivModUnique(limit, d, q2, 0);
    if q1 >= q2 {
      MulMonotone(q2, q1, d);
    }
    MulMonotone(q1 + 1, q2, d);
  }

  /** The 12 low bits of 2^k - 1: all ones from k = 12 on, the whole value below. */
  lemma MaskLow12(k: nat)
    ensures (Pow2(k) - 1) % 0x1000 == if k >= 12 then 0xFFF else Pow2(k) - 1
    ensures k < 12 ==> Pow2(k) - 1 < 0xFFF
  {
    Pow2Of12();
    var m := Pow2(k) - 1;
    if k >= 12 {
      var q := Pow2(k - 12);
      Pow2Add(k - 12, 12);
      DivModUnique(m, 0x1000, q - 1, 0xFFF);
    } else {
      Pow2Monotone(k, 11);
      assert Pow2(12) == 2 * Pow2(11);
      DivModUnique(m, 0x1000, 0, m);
    }
  }

  /** 2^k - 1 keeps the 12 low bits set exactly when k >= 12. */
  lemma LowBitsOfMask(k: nat)
    ensures And(Pow2(k) - 1, 0xFFF) == 0xFFF <==> k >= 12
  {
    MaskLow12(k);
    Pow2Of12();
    AndLowMask(Pow2(k) - 1, 12);
  }

  /** Every mask set_map accepts is 2^k - 1 for some 12 <= k <= 64. */
  lemma MaskOkHasForm(m: nat)
    requires MaskOk(m)
    ensures exists k :: 12 <= k <= 64 && m == Pow2(k) - 1
  {
    DlscBv.Pow2Limits();
    if m == UINT64_LIMIT - 1 {
      assert m == Pow2(64) - 1;
    } else {
      assert DlscMain.IsPowerOf2(m + 1) by {
        DivModUnique(m + 1, UINT64_LIMIT, 0, m + 1);
      }
      DlscMain.IsPowerOf2Exactly(m + 1);
      var k := DlscMain.FloorLog2(m + 1);
      assert m == Pow2(k) - 1;
      assert k >= 12 by {
        LowBitsOfMask(k);
      }
      assert k <= 64 by {
        if k > 64 {
          Pow2Monotone(64, k);
        }
      }
    }
  }

  /** Every 2^k - 1 with 12 <= k <= 64 passes the mask checks of set_map. */
  lemma FormIsMaskOk(k: nat)
    requires 12 <= k <= 64
    ensures MaskOk(Pow2(k) - 1)
  {
    var m := Pow2(k) - 1;
    assert m < UINT64_LIMIT by {
      DlscBv.Pow2Limits();
      Pow2Monotone(k, 64);
    }
    assert And(m, 0xFFF) == 0xFFF by {
      LowBitsOfMask(k);
    }
    assert And((m + 1) % UINT64_LIMIT, m) == 0 by {
      DlscBv.Pow2Limits();
      if k == 64 {
        DivModUnique(m + 1, UINT64_LIMIT, 1, 0);
      } else {
        assert Pow2(k) < UINT64_LIMIT by {
          Pow2Monotone(k + 1, 64);
        }
        DivModUnique(m + 1, UINT64_LIMIT, 0, Pow2(k));
        DlscMain.PowersOf2Pass(k);
      }
    }
  }

  /** The masks set_map accepts are exactly 2^k - 1 for 12 <= k <= 64: windows of at least 4 KiB. */
  lemma MaskForm(m: nat)
    requires m < UINT64_LIMIT
    ensures MaskOk(m) <==> exists k :: 12 <= k <= 64 && m == Pow2(k) - 1
  {
    if MaskOk(m) {
      MaskOkHasForm(m);
    }
    if exists k :: 12 <= k <= 64 && m == Pow2(k) - 1 {
      var k :| 12 <= k <= 64 && m == Pow2(k) - 1;
      FormIsMaskOk(k);
    }
  }

  /** A base has no bit in common with 2^k - 1 exactly when it is a multiple of 2^k. */
  lemma AlignedBase(base: nat, k: nat)
    ensures And(base, Pow2(k) - 1) == 0 <==> base % Pow2(k) == 0
  {
    AndLowMask(base, k);
  }

  /** ~(2^k - 1) on a uint64 is the high mask of bits k..63, and AND with it clears the k low bits. */
  lemma ComplementOfMask(k: nat, a: nat)
    requires k <= 64 && a < UINT64_LIMIT
    ensures Pow2(k) - 1 < UINT64_LIMIT && And(a, Complement(Pow2(k) - 1)) == a - a % Pow2(k)
  {
    DlscBv.Pow2Limits();
    Pow2Monotone(k, 64);
    assert Complement(Pow2(k) - 1) == HighMask(64, k);
    AndHighMask(a, 64, k);
  }

  /** A window with mask 2^k - 1 accepts exactly the 2^k addresses from its base on. */
  lemma MatchRange(m: FabricMap, k: nat, addr: nat)
    requires m.Ok() && k <= 64 && m.inMask == Pow2(k) - 1 && addr < UINT64_LIMIT
    ensures AddrMatches(m, addr) <==> m.inBase <= addr <= m.inBase + m.inMask
  {
    var d := Pow2(k);
    assert AddrMatches(m, addr) <==> addr - addr % d == m.inBase by {
      ComplementOfMask(k, addr);
    }
    assert m.inBase % d == 0 by {
      AlignedBase(m.inBase, k);
    }
    if m.inBase <= addr <= m.inBase + m.inMask {
      AlignedPlus(m.inBase, addr - m.inBase, d);
    }
  }

  /** The translated address lies in the output window at the offset the input had within the mask. */
  lemma RemapFields(m: FabricMap, k: nat, addr: nat)
    requires m.Ok() && k <= 64 && m.outMask == Pow2(k) - 1 && addr < UINT64_LIMIT
    ensures var r := Remap(m, addr);
      && r < UINT64_LIMIT
      && And(r, Complement(m.outMask)) == m.outBase
      && And(r, m.outMask) == And(addr, m.outMask)
      && r == m.outBase + addr % Pow2(k)
  {
    var d := Pow2(k);
    var low := addr % d;
    assert And(addr, m.outMask) == low by {
      AndLowMask(addr, k);
    }
    assert m.outBase % d == 0 by {
      AlignedBase(m.outBase, k);
    }
    assert Remap(m, addr) == m.outBase + low by {
      AndAlignedLow(m.outBase, low, k);
      OrDisjoint(low, m.outBase);
    }
    var r := m.outBase + low;
    AlignedPlus(m.outBase, low, d);
    assert r < UINT64_LIMIT by {
      DlscBv.Pow2Limits();
      Pow2Add(64 - k, k);
      DivModUnique(UINT64_LIMIT, d, Pow2(64 - k), 0);
      AlignedBelow(m.outBase, UINT64_LIMIT, d);
    }
    assert And(r, m.outMask) == low by {
      AndLowMask(r, k);
    }
    ComplementOfMask(k, r);
  }

  /** The default window is one set_map could install, accepts every address and forwards it unchanged. */
  lemma DefaultMapOk()
    ensures DefaultMap().Ok()
  {
    var m := DefaultMap();
    assert And(m.inMask, 0xFFF) == 0xFFF by {
      LowBitsOfMask(64);
      DlscBv.Pow2Limits();
    }
    assert (m.inMask + 1) % UINT64_LIMIT == 0;
  }

  /** The default window accepts every address and forwards it unchanged. */
  lemma DefaultMapRoutes(addr: nat)
    requires addr < UINT64_LIMIT
    ensures AddrMatches(DefaultMap(), addr) && Remap(DefaultMap(), addr) == addr
  {
    var m := DefaultMap();
    assert Complement(m.inMask) == 0;
    assert And(addr, m.outMask) == addr by {
      AndLowMask(addr, 64);
      DlscBv.Pow2Limits();
      DivModUnique(addr, UINT64_LIMIT, 0, addr);
    }
  }

  // ---------------------------------------------------------------------------
  // The fabric.

  /** What the downstream (or upstream) socket's transport call answers and leaves behind. */
  datatype Hop = Hop(sync: SyncEnum, phase: Phase, delay: nat, payload: Payload)

  /** Phases at which the fabric stops tracking a request on the forward path. */
  predicate Finished(sync: SyncEnum, phase: Phase)
  {
    phase == BeginResp || sync == Completed
  }

  class Fabric {
    /** Number of upstream (in) and downstream (out) sockets bound at elaboration. */
    const inSockets: nat
    const outSockets: nat
    /** One window per downstream socket once resized. */
    var maps: seq<FabricMap>
    /** Upstream socket of every payload (by identity) still in flight. */
    var outstanding: map<nat, nat>

    ghost predicate Valid()
      reads this
    {
      && AllOk(maps)
      && (|maps| == 0 || |maps| == outSockets)
      && forall t :: t in outstanding ==> outstanding[t] < inSockets
    }

    constructor(inSockets: nat, outSockets: nat)
      ensures Valid()
      ensures this.inSockets == inSockets && this.outSockets == outSockets
      ensures maps == [] && outstanding == map[]
    {
      this.inSockets := inSockets;
      this.outSockets := outSockets;
      maps := [];
      outstanding := map[];
    }

    /** Every default window is well formed, so resizing keeps the table valid. */
    static lemma ResizedOk(ms: seq<FabricMap>, n: nat)
      requires AllOk(ms)
      ensures AllOk(Resized(ms, n))
    {
      DefaultMapOk();
    }

    /** end_of_elaboration: one window per downstream socket. */
    method EndOfElaboration()
      requires Valid()
      modifies this
      ensures Valid()
      ensures maps == Resized(old(maps), outSockets) && outstanding == old(outstanding)
    {
      ResizedOk(maps, outSockets);
      if |maps| != outSockets {
        maps := Resized(maps, outSockets);
      }
    }

    /** set_map: installs one window; its masks are 2^k-1 with k >= 12 and its bases aligned to them. */
    method SetMap(socket: nat, inMask: nat, inBase: nat, outMask: nat, outBase: nat, readOkay: bool, writeOkay: bool)
      requires Valid()
      requires socket < outSockets
      requires MaskOk(inMask) && MaskOk(outMask) && BaseOk(inBase, inMask) && BaseOk(outBase, outMask)
      modifies this
      ensures Valid()
      ensures maps == Resized(old(maps), outSockets)[socket := FabricMap(inMask, inBase, outMask, outBase, readOkay, writeOkay)]
      ensures outstanding == old(outstanding)
    {
      ResizedOk(maps, outSockets);
      if |maps| != outSockets {
        maps := Resized(maps, outSockets);
      }
      maps := maps[socket := FabricMap(inMask, inBase, outMask, outBase, readOkay, writeOkay)];
    }

    /** The decoder loop: the first window that selects the payload. */
    method Decode(p: Payload) returns (socket: Option<nat>)
      requires Valid()
      ensures socket == FirstMatch(maps, p, 0)
    {
      var i := 0;
      while i < |maps|
        invariant 0 <= i <= |maps|
        invariant FirstMatch(maps, p, 0) == FirstMatch(maps, p, i)
      {
        if Selects(maps[i], p) {
          return Some(i);
        }
        i := i + 1;
      }
      return None;
    }

    /**
     * nb_transport_fw from upstream socket id, for the payload with identity
     * tid: decode, translate and forward (the downstream answer is a
     * parameter), or answer ADDRESS_ERROR at once; then track or forget the
     * payload. The caller's delay only takes the downstream delay when the
     * request finished.
     */
    method NbTransportFw(id: nat, tid: nat, p: Payload, phase: Phase, delay: nat, answer: Hop)
      returns (sync: SyncEnum, p': Payload, phase': Phase, delay': nat, forwarded: Option<(nat, Payload)>)
      requires Valid() && id < inSockets
      modifies this
      ensures Valid() && maps == old(maps)
      ensures FirstMatch(maps, p, 0).None? ==>
        && forwarded.None? && sync == Completed && phase' == BeginResp
        && p' == p.(status := AddressError) && delay' == delay
      ensures FirstMatch(maps, p, 0).Some? ==>
        var i := FirstMatch(maps, p, 0).value;
        && forwarded == Some((i, p.(address := Remap(maps[i], p.address))))
        && sync == answer.sync && phase' == answer.phase && p' == answer.payload
        && delay' == (if Finished(answer.sync, answer.phase) then answer.delay else delay)
      ensures Finished(sync, phase') ==> outstanding == old(outstanding) - {tid}
      ensures !Finished(sync, phase') ==> outstanding == old(outstanding)[tid := id]
    {
      var socket := Decode(p);
      if socket.None? {
        sync, p', phase', delay', forwarded := Completed, p.(status := AddressError), BeginResp, delay, None;
      } else {
        var i := socket.value;
        forwarded := Some((i, p.(address := Remap(maps[i], p.address))));
        sync, p', phase' := answer.sync, answer.payload, answer.phase;
        delay' := if Finished(sync, phase') then answer.delay else delay;
      }
      if Finished(sync, phase') {
        outstanding := outstanding - {tid};
      } else {
        outstanding := outstanding[tid := id];
      }
    }

    /** The upstream socket of a backward call: the record, or socket 0 for a payload never recorded. */
    function Source(tid: nat): nat
      reads this
    {
      if tid in outstanding then outstanding[tid] else 0
    }

    /**
     * nb_transport_bw for the payload with identity tid: passed up to the
     * socket it came from (the upstream answer is a parameter); the
     * record is dropped on END_RESP or TLM_COMPLETED. The caller's delay is
     * left as it was.
     */
    method NbTransportBw(tid: nat, p: Payload, phase: Phase, delay: nat, answer: Hop)
      returns (sync: SyncEnum, p': Payload, phase': Phase, delay': nat, socket: nat)
      requires Valid() && Source(tid) < inSockets
      modifies this
      ensures Valid() && maps == old(maps)
      ensures socket == old(Source(tid))
      ensures sync == answer.sync && phase' == answer.phase && p' == answer.payload && delay' == delay
      ensures phase' == EndResp || sync == Completed ==> outstanding == old(outstanding) - {tid}
      ensures !(phase' == EndResp || sync == Completed) ==> outstanding == old(outstanding)[tid := socket]
    {
      socket := Source(tid);
      outstanding := outstanding[tid := socket];
      sync, p', phase', delay' := answer.sync, answer.payload, answer.phase, delay;
      if phase' == EndResp || sync == Completed {
        outstanding := outstanding - {tid};
      }
    }
  }

  /** Routing picks the lowest-index window that selects the payload, and only a window that does. */
  lemma RoutingIsFirstMatch(maps: seq<FabricMap>, p: Payload, i: nat)
    requires AllOk(maps) && i < |maps|
    ensures FirstMatch(maps, p, 0) == Some(i) <==> Selects(maps[i], p) && forall j :: 0 <= j < i ==> !Selects(maps[j], p)
  {
    if Selects(maps[i], p) && forall j :: 0 <= j < i ==> !Selects(maps[j], p) {
      FirstMatchSkips(maps, p, 0, i);
    }
  }

  lemma {:induction false} FirstMatchSkips(maps: seq<FabricMap>, p: Payload, j: nat, i: nat)
    requires AllOk(maps) && j <= i < |maps|
    requires Selects(maps[i], p) && forall l :: j <= l < i ==> !Selects(maps[l], p)
    ensures FirstMatch(maps, p, j) == Some(i)
    decreases i - j
  {
    if j < i {
      FirstMatchSkips(maps, p, j + 1, i);
    }
  }

  /** Every forwarded address lies in its window's output range at the input's offset within the mask. */
  lemma ForwardedAddress(maps: seq<FabricMap>, p: Payload)
    requires AllOk(maps) && p.address < UINT64_LIMIT && FirstMatch(maps, p, 0).Some?
    ensures var m := maps[FirstMatch(maps, p, 0).value];
      var a := Remap(m, p.address);
      && And(a, Complement(m.outMask)) == m.outBase
      && And(a, m.outMask) == And(p.address, m.outMask)
  {
    var m := maps[FirstMatch(maps, p, 0).value];
    MaskForm(m.outMask);
    var k :| 12 <= k <= 64 && m.outMask == Pow2(k) - 1;
    RemapFields(m, k, p.address);
  }
}
