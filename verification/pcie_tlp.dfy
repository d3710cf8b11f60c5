/**
 * pcie_tlp: a PCI Express transaction-layer packet, its range-checked
 * setters and its conversion to and from the header/payload dwords laid out
 * in section 2.2 of the PCI Express Base Specification.
 *
 * The object is a class with the C++ fields; `State()` collects them in a
 * `Fields` record so that the pure specification functions (`Cleared`,
 * `WithFormat`, `WithType`, `Serialized`, `Decode`, `Equal`) can describe
 * what every method does.  A setter that throws std::invalid_argument returns
 * `thrown == true` and changes nothing.
 */
module PcieTlp {
  import opened Bits

  // Wire codes of the format field.
  const FMT_3DW: nat := 0x0
  const FMT_4DW: nat := 0x1
  const FMT_3DW_DATA: nat := 0x2
  const FMT_4DW_DATA: nat := 0x3

  // Wire codes of the type field.
  const TYPE_MEM: nat := 0x00
  const TYPE_MEM_LOCKED: nat := 0x01
  const TYPE_IO: nat := 0x02
  const TYPE_CONFIG_0: nat := 0x04
  const TYPE_CONFIG_1: nat := 0x05
  const TYPE_MSG_TO_RC: nat := 0x10
  const TYPE_MSG_BY_ADDR: nat := 0x11
  const TYPE_MSG_BY_ID: nat := 0x12
  const TYPE_MSG_FROM_RC: nat := 0x13
  const TYPE_MSG_LOCAL: nat := 0x14
  const TYPE_MSG_PME_RC: nat := 0x15
  const TYPE_CPL: nat := 0x0A
  const TYPE_CPL_LOCKED: nat := 0x0B

  // Wire codes of the completion status.
  const CPL_SC: nat := 0x0
  const CPL_UR: nat := 0x1
  const CPL_CRS: nat := 0x2
  const CPL_CA: nat := 0x4

  /**
   * Which of the five decoded type flags (memory, I/O, configuration, message,
   * completion) is set.  set_type clears all five before setting at most one,
   * and clear leaves all five unset, so one value stands for the five flags.
   */
  datatype TypeClass = Unset | Mem | Io | Cfg | Msg | Cpl

  /** All fields of a packet, header fields first, then the decoded ones. */
  datatype Fields = Fields(
    malformed: bool,
    fmt: nat, ty: nat, tc: nat, td: bool, ep: bool, attrRo: bool, attrNs: bool, length: nat,
    srcId: nat, srcTag: nat, cplStatus: nat, cplBcm: bool, cplBytes: nat,
    beLast: nat, beFirst: nat, msgCode: nat,
    destAddr: nat, destId: nat, cplTag: nat, cplAddr: nat, cfgReg: nat,
    data: seq<nat>, digest: nat,
    fmtSize: nat, fmt4dw: bool, fmtData: bool,
    cls: TypeClass,
    nonPosted: bool, digestSize: nat)
  {
    predicate TypeMem() { cls == Mem }
    predicate TypeIo() { cls == Io }
    predicate TypeCfg() { cls == Cfg }
    predicate TypeMsg() { cls == Msg }
    predicate TypeCpl() { cls == Cpl }
  }

  predicate IsMemCode(t: nat) { t == TYPE_MEM || t == TYPE_MEM_LOCKED }
  predicate IsCfgCode(t: nat) { t == TYPE_CONFIG_0 || t == TYPE_CONFIG_1 }
  predicate IsMsgCode(t: nat) { TYPE_MSG_TO_RC <= t <= TYPE_MSG_PME_RC }
  predicate IsCplCode(t: nat) { t == TYPE_CPL || t == TYPE_CPL_LOCKED }
  predicate IsTypeCode(t: nat) { IsMemCode(t) || t == TYPE_IO || IsCfgCode(t) || IsMsgCode(t) || IsCplCode(t) }

  /** The type flag set_type raises for a type code (none for a reserved code). */
  function ClassOf(t: nat): TypeClass
  {
    if IsMemCode(t) then Mem
    else if t == TYPE_IO then Io
    else if IsCfgCode(t) then Cfg
    else if IsMsgCode(t) then Msg
    else if IsCplCode(t) then Cpl
    else Unset
  }

  /** The state `clear` leaves: a 3DW memory header of length 1 whose decoded fields are all reset. */
  function Cleared(): Fields
  {
    Fields(false,
      FMT_3DW, TYPE_MEM, 0, false, false, false, false, 1,
      0, 0, CPL_SC, false, 1,
      0, 0, 0,
      0, 0, 0, 0, 0,
      [], 0,
      0, false, false,
      Unset,
      false, 0)
  }

  /** set_format: record the format and derive header size and payload presence from it. */
  function WithFormat(f: Fields, fm: nat): (g: Fields)
    ensures g.fmt4dw <==> (fm == FMT_4DW || fm == FMT_4DW_DATA)
    ensures g.fmtSize == (if g.fmt4dw then 4 else 3)
    ensures g.fmtData <==> (fm == FMT_3DW_DATA || fm == FMT_4DW_DATA)
    ensures g.nonPosted == (if f.TypeMem() then !g.fmtData else f.nonPosted)
  {
    var is4 := fm == FMT_4DW || fm == FMT_4DW_DATA;
    var hasData := fm == FMT_3DW_DATA || fm == FMT_4DW_DATA;
    f.(fmt := fm, fmt4dw := is4, fmtSize := if is4 then 4 else 3, fmtData := hasData,
       nonPosted := if f.TypeMem() then !hasData else f.nonPosted)
  }

  /** set_type: record the type code and set the one flag of its class; false for a reserved code. */
  function WithType(f: Fields, t: nat): (r: (Fields, bool))
    ensures r.1 <==> IsTypeCode(t)
    ensures r.0.ty == t
    ensures r.1 <==> r.0.cls != Unset
    ensures r.0.TypeMem() <==> IsMemCode(t)
    ensures r.0.TypeIo() <==> t == TYPE_IO
    ensures r.0.TypeCfg() <==> IsCfgCode(t)
    ensures r.0.TypeMsg() <==> IsMsgCode(t)
    ensures r.0.TypeCpl() <==> IsCplCode(t)
    ensures r.0.nonPosted <==> (t == TYPE_IO || IsCfgCode(t) || IsMsgCode(t) || (IsMemCode(t) && !f.fmtData))
  {
    var c := ClassOf(t);
    (f.(ty := t, cls := c, nonPosted := c == Io || c == Cfg || c == Msg || (c == Mem && !f.fmtData)), c != Unset)
  }

  // ---------------------------------------------------------------------------
  // Bit fields of a dword: `Put` writes a value into a field (keeping its low
  // bits, as an sc_int range assignment does), `Field` reads it back.

  function Put(v: nat, scale: nat, range: nat): nat
    requires range > 0
  {
    (v % range) * scale
  }

  function Field(w: nat, scale: nat, range: nat): nat
    requires scale > 0 && range > 0
  {
    w / scale % range
  }

  function Flag(b: bool, scale: nat): nat
  {
    if b then scale else 0
  }

  function FlagAt(w: nat, scale: nat): bool
    requires scale > 0
  {
    Field(w, scale, 2) == 1
  }

  /** The 10-bit length field writes 1024 dwords as 0. */
  function WireLength(n: nat): nat
  {
    if n == 1024 then 0 else n
  }

  /** The 12-bit byte-count field writes 4096 bytes as 0. */
  function WireByteCount(n: nat): nat
  {
    if n == 4096 then 0 else n
  }

  /** Dword 0: fmt [30:29], type [28:24], tc [22:20], td [15], ep [14], ro [13], ns [12], length [9:0] (1024 as 0). */
  function Dword0(f: Fields): nat
  {
    Put(f.fmt, 0x2000_0000, 4) + Put(f.ty, 0x100_0000, 32) + Put(f.tc, 0x10_0000, 8)
    + Flag(f.td, 0x8000) + Flag(f.ep, 0x4000) + Flag(f.attrRo, 0x2000) + Flag(f.attrNs, 0x1000)
    + Put(WireLength(f.length), 1, 1024)
  }

  /** Dword 1: requester id, then tag, completion fields, byte enables or message code by type. */
  function Dword1(f: Fields): nat
  {
    Put(f.srcId, 0x1_0000, 0x1_0000)
    + (if f.TypeMem() || f.TypeIo() || f.TypeCfg() || f.TypeMsg() then Put(f.srcTag, 0x100, 0x100) else 0)
    + (if f.TypeCpl() then
         Put(f.cplStatus, 0x2000, 8) + Flag(f.cplBcm, 0x1000)
         + Put(WireByteCount(f.cplBytes), 1, 0x1000)
       else 0)
    + (if f.TypeMem() || f.TypeIo() || f.TypeCfg() then Put(f.beLast, 0x10, 0x10) + Put(f.beFirst, 1, 0x10) else 0)
    + (if f.TypeMsg() then Put(f.msgCode, 1, 0x100) else 0)
  }

  /** Whether dwords 2 (and 3) carry an address rather than ids. */
  predicate AddressRouted(f: Fields)
  {
    f.TypeMem() || f.TypeIo() || f.ty == TYPE_MSG_BY_ADDR
  }

  /** The id-routed dword 2: destination id, completion tag and lower address, or config register. */
  function IdDword(f: Fields): nat
  {
    (if f.TypeCfg() || f.TypeCpl() || f.ty == TYPE_MSG_BY_ID then Put(f.destId, 0x1_0000, 0x1_0000) else 0)
    + (if f.TypeCpl() then Put(f.cplTag, 0x100, 0x100) + Put(f.cplAddr, 1, 0x80) else 0)
    + (if f.TypeCfg() then Put(f.cfgReg, 4, 0x400) else 0)
  }

  /** Dwords 2 and 3. */
  function AddressDwords(f: Fields): (ws: seq<nat>)
    ensures |ws| == if f.fmt4dw then 2 else 1
  {
    if AddressRouted(f) then
      (if f.fmt4dw then [f.destAddr / UINT32_LIMIT % UINT32_LIMIT] else [])
      + [f.destAddr % UINT32_LIMIT / 4 * 4]
    else
      [IdDword(f)] + (if f.fmt4dw then [0] else [])
  }

  /** serialize: the header dwords, then the payload if the format carries data, then the digest if present. */
  function Serialized(f: Fields): (ws: seq<nat>)
    ensures |ws| == (if f.fmt4dw then 4 else 3) + (if f.fmtData then |f.data| else 0) + (if f.td then 1 else 0)
  {
    [Dword0(f), Dword1(f)] + AddressDwords(f)
    + (if f.fmtData then f.data else [])
    + (if f.td then [f.digest] else [])
  }

  // ---------------------------------------------------------------------------
  // deserialize, as a function of the dwords.

  /** deserialize either throws (on no input) or returns true/false; the packet is left in `state`. */
  datatype Decoding = Throws(state: Fields) | Returns(ok: bool, state: Fields)

  /** Dword 0 after format and type: tc, td, ep, attributes, length (0 means 1024), digest size. */
  function DecodeDword0(f: Fields, d: nat): (g: Fields)
    ensures g.fmtSize == f.fmtSize && g.fmt4dw == f.fmt4dw
    ensures 1 <= g.length <= 1024 && g.length % 1024 == Field(d, 1, 1024)
  {
    var td := FlagAt(d, 0x8000);
    var len := Field(d, 1, 1024);
    f.(tc := Field(d, 0x10_0000, 8), td := td, ep := FlagAt(d, 0x4000),
       attrRo := FlagAt(d, 0x2000), attrNs := FlagAt(d, 0x1000),
       length := if len == 0 then 1024 else len,
       digestSize := if td then 1 else 0)
  }

  /** Dword 1: the fields the type flags select; a completion byte count of 0 means 4096. */
  function DecodeDword1(f: Fields, d: nat): (g: Fields)
    ensures g.fmtSize == f.fmtSize && g.fmt4dw == f.fmt4dw
    ensures f.TypeCpl() ==> 1 <= g.cplBytes <= 4096 && g.cplBytes % 4096 == Field(d, 1, 0x1000)
  {
    var tagged := f.TypeMem() || f.TypeIo() || f.TypeCfg() || f.TypeMsg();
    var enabled := f.TypeMem() || f.TypeIo() || f.TypeCfg();
    var bytes := Field(d, 1, 0x1000);
    f.(srcId := Field(d, 0x1_0000, 0x1_0000),
       srcTag := if tagged then Field(d, 0x100, 0x100) else f.srcTag,
       cplStatus := if f.TypeCpl() then Field(d, 0x2000, 8) else f.cplStatus,
       cplBcm := if f.TypeCpl() then FlagAt(d, 0x1000) else f.cplBcm,
       cplBytes := if !f.TypeCpl() then f.cplBytes else if bytes == 0 then 4096 else bytes,
       beLast := if enabled then Field(d, 0x10, 0x10) else f.beLast,
       beFirst := if enabled then Field(d, 1, 0x10) else f.beFirst,
       msgCode := if f.TypeMsg() then Field(d, 1, 0x100) else f.msgCode)
  }

  /** The address carried by an upper and a lower dword; the two low bits of the lower dword are dropped. */
  function JoinAddress(upper: nat, lower: nat): nat
  {
    upper % 0x1_0000_0000 * 0x1_0000_0000 + Field(lower, 4, 0x4000_0000) * 4
  }

  /** The dword the id fields are read from: the lower address dword of a 4DW address header, else dword 2. */
  function RoutingDword(f: Fields, dw: seq<nat>): nat
    requires |dw| >= f.fmtSize >= 3 && (f.fmt4dw ==> f.fmtSize == 4)
  {
    if AddressRouted(f) && f.fmt4dw then dw[3] else dw[2]
  }

  /** Dwords 2 and 3 of an address-routed packet: the address, upper dword first in a 4DW header. */
  function WithAddress(f: Fields, dw: seq<nat>): (g: Fields)
    requires |dw| >= f.fmtSize >= 3 && (f.fmt4dw ==> f.fmtSize == 4)
  {
    if AddressRouted(f) then
      f.(destAddr := JoinAddress(if f.fmt4dw then dw[2] else 0, RoutingDword(f, dw)))
    else f
  }

  /** The id fields of dword 2: destination id, completion tag and lower address, config register. */
  function WithIds(f: Fields, d: nat): (g: Fields)
  {
    var byId := f.TypeCfg() || f.TypeCpl() || f.ty == TYPE_MSG_BY_ID;
    f.(destId := if byId then Field(d, 0x1_0000, 0x1_0000) else f.destId,
       cplTag := if f.TypeCpl() then Field(d, 0x100, 0x100) else f.cplTag,
       cplAddr := if f.TypeCpl() then Field(d, 1, 0x80) else f.cplAddr,
       cfgReg := if f.TypeCfg() then Field(d, 4, 0x400) else f.cfgReg)
  }

  /** Dwords 2 and 3: address or ids. */
  function DecodeAddress(f: Fields, dw: seq<nat>): (g: Fields)
    requires |dw| >= f.fmtSize >= 3 && (f.fmt4dw ==> f.fmtSize == 4)
    ensures g.fmtSize == f.fmtSize
  {
    WithIds(WithAddress(f, dw), RoutingDword(f, dw))
  }

  /** The payload is everything after the header; with td its last word is the digest (missing: malformed). */
  function DecodePayload(f: Fields, dw: seq<nat>): (g: Fields)
    requires |dw| >= f.fmtSize
  {
    var rest := if f.fmtData || f.td then dw[f.fmtSize..] else f.data;
    var split := f.td && |rest| > 0;
    f.(data := if split then rest[..|rest| - 1] else rest,
       digest := if split then rest[|rest| - 1] else f.digest,
       malformed := f.malformed || (f.td && |rest| == 0))
  }

  /** deserialize: clear, then decode format, check the header size, decode type, then the fields. */
  function Decode(dw: seq<nat>): (r: Decoding)
  {
    if |dw| == 0 then Throws(Cleared())
    else
      var f1 := WithFormat(Cleared(), Field(dw[0], 0x2000_0000, 4));
      if |dw| < f1.fmtSize then Returns(false, f1.(malformed := true))
      else
        var (f2, known) := WithType(f1, Field(dw[0], 0x100_0000, 32));
        if !known then Returns(false, f2.(malformed := true))
        else
          var f3 := DecodeDword0(f2, dw[0]);
          var f4 := DecodeDword1(f3, dw[1]);
          var f5 := DecodeAddress(f4, dw);
          Returns(true, DecodePayload(f5, dw))
  }

  /** operator==: the common header fields, then only the fields relevant to this packet's type. */
  function Equal(a: Fields, b: Fields): bool
  {
    && a.fmt == b.fmt && a.ty == b.ty && a.tc == b.tc && a.td == b.td && a.ep == b.ep
    && a.attrRo == b.attrRo && a.attrNs == b.attrNs && a.length == b.length && a.srcId == b.srcId
    && (a.TypeMem() || a.TypeIo() || a.TypeCfg() || a.TypeMsg() ==> a.srcTag == b.srcTag)
    && (a.TypeCpl() ==>
          a.cplStatus == b.cplStatus && a.cplBcm == b.cplBcm && a.cplBytes == b.cplBytes
          && a.cplTag == b.cplTag && a.cplAddr == b.cplAddr)
    && (a.TypeMem() || a.TypeIo() || a.TypeCfg() ==> a.beLast == b.beLast && a.beFirst == b.beFirst)
    && (a.TypeMsg() ==> a.msgCode == b.msgCode)
    && (a.TypeMem() || a.TypeIo() ==> a.destAddr == b.destAddr)
    && (a.TypeCfg() || a.TypeCpl() ==> a.destId == b.destId)
    && (a.TypeCfg() ==> a.cfgReg == b.cfgReg)
    && (a.fmtData ==> a.data == b.data)
    && (a.td ==> a.digest == b.digest)
  }

  // ---------------------------------------------------------------------------
  // The object.

  /** What deserialize does with control: throw, or return a flag. */
  datatype Outcome = Threw | Returned(ok: bool)

  /**
   * The packet object. Its fields are kept together in the record `st`; each
   * method updates the fields the C++ method assigns, in the same order.
   */
  class Tlp {
    var st: Fields

    /** A new packet is cleared. */
    constructor ()
      ensures st == Cleared()
    {
      st := Cleared();
    }

    /** clear: back to a 3DW memory header of length 1 with every decoded field reset. */
    method Clear()
      modifies this
      ensures st == Cleared()
    {
      st := Cleared();
    }

    /** set_format; it always returns true. */
    method SetFormat(f: nat) returns (ok: bool)
      modifies this
      ensures ok
      ensures st == WithFormat(old(st), f)
    {
      var is4 := f == FMT_4DW || f == FMT_4DW_DATA;
      var hasData := f == FMT_3DW_DATA || f == FMT_4DW_DATA;
      var np := st.nonPosted;
      if st.TypeMem() {
        np := !hasData;
      }
      st := st.(fmt := f, fmt4dw := is4, fmtSize := if is4 then 4 else 3, fmtData := hasData, nonPosted := np);
      ok := true;
    }

    /** set_type; false for a code outside the thirteen defined ones. */
    method SetType(t: nat) returns (ok: bool)
      modifies this
      ensures (st, ok) == WithType(old(st), t)
    {
      var cls, np := Unset, false;
      ok := true;
      if IsMemCode(t) {
        cls, np := Mem, !st.fmtData;
      } else if t == TYPE_IO {
        cls, np := Io, true;
      } else if IsCfgCode(t) {
        cls, np := Cfg, true;
      } else if IsMsgCode(t) {
        cls, np := Msg, true;
      } else if IsCplCode(t) {
        cls := Cpl;
      } else {
        ok := false;
      }
      st := st.(ty := t, cls := cls, nonPosted := np);
    }

    method SetTrafficClass(trafficClass: nat) returns (thrown: bool)
      modifies this
      ensures thrown <==> trafficClass >= 8
      ensures st == if thrown then old(st) else old(st).(tc := trafficClass)
    {
      thrown := trafficClass >= 8;
      if !thrown {
        st := st.(tc := trafficClass);
      }
    }

    method SetDigest(dg: nat)
      modifies this
      ensures st == old(st).(td := true, digest := dg, digestSize := 1)
    {
      st := st.(td := true, digest := dg, digestSize := 1);
    }

    method SetPoisoned(poison: bool := true)
      modifies this
      ensures st == old(st).(ep := poison)
    {
      st := st.(ep := poison);
    }

    method SetAttributes(relaxedOrdering: bool, noSnoop: bool)
      modifies this
      ensures st == old(st).(attrRo := relaxedOrdering, attrNs := noSnoop)
    {
      st := st.(attrRo := relaxedOrdering, attrNs := noSnoop);
    }

    /** set_length: 1..1024 dwords; a single-dword packet has no last byte enables. */
    method SetLength(words: nat) returns (thrown: bool)
      modifies this
      ensures thrown <==> (words == 0 || words > 1024)
      ensures st == if thrown then old(st)
                    else old(st).(length := words, beLast := if words == 1 then 0 else old(st).beLast)
    {
      thrown := words == 0 || words > 1024;
      if !thrown {
        st := st.(length := words);
        if st.length == 1 {
          st := st.(beLast := 0);
        }
      }
    }

    method SetSource(id: nat) returns (thrown: bool)
      modifies this
      ensures thrown <==> id > 0xFFFF
      ensures st == if thrown then old(st) else old(st).(srcId := id)
    {
      thrown := id > 0xFFFF;
      if !thrown {
        st := st.(srcId := id);
      }
    }

    method SetTag(tag: nat) returns (thrown: bool)
      modifies this
      ensures thrown <==> tag >= 256
      ensures st == if thrown then old(st) else old(st).(srcTag := tag)
    {
      thrown := tag >= 256;
      if !thrown {
        st := st.(srcTag := tag);
      }
    }

    /** set_completion_status: stores any code, and reports whether it is one of SC, UR, CRS, CA. */
    method SetCompletionStatus(status: nat) returns (ok: bool)
      modifies this
      ensures ok <==> (status == CPL_SC || status == CPL_UR || status == CPL_CRS || status == CPL_CA)
      ensures st == old(st).(cplStatus := status)
    {
      st := st.(cplStatus := status);
      ok := status == CPL_SC || status == CPL_UR || status == CPL_CRS || status == CPL_CA;
    }

    /** set_completion: all completion fields at once; a packet that is not yet a completion becomes TYPE_CPL. */
    method SetCompletion(status: nat, bcm: bool, bytes: nat, tag: nat, lowerAddr: nat) returns (thrown: bool)
      modifies this
      ensures thrown <==> (bytes == 0 || bytes > 4096 || tag >= 256 || lowerAddr >= 128)
      ensures !thrown ==>
        var f := old(st).(cplStatus := status, cplBcm := bcm, cplBytes := bytes, cplTag := tag, cplAddr := lowerAddr);
        st == if old(st).TypeCpl() then f else WithType(f, TYPE_CPL).0
      ensures thrown ==> st == old(st)
    {
      thrown := bytes == 0 || bytes > 4096 || tag >= 256 || lowerAddr >= 128;
      if !thrown {
        var _ := SetCompletionStatus(status);
        st := st.(cplBcm := bcm, cplBytes := bytes, cplTag := tag, cplAddr := lowerAddr);
        if !st.TypeCpl() {
          var _ := SetType(TYPE_CPL);
        }
      }
    }

    method SetBcm(bcm: bool)
      modifies this
      ensures st == old(st).(cplBcm := bcm)
    {
      st := st.(cplBcm := bcm);
    }

    method SetByteCount(bytes: nat) returns (thrown: bool)
      modifies this
      ensures thrown <==> (bytes == 0 || bytes > 4096)
      ensures st == if thrown then old(st) else old(st).(cplBytes := bytes)
    {
      thrown := bytes == 0 || bytes > 4096;
      if !thrown {
        st := st.(cplBytes := bytes);
      }
    }

    method SetLowerAddr(lowerAddr: nat) returns (thrown: bool)
      modifies this
      ensures thrown <==> lowerAddr >= 128
      ensures st == if thrown then old(st) else old(st).(cplAddr := lowerAddr)
    {
      thrown := lowerAddr >= 128;
      if !thrown {
        st := st.(cplAddr := lowerAddr);
      }
    }

    method SetCompletionTag(tag: nat) returns (thrown: bool)
      modifies this
      ensures thrown <==> tag >= 256
      ensures st == if thrown then old(st) else old(st).(cplTag := tag)
    {
      thrown := tag >= 256;
      if !thrown {
        st := st.(cplTag := tag);
      }
    }

    method SetByteEnables(first: nat, last: nat) returns (thrown: bool)
      modifies this
      ensures thrown <==> (first > 0xF || last > 0xF)
      ensures st == if thrown then old(st) else old(st).(beLast := last, beFirst := first)
    {
      thrown := first > 0xF || last > 0xF;
      if !thrown {
        st := st.(beLast := last, beFirst := first);
      }
    }

    /** set_address: dword aligned; a 4DW header exactly when an upper address bit is set, keeping the data choice. */
    method SetAddress(address: nat) returns (thrown: bool)
      requires address < UINT64_LIMIT
      modifies this
      ensures thrown <==> address % 4 != 0
      ensures !thrown ==>
        var upper := address >= UINT32_LIMIT;
        var f := if old(st).fmtData then (if upper then FMT_4DW_DATA else FMT_3DW_DATA)
                 else (if upper then FMT_4DW else FMT_3DW);
        st == WithFormat(old(st), f).(destAddr := address)
      ensures thrown ==> st == old(st)
    {
      thrown := address % 4 != 0;
      if !thrown {
        if address / UINT32_LIMIT != 0 {
          var _ := SetFormat(if st.fmtData then FMT_4DW_DATA else FMT_4DW);
        } else {
          var _ := SetFormat(if st.fmtData then FMT_3DW_DATA else FMT_3DW);
        }
        st := st.(destAddr := address);
      }
    }

    method SetDestination(id: nat) returns (thrown: bool)
      modifies this
      ensures thrown <==> id > 0xFFFF
      ensures st == if thrown then old(st) else old(st).(destId := id)
    {
      thrown := id > 0xFFFF;
      if !thrown {
        st := st.(destId := id);
      }
    }

    /**
     * set_data: the length becomes the word count (converted to unsigned int),
     * the format becomes the with-data variant of the current header size.
     */
    method SetData(dw: seq<nat>) returns (thrown: bool)
      modifies this
      ensures thrown <==> (|dw| % UINT32_LIMIT == 0 || |dw| % UINT32_LIMIT > 1024)
      ensures !thrown ==>
        var words := |dw| % UINT32_LIMIT;
        var f := old(st).(length := words, beLast := if words == 1 then 0 else old(st).beLast);
        st == WithFormat(f, if old(st).fmt4dw then FMT_4DW_DATA else FMT_3DW_DATA).(data := dw)
      ensures thrown ==> st == old(st)
    {
      thrown := SetLength(|dw| % UINT32_LIMIT);
      if !thrown {
        var _ := SetFormat(if st.fmt4dw then FMT_4DW_DATA else FMT_3DW_DATA);
        st := st.(data := dw);
      }
    }

    /** deserialize: rebuild the packet from dwords, in the steps of `Decode`. */
    method Deserialize(dw: seq<nat>) returns (r: Outcome)
      modifies this
      ensures st == Decode(dw).state
      ensures r == if Decode(dw).Throws? then Threw else Returned(Decode(dw).ok)
    {
      Clear();
      if |dw| == 0 {
        return Threw;
      }
      var d := dw[0];
      var _ := SetFormat(Field(d, 0x2000_0000, 4));
      if |dw| < st.fmtSize {
        st := st.(malformed := true);
        return Returned(false);
      }
      var known := SetType(Field(d, 0x100_0000, 32));
      if !known {
        st := st.(malformed := true);
        return Returned(false);
      }
      DecodeFirst(d);
      DecodeSecond(dw[1]);
      DecodeRouting(dw);
      DecodeData(dw);
      r := Returned(true);
    }

    /** Dword 0 of deserialize, once format and type are known; a length of 0 means 1024. */
    method DecodeFirst(d: nat)
      modifies this
      ensures st == DecodeDword0(old(st), d)
    {
      var td := FlagAt(d, 0x8000);
      var len := Field(d, 1, 1024);
      if len == 0 {
        len := 1024;
      }
      st := st.(tc := Field(d, 0x10_0000, 8), td := td, ep := FlagAt(d, 0x4000),
                attrRo := FlagAt(d, 0x2000), attrNs := FlagAt(d, 0x1000), length := len,
                digestSize := if td then 1 else 0);
    }

    /** Dword 1 of deserialize: the fields the type selects; a byte count of 0 means 4096. */
    method DecodeSecond(d: nat)
      modifies this
      ensures st == DecodeDword1(old(st), d)
    {
      var f := st;
      var srcTag, beLast, beFirst, msgCode := f.srcTag, f.beLast, f.beFirst, f.msgCode;
      var cplStatus, cplBcm, cplBytes := f.cplStatus, f.cplBcm, f.cplBytes;
      if f.TypeMem() || f.TypeIo() || f.TypeCfg() || f.TypeMsg() {
        srcTag := Field(d, 0x100, 0x100);
      }
      if f.TypeCpl() {
        cplStatus := Field(d, 0x2000, 8);
        cplBcm := FlagAt(d, 0x1000);
        cplBytes := Field(d, 1, 0x1000);
        if cplBytes == 0 {
          cplBytes := 4096;
        }
      }
      if f.TypeMem() || f.TypeIo() || f.TypeCfg() {
        beLast := Field(d, 0x10, 0x10);
        beFirst := Field(d, 1, 0x10);
      }
      if f.TypeMsg() {
        msgCode := Field(d, 1, 0x100);
      }
      st := f.(srcId := Field(d, 0x1_0000, 0x1_0000), srcTag := srcTag, cplStatus := cplStatus,
               cplBcm := cplBcm, cplBytes := cplBytes, beLast := beLast, beFirst := beFirst, msgCode := msgCode);
    }

    /** Dwords 2 and 3 of deserialize: the address (upper dword first in a 4DW header), then the ids. */
    method DecodeRouting(dw: seq<nat>)
      requires |dw| >= st.fmtSize >= 3 && (st.fmt4dw ==> st.fmtSize == 4)
      modifies this
      ensures st == DecodeAddress(old(st), dw)
    {
      var d := dw[2];
      if st.TypeMem() || st.TypeIo() || st.ty == TYPE_MSG_BY_ADDR {
        var upper := 0;
        if st.fmt4dw {
          upper := d;
          d := dw[3];
        }
        st := st.(destAddr := JoinAddress(upper, d));
      }
      DecodeIds(d);
    }

    /** The id fields of deserialize, read from dword `d`. */
    method DecodeIds(d: nat)
      modifies this
      ensures st == WithIds(old(st), d)
    {
      var f := st;
      var destId, cplTag, cplAddr, cfgReg := f.destId, f.cplTag, f.cplAddr, f.cfgReg;
      if f.TypeCfg() || f.TypeCpl() || f.ty == TYPE_MSG_BY_ID {
        destId := Field(d, 0x1_0000, 0x1_0000);
      }
      if f.TypeCpl() {
        cplTag := Field(d, 0x100, 0x100);
        cplAddr := Field(d, 1, 0x80);
      }
      if f.TypeCfg() {
        cfgReg := Field(d, 4, 0x400);
      }
      st := f.(destId := destId, cplTag := cplTag, cplAddr := cplAddr, cfgReg := cfgReg);
    }

    /** Payload and digest of deserialize. */
    method DecodeData(dw: seq<nat>)
      requires |dw| >= st.fmtSize
      modifies this
      ensures st == DecodePayload(old(st), dw)
    {
      var data, digest, malformed := st.data, st.digest, st.malformed;
      if st.fmtData || st.td {
        data := dw[st.fmtSize..];
      }
      if st.td {
        if |data| > 0 {
          digest := data[|data| - 1];
          data := data[..|data| - 1];
        } else {
          malformed := true;
        }
      }
      st := st.(data := data, digest := digest, malformed := malformed);
    }

    /** serialize: appends the packet's dwords to `dw`. */
    function Serialize(dw: seq<nat>): (out: seq<nat>)
      reads this
      ensures |out| == |dw| + |Serialized(st)|
      ensures out[..|dw|] == dw && out[|dw|..] == Serialized(st)
    {
      dw + Serialized(st)
    }

    /** validate: only a malformed packet fails; the other checks merely count assertions. */
    function Validate(): (ok: bool)
      reads this
      ensures ok <==> !st.malformed
    {
      !st.malformed
    }

    /** operator== against another packet, judged by this packet's type. */
    function Equals(other: Tlp): (eq: bool)
      reads this, other
      ensures eq <==> Equal(st, other.st)
    {
      Equal(st, other.st)
    }

    function IsWrite(): (w: bool)
      reads this
      ensures w <==> st.fmtData
    {
      st.fmtData
    }

    function IsRead(): (rd: bool)
      reads this
      ensures rd <==> !IsWrite()
    {
      !st.fmtData
    }

    function IsPosted(): (p: bool)
      reads this
      ensures p <==> IsWrite() && st.TypeMem()
    {
      st.TypeMem() && st.fmtData
    }

    function Size(): (n: nat)
      reads this
      ensures n == st.length
    {
      st.length
    }
  }
}
