/**
 * Properties of the transaction-layer packet codec: what set_format and
 * set_type derive, the layout serialize produces, deserialize's error paths,
 * and the round trip deserialize(serialize(t)) == t for every packet whose
 * fields fit their wire widths.
 */
module PcieTlpLemmas {
  import opened Bits
  import opened PcieTlp

  function B(b: bool): nat
  {
    if b then 1 else 0
  }

  /** The decoded fields agree with format and type, as set_format and set_type leave them. */
  predicate Derived(f: Fields)
  {
    && f.fmt4dw == (f.fmt == FMT_4DW || f.fmt == FMT_4DW_DATA)
    && f.fmtSize == (if f.fmt4dw then 4 else 3)
    && f.fmtData == (f.fmt == FMT_3DW_DATA || f.fmt == FMT_4DW_DATA)
    && f.cls == ClassOf(f.ty)
  }

  /**
   * Every field fits its wire width, the type code is one of the thirteen
   * defined ones, and a memory or I/O address is dword aligned and, in a 3DW
   * header, has no upper address bit set.
   */
  predicate Encodable(f: Fields)
  {
    && Derived(f) && f.fmt < 4 && IsTypeCode(f.ty)
    && f.tc < 8 && 1 <= f.length <= 1024 && f.srcId < 0x1_0000 && f.srcTag < 0x100
    && f.cplStatus < 8 && 1 <= f.cplBytes <= 4096 && f.cplTag < 0x100 && f.cplAddr < 0x80
    && f.beLast < 0x10 && f.beFirst < 0x10 && f.msgCode < 0x100
    && f.destId < 0x1_0000 && f.cfgReg < 0x400
    && (f.TypeMem() || f.TypeIo() ==>
          f.destAddr % 4 == 0 && f.destAddr < (if f.fmt4dw then UINT64_LIMIT else UINT32_LIMIT))
  }

  // ---------------------------------------------------------------------------
  // Reading a field back.

  /** A value placed at `scale` below `hi` and above `lo` is read back from its field. */
  lemma Extract(w: nat, lo: nat, v: nat, hi: nat, scale: nat, range: nat)
    requires scale > 0 && range > 0 && lo < scale && v < range
    requires w == lo + scale * (v + range * hi)
    ensures Field(w, scale, range) == v
  {
    DivModUnique(w, scale, v + range * hi, lo);
    DivModUnique(v + range * hi, range, hi, v);
  }

  lemma PutSmall(v: nat, scale: nat, range: nat)
    requires v < range
    ensures Put(v, scale, range) == v * scale
  {
    DivModUnique(v, range, 0, v);
  }

  lemma FlagBit(b: bool, w: nat, lo: nat, hi: nat, scale: nat)
    requires scale > 0 && lo < scale && w == lo + scale * (B(b) + 2 * hi)
    ensures FlagAt(w, scale) == b
  {
    Extract(w, lo, B(b), hi, scale, 2);
  }

  // ---------------------------------------------------------------------------
  // Dword 0.

  lemma Dword0Sum(f: Fields)
    requires f.fmt < 4 && f.ty < 32 && f.tc < 8 && 1 <= f.length <= 1024
    ensures Dword0(f) == f.fmt * 0x2000_0000 + f.ty * 0x100_0000 + f.tc * 0x10_0000
      + B(f.td) * 0x8000 + B(f.ep) * 0x4000 + B(f.attrRo) * 0x2000 + B(f.attrNs) * 0x1000
      + WireLength(f.length)
  {
    PutSmall(f.fmt, 0x2000_0000, 4);
    PutSmall(f.ty, 0x100_0000, 32);
    PutSmall(f.tc, 0x10_0000, 8);
    PutSmall(WireLength(f.length), 1, 1024);
  }

  /** Format, type and traffic class are read back from dword 0. */
  lemma Dword0Codes(f: Fields)
    requires f.fmt < 4 && f.ty < 32 && f.tc < 8 && 1 <= f.length <= 1024
    ensures Field(Dword0(f), 0x2000_0000, 4) == f.fmt
    ensures Field(Dword0(f), 0x100_0000, 32) == f.ty
    ensures Field(Dword0(f), 0x10_0000, 8) == f.tc
  {
    Dword0Sum(f);
    var w := Dword0(f);
    var flags := B(f.td) * 0x8000 + B(f.ep) * 0x4000 + B(f.attrRo) * 0x2000 + B(f.attrNs) * 0x1000
                 + WireLength(f.length);
    Extract(w, f.ty * 0x100_0000 + f.tc * 0x10_0000 + flags, f.fmt, 0, 0x2000_0000, 4);
    Extract(w, f.tc * 0x10_0000 + flags, f.ty, f.fmt, 0x100_0000, 32);
    Extract(w, flags, f.tc, 2 * f.ty + 64 * f.fmt, 0x10_0000, 8);
  }

  /** The four flag bits and the length are read back from dword 0 (a length of 1024 as 0). */
  lemma Dword0Flags(f: Fields)
    requires f.fmt < 4 && f.ty < 32 && f.tc < 8 && 1 <= f.length <= 1024
    ensures FlagAt(Dword0(f), 0x8000) == f.td
    ensures FlagAt(Dword0(f), 0x4000) == f.ep
    ensures FlagAt(Dword0(f), 0x2000) == f.attrRo
    ensures FlagAt(Dword0(f), 0x1000) == f.attrNs
    ensures Field(Dword0(f), 1, 1024) == WireLength(f.length)
  {
    Dword0Sum(f);
    var w := Dword0(f);
    var len := WireLength(f.length);
    var top := f.tc * 0x10 + f.ty * 0x100 + f.fmt * 0x2000;
    FlagBit(f.td, w, B(f.ep) * 0x4000 + B(f.attrRo) * 0x2000 + B(f.attrNs) * 0x1000 + len, top, 0x8000);
    FlagBit(f.ep, w, B(f.attrRo) * 0x2000 + B(f.attrNs) * 0x1000 + len, B(f.td) + 2 * top, 0x4000);
    FlagBit(f.attrRo, w, B(f.attrNs) * 0x1000 + len, B(f.ep) + 2 * B(f.td) + 4 * top, 0x2000);
    FlagBit(f.attrNs, w, len, B(f.attrRo) + 2 * B(f.ep) + 4 * B(f.td) + 8 * top, 0x1000);
    Extract(w, 0, len, 4 * B(f.attrNs) + 8 * B(f.attrRo) + 16 * B(f.ep) + 32 * B(f.td) + 64 * top, 1, 1024);
  }

  // ---------------------------------------------------------------------------
  // Dword 1, by type.

  /** Memory, I/O and configuration requests: requester id, tag, last and first byte enables. */
  lemma Dword1Request(f: Fields)
    requires f.cls == Mem || f.cls == Io || f.cls == Cfg
    requires f.srcId < 0x1_0000 && f.srcTag < 0x100 && f.beLast < 0x10 && f.beFirst < 0x10
    ensures Field(Dword1(f), 0x1_0000, 0x1_0000) == f.srcId
    ensures Field(Dword1(f), 0x100, 0x100) == f.srcTag
    ensures Field(Dword1(f), 0x10, 0x10) == f.beLast
    ensures Field(Dword1(f), 1, 0x10) == f.beFirst
  {
    PutSmall(f.srcId, 0x1_0000, 0x1_0000);
    PutSmall(f.srcTag, 0x100, 0x100);
    PutSmall(f.beLast, 0x10, 0x10);
    PutSmall(f.beFirst, 1, 0x10);
    var w := Dword1(f);
    assert w == f.srcId * 0x1_0000 + f.srcTag * 0x100 + f.beLast * 0x10 + f.beFirst;
    Extract(w, f.srcTag * 0x100 + f.beLast * 0x10 + f.beFirst, f.srcId, 0, 0x1_0000, 0x1_0000);
    Extract(w, f.beLast * 0x10 + f.beFirst, f.srcTag, f.srcId, 0x100, 0x100);
    Extract(w, f.beFirst, f.beLast, f.srcTag + 0x100 * f.srcId, 0x10, 0x10);
    Extract(w, 0, f.beFirst, f.beLast + 0x10 * f.srcTag + 0x1000 * f.srcId, 1, 0x10);
  }

  /** Messages: requester id, tag and message code. */
  lemma Dword1Message(f: Fields)
    requires f.cls == Msg
    requires f.srcId < 0x1_0000 && f.srcTag < 0x100 && f.msgCode < 0x100
    ensures Field(Dword1(f), 0x1_0000, 0x1_0000) == f.srcId
    ensures Field(Dword1(f), 0x100, 0x100) == f.srcTag
    ensures Field(Dword1(f), 1, 0x100) == f.msgCode
  {
    PutSmall(f.srcId, 0x1_0000, 0x1_0000);
    PutSmall(f.srcTag, 0x100, 0x100);
    PutSmall(f.msgCode, 1, 0x100);
    var w := Dword1(f);
    assert w == f.srcId * 0x1_0000 + f.srcTag * 0x100 + f.msgCode;
    Extract(w, f.srcTag * 0x100 + f.msgCode, f.srcId, 0, 0x1_0000, 0x1_0000);
    Extract(w, f.msgCode, f.srcTag, f.srcId, 0x100, 0x100);
    Extract(w, 0, f.msgCode, f.srcTag + 0x100 * f.srcId, 1, 0x100);
  }

  /** Completions: completer id, status, BCM and byte count (4096 as 0). */
  lemma Dword1Completion(f: Fields)
    requires f.cls == Cpl
    requires f.srcId < 0x1_0000 && f.cplStatus < 8 && 1 <= f.cplBytes <= 4096
    ensures Field(Dword1(f), 0x1_0000, 0x1_0000) == f.srcId
    ensures Field(Dword1(f), 0x2000, 8) == f.cplStatus
    ensures FlagAt(Dword1(f), 0x1000) == f.cplBcm
    ensures Field(Dword1(f), 1, 0x1000) == WireByteCount(f.cplBytes)
  {
    var bytes := WireByteCount(f.cplBytes);
    PutSmall(f.srcId, 0x1_0000, 0x1_0000);
    PutSmall(f.cplStatus, 0x2000, 8);
    PutSmall(bytes, 1, 0x1000);
    var w := Dword1(f);
    assert w == f.srcId * 0x1_0000 + f.cplStatus * 0x2000 + B(f.cplBcm) * 0x1000 + bytes;
    Extract(w, f.cplStatus * 0x2000 + B(f.cplBcm) * 0x1000 + bytes, f.srcId, 0, 0x1_0000, 0x1_0000);
    Extract(w, B(f.cplBcm) * 0x1000 + bytes, f.cplStatus, f.srcId, 0x2000, 8);
    FlagBit(f.cplBcm, w, bytes, f.cplStatus + 8 * f.srcId, 0x1000);
    Extract(w, 0, bytes, B(f.cplBcm) + 2 * f.cplStatus + 16 * f.srcId, 1, 0x1000);
  }

  // ---------------------------------------------------------------------------
  // Dwords 2 and 3.

  /** Configuration requests: destination id and register number. */
  lemma IdDwordConfig(f: Fields)
    requires f.cls == Cfg && f.destId < 0x1_0000 && f.cfgReg < 0x400
    ensures Field(IdDword(f), 0x1_0000, 0x1_0000) == f.destId
    ensures Field(IdDword(f), 4, 0x400) == f.cfgReg
  {
    PutSmall(f.destId, 0x1_0000, 0x1_0000);
    PutSmall(f.cfgReg, 4, 0x400);
    var w := IdDword(f);
    assert w == f.destId * 0x1_0000 + f.cfgReg * 4;
    Extract(w, f.cfgReg * 4, f.destId, 0, 0x1_0000, 0x1_0000);
    Extract(w, 0, f.cfgReg, 0x10 * f.destId, 4, 0x400);
  }

  /** Completions: requester id, tag and lower address. */
  lemma IdDwordCompletion(f: Fields)
    requires f.cls == Cpl && f.destId < 0x1_0000 && f.cplTag < 0x100 && f.cplAddr < 0x80
    ensures Field(IdDword(f), 0x1_0000, 0x1_0000) == f.destId
    ensures Field(IdDword(f), 0x100, 0x100) == f.cplTag
    ensures Field(IdDword(f), 1, 0x80) == f.cplAddr
  {
    PutSmall(f.destId, 0x1_0000, 0x1_0000);
    PutSmall(f.cplTag, 0x100, 0x100);
    PutSmall(f.cplAddr, 1, 0x80);
    var w := IdDword(f);
    assert w == f.destId * 0x1_0000 + f.cplTag * 0x100 + f.cplAddr;
    Extract(w, f.cplTag * 0x100 + f.cplAddr, f.destId, 0, 0x1_0000, 0x1_0000);
    Extract(w, f.cplAddr, f.cplTag, f.destId, 0x100, 0x100);
    Extract(w, 0, f.cplAddr, 2 * f.cplTag + 0x200 * f.destId, 1, 0x80);
  }

  /** A dword-aligned 64-bit address survives being split into an upper and a lower dword. */
  lemma AddressSplit(a: nat)
    requires a % 4 == 0 && a < UINT64_LIMIT
    ensures JoinAddress(a / UINT32_LIMIT % UINT32_LIMIT, a % UINT32_LIMIT / 4 * 4) == a
  {
    var hi, lo := a / UINT32_LIMIT, a % UINT32_LIMIT;
    DivModUnique(hi, UINT32_LIMIT, 0, hi);
    DivModUnique(a, 4, hi * 0x4000_0000 + lo / 4, 0);
    assert lo / 4 * 4 == lo;
    Extract(lo, 0, lo / 4, 0, 4, 0x4000_0000);
  }

  /** A dword-aligned address below 2^32 survives a 3DW header. */
  lemma AddressLow(a: nat)
    requires a % 4 == 0 && a < UINT32_LIMIT
    ensures JoinAddress(0, a % UINT32_LIMIT / 4 * 4) == a
  {
    DivModUnique(a, UINT32_LIMIT, 0, a);
    Extract(a, 0, a / 4, 0, 4, 0x4000_0000);
  }

  // ---------------------------------------------------------------------------
  // The round trip.

  /** The fields operator== compares first, and the decoded ones, agree. */
  predicate SameHeader(g: Fields, f: Fields)
  {
    && g.fmt == f.fmt && g.ty == f.ty && g.tc == f.tc && g.td == f.td && g.ep == f.ep
    && g.attrRo == f.attrRo && g.attrNs == f.attrNs && g.length == f.length
    && g.fmtSize == f.fmtSize && g.fmt4dw == f.fmt4dw && g.fmtData == f.fmtData && g.cls == f.cls
  }

  /** The packet after deserialize has decoded format, type and dword 0 of a serialized `f`. */
  function HeaderStage(f: Fields): Fields
  {
    DecodeDword0(WithType(WithFormat(Cleared(), f.fmt), f.ty).0, Dword0(f))
  }

  /** Decoding dword 0 of a serialized packet gives back format, type and the header fields. */
  lemma HeaderRoundTrip(f: Fields)
    requires Encodable(f)
    ensures Field(Dword0(f), 0x2000_0000, 4) == f.fmt && Field(Dword0(f), 0x100_0000, 32) == f.ty
    ensures SameHeader(HeaderStage(f), f) && !HeaderStage(f).malformed
  {
    Dword0Codes(f);
    Dword0Flags(f);
  }

  /** deserialize accepts every serialized packet and runs through all of its stages. */
  lemma DecodeSerialized(f: Fields)
    requires Encodable(f)
    ensures SameHeader(HeaderStage(f), f)
    ensures var ws := Serialized(f);
            |ws| >= f.fmtSize &&
            Decode(ws) == Returns(true, DecodePayload(DecodeAddress(DecodeDword1(HeaderStage(f), ws[1]), ws), ws))
  {
    HeaderRoundTrip(f);
  }

  /** Dword 1 of a serialized memory, I/O or configuration request decodes to its requester id, tag and byte enables. */
  lemma Dword1RoundTripRequest(f: Fields, g: Fields)
    requires Encodable(f) && g.cls == f.cls && (f.cls == Mem || f.cls == Io || f.cls == Cfg)
    ensures DecodeDword1(g, Dword1(f)) == g.(srcId := f.srcId, srcTag := f.srcTag, beLast := f.beLast, beFirst := f.beFirst)
  {
    Dword1Request(f);
  }

  /** Dword 1 of a serialized message decodes to its requester id, tag and message code. */
  lemma Dword1RoundTripMessage(f: Fields, g: Fields)
    requires Encodable(f) && g.cls == f.cls && f.cls == Msg
    ensures DecodeDword1(g, Dword1(f)) == g.(srcId := f.srcId, srcTag := f.srcTag, msgCode := f.msgCode)
  {
    Dword1Message(f);
  }

  /** Dword 1 of a serialized completion decodes to its completer id, status, BCM and byte count. */
  lemma Dword1RoundTripCompletion(f: Fields, g: Fields)
    requires Encodable(f) && g.cls == f.cls && f.cls == Cpl
    ensures DecodeDword1(g, Dword1(f)) ==
            g.(srcId := f.srcId, cplStatus := f.cplStatus, cplBcm := f.cplBcm, cplBytes := f.cplBytes)
  {
    Dword1Completion(f);
  }

  /** The routing dwords of a serialized memory or I/O request decode to its address. */
  lemma RoutingRoundTripAddress(f: Fields, g: Fields, ws: seq<nat>)
    requires Encodable(f) && SameHeader(g, f) && (f.cls == Mem || f.cls == Io)
    requires |ws| >= f.fmtSize && ws[2..f.fmtSize] == AddressDwords(f)
    ensures DecodeAddress(g, ws) == g.(destAddr := f.destAddr)
  {
    var a := f.destAddr;
    if f.fmt4dw {
      assert ws[2] == a / UINT32_LIMIT % UINT32_LIMIT && ws[3] == a % UINT32_LIMIT / 4 * 4;
      AddressSplit(a);
      assert JoinAddress(ws[2], RoutingDword(g, ws)) == a;
    } else {
      assert ws[2] == a % UINT32_LIMIT / 4 * 4;
      AddressLow(a);
      assert JoinAddress(0, RoutingDword(g, ws)) == a;
    }
    assert WithAddress(g, ws) == g.(destAddr := a);
  }

  /** The routing dword of a serialized configuration request decodes to its destination id and register. */
  lemma RoutingRoundTripConfig(f: Fields, g: Fields, ws: seq<nat>)
    requires Encodable(f) && SameHeader(g, f) && f.cls == Cfg
    requires |ws| >= f.fmtSize && ws[2..f.fmtSize] == AddressDwords(f)
    ensures DecodeAddress(g, ws) == g.(destId := f.destId, cfgReg := f.cfgReg)
  {
    assert ws[2] == AddressDwords(f)[0];
    IdDwordConfig(f);
  }

  /** The routing dword of a serialized completion decodes to its requester id, tag and lower address. */
  lemma RoutingRoundTripCompletion(f: Fields, g: Fields, ws: seq<nat>)
    requires Encodable(f) && SameHeader(g, f) && f.cls == Cpl
    requires |ws| >= f.fmtSize && ws[2..f.fmtSize] == AddressDwords(f)
    ensures DecodeAddress(g, ws) == g.(destId := f.destId, cplTag := f.cplTag, cplAddr := f.cplAddr)
  {
    assert ws[2] == AddressDwords(f)[0];
    IdDwordCompletion(f);
  }

  /** Decoding the routing dwords of a message touches only the address and destination id, which == ignores. */
  lemma RoutingMessage(g: Fields, ws: seq<nat>)
    requires g.cls == Msg && |ws| >= g.fmtSize >= 3 && (g.fmt4dw ==> g.fmtSize == 4)
    ensures var h := DecodeAddress(g, ws); h == g.(destAddr := h.destAddr, destId := h.destId)
  {
    AddressOnly(g, ws);
    MessageIds(WithAddress(g, ws), RoutingDword(g, ws));
  }

  /** Decoding the address dwords touches only the address. */
  lemma AddressOnly(g: Fields, ws: seq<nat>)
    requires |ws| >= g.fmtSize >= 3 && (g.fmt4dw ==> g.fmtSize == 4)
    ensures var a := WithAddress(g, ws); a == g.(destAddr := a.destAddr)
  {
    if !AddressRouted(g) {
      assert WithAddress(g, ws) == g;
    }
  }

  /** Decoding the id dword of a message touches only the destination id. */
  lemma MessageIds(a: Fields, d: nat)
    requires a.cls == Msg
    ensures var h := WithIds(a, d); h == a.(destId := h.destId)
  {
  }

  /** Decoding the rest of a serialized packet gives back the payload and the digest. */
  lemma PayloadRoundTrip(f: Fields, g: Fields, ws: seq<nat>)
    requires g.fmtSize == f.fmtSize && g.fmtData == f.fmtData && g.td == f.td && |ws| >= f.fmtSize
    requires ws[f.fmtSize..] == (if f.fmtData then f.data else []) + (if f.td then [f.digest] else [])
    ensures var h := DecodePayload(g, ws);
            && h.malformed == g.malformed
            && (f.fmtData ==> h.data == f.data)
            && (f.td ==> h.digest == f.digest)
            && h == g.(data := h.data, digest := h.digest)
  {
    var rest := ws[f.fmtSize..];
    if f.td {
      assert rest[..|rest| - 1] == (if f.fmtData then f.data else []);
    }
  }

  /** The words of a serialized packet, split into dword 1, the routing dwords and the rest. */
  predicate LaidOut(f: Fields, ws: seq<nat>)
  {
    && |ws| >= f.fmtSize >= 3
    && ws[1] == Dword1(f)
    && ws[2..f.fmtSize] == AddressDwords(f)
    && ws[f.fmtSize..] == (if f.fmtData then f.data else []) + (if f.td then [f.digest] else [])
  }

  /** serialize lays a packet out as header, routing dwords, payload and digest. */
  lemma SerializedLaidOut(f: Fields)
    requires Derived(f)
    ensures Serialized(f)[0] == Dword0(f) && LaidOut(f, Serialized(f))
  {
    var ws := Serialized(f);
    assert ws[1] == Dword1(f);
    assert ws[2..f.fmtSize] == AddressDwords(f);
    assert ws[f.fmtSize..] == (if f.fmtData then f.data else []) + (if f.td then [f.digest] else []);
  }

  /** What the stages of a memory or I/O request leave equals the packet. */
  lemma EqualAddressed(f: Fields, f3: Fields, f4: Fields, f5: Fields, h: Fields)
    requires Encodable(f) && (f.cls == Mem || f.cls == Io)
    requires SameHeader(f3, f) && !f3.malformed
    requires f4 == f3.(srcId := f.srcId, srcTag := f.srcTag, beLast := f.beLast, beFirst := f.beFirst)
    requires f5 == f4.(destAddr := f.destAddr)
    requires h == f5.(data := h.data, digest := h.digest)
    requires (f.fmtData ==> h.data == f.data) && (f.td ==> h.digest == f.digest)
    ensures !h.malformed && Equal(h, f)
  {
  }

  /** What the stages of a configuration request leave equals the packet. */
  lemma EqualConfig(f: Fields, f3: Fields, f4: Fields, f5: Fields, h: Fields)
    requires Encodable(f) && f.cls == Cfg
    requires SameHeader(f3, f) && !f3.malformed
    requires f4 == f3.(srcId := f.srcId, srcTag := f.srcTag, beLast := f.beLast, beFirst := f.beFirst)
    requires f5 == f4.(destId := f.destId, cfgReg := f.cfgReg)
    requires h == f5.(data := h.data, digest := h.digest)
    requires (f.fmtData ==> h.data == f.data) && (f.td ==> h.digest == f.digest)
    ensures !h.malformed && Equal(h, f)
  {
  }

  /** What the stages of a message leave equals the packet. */
  lemma EqualMessage(f: Fields, f3: Fields, f4: Fields, f5: Fields, h: Fields)
    requires Encodable(f) && f.cls == Msg
    requires SameHeader(f3, f) && !f3.malformed
    requires f4 == f3.(srcId := f.srcId, srcTag := f.srcTag, msgCode := f.msgCode)
    requires f5 == f4.(destAddr := f5.destAddr, destId := f5.destId)
    requires h == f5.(data := h.data, digest := h.digest)
    requires (f.fmtData ==> h.data == f.data) && (f.td ==> h.digest == f.digest)
    ensures !h.malformed && Equal(h, f)
  {
  }

  /** What the stages of a completion leave equals the packet. */
  lemma EqualCompletion(f: Fields, f3: Fields, f4: Fields, f5: Fields, h: Fields)
    requires Encodable(f) && f.cls == Cpl
    requires SameHeader(f3, f) && !f3.malformed
    requires f4 == f3.(srcId := f.srcId, cplStatus := f.cplStatus, cplBcm := f.cplBcm, cplBytes := f.cplBytes)
    requires f5 == f4.(destId := f.destId, cplTag := f.cplTag, cplAddr := f.cplAddr)
    requires h == f5.(data := h.data, digest := h.digest)
    requires (f.fmtData ==> h.data == f.data) && (f.td ==> h.digest == f.digest)
    ensures !h.malformed && Equal(h, f)
  {
  }

  /** The stages after dword 0 give back a memory or I/O request. */
  lemma RoundTripAddressed(f: Fields, f3: Fields, ws: seq<nat>)
    requires Encodable(f) && (f.cls == Mem || f.cls == Io) && LaidOut(f, ws)
    requires SameHeader(f3, f) && !f3.malformed
    ensures var h := DecodePayload(DecodeAddress(DecodeDword1(f3, ws[1]), ws), ws);
            !h.malformed && Equal(h, f)
  {
    Dword1RoundTripRequest(f, f3);
    var f4 := DecodeDword1(f3, ws[1]);
    RoutingRoundTripAddress(f, f4, ws);
    var f5 := DecodeAddress(f4, ws);
    PayloadRoundTrip(f, f5, ws);
    EqualAddressed(f, f3, f4, f5, DecodePayload(f5, ws));
  }

  /** The stages after dword 0 give back a configuration request. */
  lemma RoundTripConfig(f: Fields, f3: Fields, ws: seq<nat>)
    requires Encodable(f) && f.cls == Cfg && LaidOut(f, ws)
    requires SameHeader(f3, f) && !f3.malformed
    ensures var h := DecodePayload(DecodeAddress(DecodeDword1(f3, ws[1]), ws), ws);
            !h.malformed && Equal(h, f)
  {
    Dword1RoundTripRequest(f, f3);
    var f4 := DecodeDword1(f3, ws[1]);
    RoutingRoundTripConfig(f, f4, ws);
    var f5 := DecodeAddress(f4, ws);
    PayloadRoundTrip(f, f5, ws);
    EqualConfig(f, f3, f4, f5, DecodePayload(f5, ws));
  }

  /** The stages after dword 0 give back a message. */
  lemma RoundTripMessage(f: Fields, f3: Fields, ws: seq<nat>)
    requires Encodable(f) && f.cls == Msg && LaidOut(f, ws)
    requires SameHeader(f3, f) && !f3.malformed
    ensures var h := DecodePayload(DecodeAddress(DecodeDword1(f3, ws[1]), ws), ws);
            !h.malformed && Equal(h, f)
  {
    Dword1RoundTripMessage(f, f3);
    var f4 := DecodeDword1(f3, ws[1]);
    RoutingMessage(f4, ws);
    var f5 := DecodeAddress(f4, ws);
    PayloadRoundTrip(f, f5, ws);
    EqualMessage(f, f3, f4, f5, DecodePayload(f5, ws));
  }

  /** The stages after dword 0 give back a completion. */
  lemma RoundTripCompletion(f: Fields, f3: Fields, ws: seq<nat>)
    requires Encodable(f) && f.cls == Cpl && LaidOut(f, ws)
    requires SameHeader(f3, f) && !f3.malformed
    ensures var h := DecodePayload(DecodeAddress(DecodeDword1(f3, ws[1]), ws), ws);
            !h.malformed && Equal(h, f)
  {
    Dword1RoundTripCompletion(f, f3);
    var f4 := DecodeDword1(f3, ws[1]);
    RoutingRoundTripCompletion(f, f4, ws);
    var f5 := DecodeAddress(f4, ws);
    PayloadRoundTrip(f, f5, ws);
    EqualCompletion(f, f3, f4, f5, DecodePayload(f5, ws));
  }

  /**
   * deserialize(serialize(t)) returns true, leaves the packet well formed, and
   * the result == t, for every packet whose fields fit their wire widths.
   */
  lemma RoundTrip(f: Fields)
    requires Encodable(f)
    ensures Decode(Serialized(f)).Returns? && Decode(Serialized(f)).ok
    ensures !Decode(Serialized(f)).state.malformed
    ensures Equal(Decode(Serialized(f)).state, f)
  {
    var ws := Serialized(f);
    DecodeSerialized(f);
    HeaderRoundTrip(f);
    SerializedLaidOut(f);
    match f.cls
    case Mem => RoundTripAddressed(f, HeaderStage(f), ws);
    case Io => RoundTripAddressed(f, HeaderStage(f), ws);
    case Cfg => RoundTripConfig(f, HeaderStage(f), ws);
    case Msg => RoundTripMessage(f, HeaderStage(f), ws);
    case Cpl => RoundTripCompletion(f, HeaderStage(f), ws);
  }

  // ---------------------------------------------------------------------------
  // deserialize on arbitrary input.

  /** The number of header dwords a format code announces. */
  function HeaderWords(fm: nat): nat
  {
    if fm == FMT_4DW || fm == FMT_4DW_DATA then 4 else 3
  }

  /**
   * deserialize throws exactly on empty input, and returns false exactly when
   * the input is shorter than its header or the type code is reserved; a false
   * result always leaves the packet malformed.
   */
  lemma DecodeRejects(dw: seq<nat>)
    ensures Decode(dw).Throws? <==> |dw| == 0
    ensures Decode(dw).Throws? ==> Decode(dw).state == Cleared()
    ensures Decode(dw).Returns? && !Decode(dw).ok <==>
              |dw| > 0 && (|dw| < HeaderWords(Field(dw[0], 0x2000_0000, 4)) || !IsTypeCode(Field(dw[0], 0x100_0000, 32)))
    ensures Decode(dw).Returns? && !Decode(dw).ok ==> Decode(dw).state.malformed
  {
    if |dw| > 0 {
      var f1 := WithFormat(Cleared(), Field(dw[0], 0x2000_0000, 4));
      assert f1.fmtSize == HeaderWords(Field(dw[0], 0x2000_0000, 4));
    }
  }

  /** The packet deserialize has decoded format and type of, before the field stages. */
  function TypedStage(dw: seq<nat>): Fields
    requires |dw| > 0
  {
    WithType(WithFormat(Cleared(), Field(dw[0], 0x2000_0000, 4)), Field(dw[0], 0x100_0000, 32)).0
  }

  /** An accepted input runs through every stage of deserialize. */
  lemma DecodeAccepted(dw: seq<nat>)
    requires Decode(dw).Returns? && Decode(dw).ok
    ensures |dw| >= TypedStage(dw).fmtSize >= 3 && (TypedStage(dw).fmt4dw ==> TypedStage(dw).fmtSize == 4)
    ensures Decode(dw).state ==
            DecodePayload(DecodeAddress(DecodeDword1(DecodeDword0(TypedStage(dw), dw[0]), dw[1]), dw), dw)
  {
  }

  /** Decoding the routing dwords touches only the address and the id fields. */
  lemma AddressFrame(g: Fields, ws: seq<nat>)
    requires |ws| >= g.fmtSize >= 3 && (g.fmt4dw ==> g.fmtSize == 4)
    ensures var h := DecodeAddress(g, ws);
            h == g.(destAddr := h.destAddr, destId := h.destId, cplTag := h.cplTag, cplAddr := h.cplAddr, cfgReg := h.cfgReg)
  {
    AddressOnly(g, ws);
  }

  /** Decoding the payload keeps the header and sets malformed only for a missing digest. */
  lemma PayloadFrame(g: Fields, ws: seq<nat>)
    requires |ws| >= g.fmtSize
    ensures var h := DecodePayload(g, ws);
            && h.length == g.length && h.cls == g.cls && h.cplBytes == g.cplBytes
            && h.td == g.td && h.fmtSize == g.fmtSize
            && (h.malformed <==> g.malformed || (g.td && |ws| == g.fmtSize))
  {
  }

  /**
   * An accepted packet has a length in 1..1024 whose low ten bits are the wire
   * length (so 0 reads as 1024), and a completion has a byte count in 1..4096
   * whose low twelve bits are the wire byte count (so 0 reads as 4096).
   */
  lemma DecodeCounts(dw: seq<nat>)
    requires Decode(dw).Returns? && Decode(dw).ok
    ensures 1 <= Decode(dw).state.length <= 1024
    ensures Decode(dw).state.length % 1024 == Field(dw[0], 1, 1024)
    ensures Decode(dw).state.TypeCpl() ==>
              1 <= Decode(dw).state.cplBytes <= 4096 && Decode(dw).state.cplBytes % 4096 == Field(dw[1], 1, 0x1000)
  {
    DecodeAccepted(dw);
    var f3 := DecodeDword0(TypedStage(dw), dw[0]);
    var f4 := DecodeDword1(f3, dw[1]);
    AddressFrame(f4, dw);
    PayloadFrame(DecodeAddress(f4, dw), dw);
  }

  /**
   * An accepted packet is malformed exactly when it announces a digest and no
   * word follows the header; it then still returns true.
   */
  lemma DecodeMissingDigest(dw: seq<nat>)
    requires Decode(dw).Returns? && Decode(dw).ok
    ensures Decode(dw).state.malformed <==> Decode(dw).state.td && |dw| == Decode(dw).state.fmtSize
  {
    DecodeAccepted(dw);
    var f3 := DecodeDword0(TypedStage(dw), dw[0]);
    var f4 := DecodeDword1(f3, dw[1]);
    AddressFrame(f4, dw);
    PayloadFrame(DecodeAddress(f4, dw), dw);
  }

  /** serialize writes length 1024 as 0 and, in a completion, byte count 4096 as 0. */
  lemma SerializedCounts(f: Fields)
    requires Encodable(f)
    ensures Field(Serialized(f)[0], 1, 1024) == f.length % 1024
    ensures f.cls == Cpl ==> Field(Serialized(f)[1], 1, 0x1000) == f.cplBytes % 4096
  {
    SerializedLaidOut(f);
    Dword0Flags(f);
    WireLengthMod(f.length);
    if f.cls == Cpl {
      Dword1Completion(f);
      WireByteCountMod(f.cplBytes);
    }
  }

  /** A length of 1 .. 1024 dwords is written as the length modulo 1024. */
  lemma WireLengthMod(n: nat)
    requires 1 <= n <= 1024
    ensures WireLength(n) == n % 1024
  {
  }

  /** A byte count of 1 .. 4096 is written as the count modulo 4096. */
  lemma WireByteCountMod(n: nat)
    requires 1 <= n <= 4096
    ensures WireByteCount(n) == n % 4096
  {
  }

  // ---------------------------------------------------------------------------
  // The packet object's queries, against the wire form.

  /**
   * A write is a packet whose serialized form carries size() payload dwords
   * after its header, and whose length field announces them; a read carries
   * none.
   */
  lemma WriteCarriesPayload(t: Tlp)
    requires Encodable(t.st) && |t.st.data| == t.Size()
    ensures t.IsWrite() <==> t.st.fmt == FMT_3DW_DATA || t.st.fmt == FMT_4DW_DATA
    ensures t.IsRead() <==> t.st.fmt == FMT_3DW || t.st.fmt == FMT_4DW
    ensures |t.Serialize([])| == t.st.fmtSize + (if t.IsWrite() then t.Size() else 0) + (if t.st.td then 1 else 0)
    ensures t.IsWrite() ==> t.Serialize([])[t.st.fmtSize..t.st.fmtSize + t.Size()] == t.st.data
    ensures Field(t.Serialize([])[0], 1, 1024) == t.Size() % 1024
  {
    SerializedLaidOut(t.st);
    SerializedCounts(t.st);
  }

  /**
   * After deserialize returns, validate fails exactly when the header was
   * short or of a reserved type, or when the announced digest dword is
   * missing.
   */
  lemma ValidateAfterDeserialize(t: Tlp, dw: seq<nat>)
    requires Decode(dw).Returns? && t.st == Decode(dw).state
    ensures !t.Validate() <==>
              || |dw| < HeaderWords(Field(dw[0], 0x2000_0000, 4))
              || !IsTypeCode(Field(dw[0], 0x100_0000, 32))
              || (t.st.td && |dw| == t.st.fmtSize)
    ensures t.Validate() ==> Decode(dw).ok
  {
    DecodeRejects(dw);
    if Decode(dw).ok {
      DecodeMissingDigest(dw);
    }
  }

  /**
   * operator== is reflexive, and a packet deserialized from another's
   * serialization validates and equals it.
   */
  lemma EqualsAfterRoundTrip(t: Tlp, u: Tlp)
    requires Encodable(t.st) && u.st == Decode(Serialized(t.st)).state
    ensures t.Equals(t) && u.Equals(t) && u.Validate()
  {
    RoundTrip(t.st);
  }

  /**
   * is_posted agrees with the non_posted flag set_format and set_type
   * derive, in either order: a posted packet is a memory request that is
   * not non-posted, that is a memory write.
   */
  lemma PostedAfterSetters(t: Tlp, f: Fields, fm: nat, ty: nat)
    requires t.st == WithType(WithFormat(f, fm), ty).0 || t.st == WithFormat(WithType(f, ty).0, fm)
    ensures t.IsPosted() <==> t.st.TypeMem() && !t.st.nonPosted
    ensures t.IsPosted() <==> IsMemCode(ty) && (fm == FMT_3DW_DATA || fm == FMT_4DW_DATA)
  {
  }
}
