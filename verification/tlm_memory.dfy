/**
 * dlsc_tlm_memory: a sparse memory target. Storage is a map from block key
 * to a 2 MiB block created on first touch and filled with an address
 * pattern; the memory serves generic-payload transfers (optionally strobed
 * and delayed by a bandwidth model), debug transfers, DMI requests and a
 * backdoor word interface.
 *
 * Addresses are kept as unbounded naturals. The C++ code wraps them at
 * 2^64, which changes neither the location (address modulo mem_size) nor
 * the offset in a block (address modulo the block size), because both
 * moduli divide 2^64.
 */
module TlmMemory {
  import opened Bits
  import opened Tlm
  import DlscMain
  import DlscBv

  /** block_size: every block holds 2 MiB. */
  const BLOCK_SIZE: nat := 0x20_0000

  // ---------------------------------------------------------------------------
  // Arithmetic.

  /** A product with a positive integer factor is at least the other factor. */
  lemma MulAtLeast(k: int, m: nat)
    requires k >= 1
    ensures k * m >= m
  {
    MulMonotone(1, k, m);
  }

  /** Euclidean remainder on integers is determined by an in-range remainder. */
  lemma ModShift(y: int, q: int, m: nat)
    requires m > 0 && 0 <= y < m
    ensures (y + q * m) % m == y
  {
    var x := y + q * m;
    var q' := x / m;
    var r' := x % m;
    assert x == q' * m + r';
    assert (q - q') * m == q * m - q' * m;
    assert (q' - q) * m == q' * m - q * m;
    if q' < q {
      MulAtLeast(q - q', m);
    } else if q' > q {
      MulAtLeast(q' - q, m);
    }
  }

  /** Adding a small amount to a remainder that stays below m commutes with the remainder. */
  lemma ModAddSmall(x: nat, y: nat, m: nat)
    requires m > 0 && x % m + y < m
    ensures (x + y) % m == x % m + y
  {
    ModShift(x % m + y, x / m, m);
    assert x % m + y + (x / m) * m == x + y;
  }

  /** Reducing modulo a multiple of b first does not change the remainder modulo b. */
  lemma ModMod(x: nat, m: nat, b: nat)
    requires b > 0 && m > 0 && m % b == 0
    ensures (x % m) % b == x % b
  {
    var t := m / b;
    assert m == t * b;
    ModShift((x % m) % b, (x % m) / b + (x / m) * t, b);
    calc {
      (x % m) % b + ((x % m) / b + (x / m) * t) * b;
      (x % m) % b + (x % m) / b * b + (x / m) * (t * b);
      x % m + (x / m) * m;
      x;
    }
  }

  /** Distinct offsets below m from the same start land on distinct remainders. */
  lemma ModDistinct(s: nat, i: nat, j: nat, m: nat)
    requires i < j < m
    ensures (s + i) % m != (s + j) % m
  {
    if (s + i) % m == (s + j) % m {
      var qi := (s + i) / m;
      var qj := (s + j) / m;
      assert s + i == qi * m + (s + i) % m;
      assert s + j == qj * m + (s + j) % m;
      assert (qj - qi) * m == qj * m - qi * m;
      if qj - qi <= 0 {
        MulMonotone(0, qi - qj, m);
      } else {
        MulAtLeast(qj - qi, m);
      }
    }
  }

  /** 2^21 is the block size. */
  lemma BlockSizeIsPow2()
    ensures Pow2(21) == BLOCK_SIZE
  {
    assert Pow2(4) == 16;
    Pow2Add(4, 4);
    Pow2Add(8, 8);
    assert Pow2(16) == 0x1_0000;
    assert Pow2(21) == 32 * Pow2(16);
  }

  // ---------------------------------------------------------------------------
  // Address arithmetic.

  /** a rounded down to a multiple of w: the effect of `a & ~(w-1)` for a power-of-two w. */
  function AlignDown(a: nat, w: nat): (r: nat)
    requires w >= 1
    ensures r <= a < r + w && r % w == 0
  {
    DivModUnique(a - a % w, w, a / w, 0);
    a - a % w
  }

  /** Clearing the k low bits of a 64-bit value with `& ~(2^k-1)` rounds it down to a multiple of 2^k. */
  lemma AlignDownMask(a: nat, k: nat)
    requires a < UINT64_LIMIT && k <= 64
    ensures Pow2(k) - 1 < Pow2(64)
    ensures And(a, Not(Pow2(k) - 1, 64)) == AlignDown(a, Pow2(k))
  {
    DlscBv.Pow2Limits();
    Pow2Monotone(k, 64);
    assert Not(Pow2(k) - 1, 64) == HighMask(64, k);
    AndHighMask(a, 64, k);
  }

  /** The last byte address of a transfer, `addr + length - 1` in 64-bit arithmetic. */
  function LastAddress(addr: nat, length: nat): (e: nat)
    ensures e < UINT64_LIMIT
  {
    (addr + length + UINT64_LIMIT - 1) % UINT64_LIMIT
  }

  /** The first and last byte of the transfer lie in different blocks. */
  predicate CrossesBlock(addr: nat, length: nat)
  {
    AlignDown(addr, BLOCK_SIZE) != AlignDown(LastAddress(addr, length), BLOCK_SIZE)
  }

  /** The crossing test written with the complement of block_mask, as in the source. */
  lemma CrossesBlockMask(addr: nat, length: nat)
    requires addr < UINT64_LIMIT
    ensures BLOCK_SIZE - 1 < Pow2(64)
    ensures CrossesBlock(addr, length) <==>
      And(addr, Not(BLOCK_SIZE - 1, 64)) != And(LastAddress(addr, length), Not(BLOCK_SIZE - 1, 64))
  {
    BlockSizeIsPow2();
    AlignDownMask(addr, 21);
    AlignDownMask(LastAddress(addr, length), 21);
  }

  /** A transfer of one or more bytes passes the crossing test exactly when it fits in the rest of its block. */
  lemma WithinBlock(addr: nat, length: nat)
    requires addr < UINT64_LIMIT && 1 <= length < UINT32_LIMIT
    ensures !CrossesBlock(addr, length) <==> addr % BLOCK_SIZE + length <= BLOCK_SIZE
  {
    var base := AlignDown(addr, BLOCK_SIZE);
    var e := LastAddress(addr, length);
    assert UINT64_LIMIT == BLOCK_SIZE * 0x800_0000_0000;
    DivModUnique(UINT64_LIMIT, BLOCK_SIZE, 0x800_0000_0000, 0);
    assert base % BLOCK_SIZE == 0;
    assert base + BLOCK_SIZE <= UINT64_LIMIT by {
      var q := base / BLOCK_SIZE;
      DivModUnique(base, BLOCK_SIZE, q, 0);
      MulMonotone(q + 1, 0x800_0000_0000, BLOCK_SIZE);
    }
    if addr % BLOCK_SIZE + length <= BLOCK_SIZE {
      assert e == addr + length - 1 by {
        DivModUnique(addr + length + UINT64_LIMIT - 1, UINT64_LIMIT, 1, addr + length - 1);
      }
      DivModUnique(e, BLOCK_SIZE, base / BLOCK_SIZE, e - base);
    } else if addr + length - 1 < UINT64_LIMIT {
      DivModUnique(addr + length + UINT64_LIMIT - 1, UINT64_LIMIT, 1, addr + length - 1);
      assert e >= base + BLOCK_SIZE;
    } else {
      DivModUnique(addr + length + UINT64_LIMIT - 1, UINT64_LIMIT, 2, addr + length - 1 - UINT64_LIMIT);
      assert e < base;
    }
  }

  /**
   * A zero-length transfer is reported as crossing exactly when it starts a
   * block: its "last byte" addr-1 then lies in the block before (or, at
   * address 0, wraps to the top of the 64-bit space).
   */
  lemma ZeroLengthCrossing(addr: nat)
    requires addr < UINT64_LIMIT
    ensures CrossesBlock(addr, 0) <==> addr % BLOCK_SIZE == 0
  {
    var base := AlignDown(addr, BLOCK_SIZE);
    var e := LastAddress(addr, 0);
    if addr == 0 {
      assert e == UINT64_LIMIT - 1;
      DivModUnique(e, BLOCK_SIZE, 0x800_0000_0000 - 1, BLOCK_SIZE - 1);
    } else {
      DivModUnique(addr + UINT64_LIMIT - 1, UINT64_LIMIT, 1, addr - 1);
      assert e == addr - 1;
      if addr % BLOCK_SIZE == 0 {
        assert AlignDown(e, BLOCK_SIZE) < base;
      } else {
        DivModUnique(e, BLOCK_SIZE, base / BLOCK_SIZE, e - base);
      }
    }
  }

  // ---------------------------------------------------------------------------
  // The initial address pattern.

  /**
   * Byte o of a freshly created block whose first word is written with the
   * value start: the word holding byte o is the value start plus the word's
   * byte offset, truncated to w bytes and stored little-endian.
   */
  function InitialByte(start: nat, o: nat, w: nat): byte
    requires w >= 1
  {
    BytesOf(start + AlignDown(o, w), w)[o % w]
  }

  /** A value below a*r has a quotient by a below r. */
  lemma DivBelow(t: nat, a: nat, r: nat)
    requires a > 0 && t < a * r
    ensures t / a < r
  {
    if t / a >= r {
      MulMonotone(r, t / a, a);
    }
  }

  lemma Regroup(q: nat, r: nat, a: nat, u: nat, s: nat)
    ensures q * (a * r) + u * a + s == (q * r + u) * a + s
  {
  }

  /** Dividing a remainder modulo a*r by a gives the quotient by a modulo r. */
  lemma DivOfMod(v: nat, a: nat, r: nat)
    requires a > 0 && r > 0
    ensures (v % (a * r)) / a == (v / a) % r
  {
    var m := a * r;
    var t := v % m;
    var q := v / m;
    var u := t / a;
    DivBelow(t, a, r);
    Regroup(q, r, a, u, t % a);
    DivModUnique(v, a, q * r + u, t % a);
    DivModUnique(v / a, r, q, u);
  }

  /** BytesOf keeps only the n low bytes of its value. */
  lemma {:induction false} BytesOfTruncates(v: nat, n: nat)
    ensures BytesOf(v, n) == BytesOf(v % ByteRange(n), n)
  {
    if n > 0 {
      var r := ByteRange(n - 1);
      assert ByteRange(n) == 256 * r;
      ModMod(v, ByteRange(n), 256);
      DivOfMod(v, 256, r);
      BytesOfTruncates(v / 256, n - 1);
    }
  }

  /** The w bytes of a fresh block at an aligned offset p are the bytes of start + p. */
  lemma PatternSlice(b: seq<byte>, start: nat, p: nat, w: nat)
    requires w >= 1 && p % w == 0 && p + w <= |b|
    requires forall o :: p <= o < p + w ==> b[o] == InitialByte(start, o, w)
    ensures b[p..p + w] == BytesOf(start + p, w)
  {
    var q := p / w;
    assert p == q * w by {
      DivModUnique(p, w, q, 0);
    }
    forall o | p <= o < p + w
      ensures b[o] == BytesOf(start + p, w)[o - p]
    {
      DivModUnique(o, w, q, o - p);
      assert AlignDown(o, w) == p;
    }
  }

  /** Each word-aligned group of w bytes of a fresh block reads back as its address value truncated to w bytes. */
  lemma InitialWord(b: seq<byte>, start: nat, p: nat, w: nat)
    requires w >= 1 && p % w == 0 && p + w <= |b|
    requires forall o :: p <= o < p + w ==> b[o] == InitialByte(start, o, w)
    ensures WordOf(b[p..p + w]) == (start + p) % ByteRange(w)
  {
    PatternSlice(b, start, p, w);
    WordOfTruncated(start + p, w);
  }

  /** Reading back the n bytes of any value gives that value modulo 2^(8n). */
  lemma WordOfTruncated(v: nat, n: nat)
    ensures WordOf(BytesOf(v, n)) == v % ByteRange(n)
  {
    BytesOfTruncates(v, n);
    WordOfBytesOf(v % ByteRange(n), n);
  }

  /** The next word boundary after an aligned offset below an aligned limit is within the limit. */
  lemma NextWordWithin(p: nat, limit: nat, w: nat)
    requires w >= 1 && p % w == 0 && limit % w == 0 && p < limit
    ensures p + w <= limit && (p + w) % w == 0
  {
    var a := p / w;
    var b := limit / w;
    DivModUnique(p, w, a, 0);
    DivModUnique(limit, w, b, 0);
    assert a < b by {
      if a >= b {
        MulMonotone(b, a, w);
      }
    }
    assert p + w == (a + 1) * w;
    DivModUnique(p + w, w, a + 1, 0);
    MulMonotone(a + 1, b, w);
  }

  /** Writes the w bytes of one pattern word into a block under construction. */
  lemma PatternWord(blk: seq<byte>, start: nat, p: nat, w: nat)
    requires w >= 1 && p % w == 0 && p + w <= |blk|
    requires forall o :: 0 <= o < p ==> blk[o] == InitialByte(start, o, w)
    ensures var b := blk[..p] + BytesOf(start + p, w) + blk[p + w..];
      |b| == |blk| && forall o :: 0 <= o < p + w ==> b[o] == InitialByte(start, o, w)
  {
    var b := blk[..p] + BytesOf(start + p, w) + blk[p + w..];
    forall o | p <= o < p + w
      ensures b[o] == InitialByte(start, o, w)
    {
      DivModUnique(o, w, p / w, o - p);
    }
  }

  /**
   * The pattern fill of get_block_ptr with the loop bound taken without
   * wrap-around: every word of the block receives its address value.
   */
  method InitBlock(start: nat, w: nat) returns (blk: seq<byte>)
    requires w >= 1 && BLOCK_SIZE % w == 0
    ensures |blk| == BLOCK_SIZE
    ensures forall o :: 0 <= o < BLOCK_SIZE ==> blk[o] == InitialByte(start, o, w)
  {
    blk := seq(BLOCK_SIZE, _ => 0);
    var p := 0;
    while p < BLOCK_SIZE
      invariant p <= BLOCK_SIZE && p % w == 0 && |blk| == BLOCK_SIZE
      invariant forall o :: 0 <= o < p ==> blk[o] == InitialByte(start, o, w)
    {
      NextWordWithin(p, BLOCK_SIZE, w);
      PatternWord(blk, start, p, w);
      blk := blk[..p] + BytesOf(start + p, w) + blk[p + w..];
      p := p + w;
    }
  }

  /**
   * The pattern fill as the source writes it: the 64-bit counter i runs from
   * start while i < start + block_size, the bound itself computed in 64-bit
   * arithmetic; raw is what `new uint8_t[block_size]` left in the block.
   * When the block is the last one below 2^64 the bound wraps to 0 and the
   * block keeps its raw contents.
   */
  method InitBlockAsWritten(start: nat, w: nat, raw: seq<byte>) returns (blk: seq<byte>)
    requires w >= 1 && BLOCK_SIZE % w == 0 && |raw| == BLOCK_SIZE
    requires start < UINT64_LIMIT && start % BLOCK_SIZE == 0
    ensures |blk| == BLOCK_SIZE
    ensures start + BLOCK_SIZE < UINT64_LIMIT ==>
      forall o :: 0 <= o < BLOCK_SIZE ==> blk[o] == InitialByte(start, o, w)
    ensures start + BLOCK_SIZE >= UINT64_LIMIT ==> blk == raw
  {
    assert start + BLOCK_SIZE <= UINT64_LIMIT by {
      DivModUnique(UINT64_LIMIT, BLOCK_SIZE, 0x800_0000_0000, 0);
      NextWordWithin(start, UINT64_LIMIT, BLOCK_SIZE);
    }
    var bound := (start + BLOCK_SIZE) % UINT64_LIMIT;
    assert bound == start + BLOCK_SIZE || bound == 0;
    blk := raw;
    var i := start;
    while i < bound
      invariant start <= i && i - start <= BLOCK_SIZE && (i - start) % w == 0
      invariant i > start ==> bound == start + BLOCK_SIZE
      invariant |blk| == BLOCK_SIZE
      invariant forall o :: 0 <= o < i - start ==> blk[o] == InitialByte(start, o, w)
      invariant i == start ==> blk == raw
    {
      var p := i - start;
      NextWordWithin(p, BLOCK_SIZE, w);
      PatternWord(blk, start, p, w);
      blk := blk[..p] + BytesOf(i, w) + blk[p + w..];
      i := i + w;
    }
  }

  // ---------------------------------------------------------------------------
  // Configuration.

  /**
   * The constructor's checks: DATATYPE is an unsigned integer of 1, 2, 4 or
   * 8 bytes, mem_size (an unsigned int) is a power of two no smaller than a
   * block and a multiple of the word, and base_addr (a 64-bit value) is a
   * multiple of mem_size. The checks on block_size hold for the constant.
   */
  predicate Configurable(w: nat, memSize: nat, baseAddr: nat)
  {
    (w == 1 || w == 2 || w == 4 || w == 8)
    && memSize < UINT32_LIMIT && baseAddr < UINT64_LIMIT
    && DlscMain.IsPowerOf2(memSize) && memSize >= BLOCK_SIZE && memSize % w == 0
    && baseAddr % memSize == 0
  }

  /** A valid memory size is a whole number of blocks. */
  lemma WholeBlocks(w: nat, memSize: nat, baseAddr: nat)
    requires Configurable(w, memSize, baseAddr)
    ensures memSize % BLOCK_SIZE == 0 && BLOCK_SIZE % w == 0
  {
    var k := DlscMain.FloorLog2(memSize);
    assert memSize == Pow2(k) by {
      DlscMain.IsPowerOf2Exactly(memSize);
    }
    assert k >= 21 by {
      BlockSizeIsPow2();
      if k < 21 {
        Pow2Monotone(k, 20);
        assert Pow2(21) == 2 * Pow2(20);
      }
    }
    assert memSize == Pow2(k - 21) * BLOCK_SIZE by {
      BlockSizeIsPow2();
      Pow2Add(k - 21, 21);
    }
    DivModUnique(memSize, BLOCK_SIZE, Pow2(k - 21), 0);
  }

  /**
   * A legal configuration whose top block starts at 2^64 - block_size: a
   * 2^31-byte memory at base 2^64 - 2^31. Its block key mem_size - block_size
   * gives the fill loop the start value 2^64 - block_size, where the bound wraps.
   */
  lemma TopBlockStart()
    ensures Configurable(4, 0x8000_0000, UINT64_LIMIT - 0x8000_0000)
    ensures (0x8000_0000 - BLOCK_SIZE) + (UINT64_LIMIT - 0x8000_0000) + BLOCK_SIZE == UINT64_LIMIT
  {
    BlockSizeIsPow2();
    assert Pow2(31) == 0x8000_0000 by {
      Pow2Add(21, 10);
      assert Pow2(10) == 1024 by {
        Pow2Add(4, 4);
        assert Pow2(10) == 4 * Pow2(8);
      }
    }
    DlscMain.PowersOf2Pass(31);
    DivModUnique(UINT64_LIMIT - 0x8000_0000, 0x8000_0000, 0x1_FFFF_FFFF, 0);
  }

  // ---------------------------------------------------------------------------
  // Strobed copies.

  /** Byte i of a transfer is written: there is no byte-enable array, or enable[i mod be_length] is TLM_BYTE_ENABLED. */
  predicate Enabled(be: seq<byte>, beLength: nat, i: nat)
    requires beLength <= |be|
  {
    beLength == 0 || be[i % beLength] == BYTE_ENABLED
  }

  /** Advancing a counter modulo n by one wraps to zero exactly at n. */
  lemma ModIncrement(i: nat, n: nat)
    requires n > 0
    ensures (i + 1) % n == if i % n + 1 == n then 0 else i % n + 1
  {
    if i % n + 1 == n {
      ModShift(0, i / n + 1, n);
      assert 0 + (i / n + 1) * n == i + 1;
    } else {
      ModAddSmall(i, 1, n);
    }
  }

  /**
   * The copy loop of b_transport: length bytes from src at sOff to dst at
   * dOff. Without byte enables it is a straight copy; with them, byte i is
   * copied iff its enable (cycled by a counter that wraps at be_length) is
   * set, and the other destination bytes keep their value.
   */
  method CopyBytes(dst: seq<byte>, dOff: nat, src: seq<byte>, sOff: nat, length: nat,
                   be: seq<byte>, beLength: nat) returns (r: seq<byte>)
    requires dOff + length <= |dst| && sOff + length <= |src| && beLength <= |be|
    ensures |r| == |dst|
    ensures forall j :: 0 <= j < |dst| ==>
      r[j] == if dOff <= j < dOff + length && Enabled(be, beLength, j - dOff) then src[sOff + j - dOff] else dst[j]
  {
    if beLength == 0 {
      r := dst[..dOff] + src[sOff..sOff + length] + dst[dOff + length..];
    } else {
      r := dst;
      var b := 0;
      var i := 0;
      while i < length
        invariant i <= length && |r| == |dst| && b == i % beLength
        invariant forall j :: 0 <= j < |dst| ==>
          r[j] == if dOff <= j < dOff + i && Enabled(be, beLength, j - dOff) then src[sOff + j - dOff] else dst[j]
      {
        if be[b] == BYTE_ENABLED {
          r := r[dOff + i := src[sOff + i]];
        }
        ModIncrement(i, beLength);
        b := b + 1;
        if b == beLength {
          b := 0;
        }
        i := i + 1;
      }
    }
  }

  // ---------------------------------------------------------------------------
  // Bandwidth model.

  function Max(a: nat, b: nat): nat
  {
    if a >= b then a else b
  }

  /**
   * The latency model for a transfer taking xfer: the memory's next free time
   * becomes xfer after the later of its previous next free time and now; the
   * initiator's delay becomes the later of its own delay plus xfer and the
   * memory's completion, relative to now.
   */
  function Schedule(nextTime: nat, now: nat, delay: nat, xfer: nat): (r: (nat, nat))
    ensures r.0 >= nextTime + xfer && r.0 >= now + xfer
    ensures r.0 == nextTime + xfer || r.0 == now + xfer
    ensures r.1 >= delay + xfer && now + r.1 >= r.0
    ensures r.1 == delay + xfer || now + r.1 == r.0
  {
    var next := Max(nextTime, now) + xfer;
    (next, Max(delay + xfer, next - now))
  }

  /** The time one transfer of length bytes occupies the memory. */
  function TransferTime(accessLatency: nat, byteLatency: nat, length: nat): nat
  {
    accessLatency + length * byteLatency
  }

  /** The outcome of b_transport's checks, in the source's order. */
  datatype Check = NoAccess | Refused(status: ResponseStatus) | Access

  /** The checks of b_transport: commands that neither read nor write, block crossings, then zero length or streaming. */
  function Classify(p: Payload): (c: Check)
    ensures c == NoAccess <==> !p.IsRead() && !p.IsWrite()
    ensures c == Refused(AddressError) <==> (p.IsRead() || p.IsWrite()) && CrossesBlock(p.address, p.dataLength)
    ensures c == Refused(BurstError) <==>
      (p.IsRead() || p.IsWrite()) && !CrossesBlock(p.address, p.dataLength)
      && (p.dataLength == 0 || p.streamingWidth < p.dataLength)
    ensures c == Access <==>
      (p.IsRead() || p.IsWrite()) && !CrossesBlock(p.address, p.dataLength)
      && 1 <= p.dataLength <= p.streamingWidth
  {
    if !p.IsRead() && !p.IsWrite() then NoAccess
    else if CrossesBlock(p.address, p.dataLength) then Refused(AddressError)
    else if p.dataLength == 0 || p.streamingWidth < p.dataLength then Refused(BurstError)
    else Access
  }

  /** The response status b_transport leaves, given whether the error injection fires. */
  function Status(p: Payload, injected: bool): (s: ResponseStatus)
    ensures s == Ok <==> Classify(p) == NoAccess || (Classify(p) == Access && !injected)
    ensures s == GenericError <==> Classify(p) == Access && injected
    ensures Classify(p).Refused? ==> s == Classify(p).status
  {
    match Classify(p)
    case NoAccess => Ok
    case Refused(status) => status
    case Access => if injected then GenericError else Ok
  }

  /** An accepted transfer lies within one block. */
  lemma AccessFitsBlock(p: Payload)
    requires p.address < UINT64_LIMIT && p.dataLength < UINT32_LIMIT && Classify(p) == Access
    ensures p.address % BLOCK_SIZE + p.dataLength <= BLOCK_SIZE
  {
    WithinBlock(p.address, p.dataLength);
  }

  /** The random error injection: a read (write) fails when its error rate, in tenths of a percent, exceeds the draw modulo 1000. */
  predicate Injected(p: Payload, errorRateRead: nat, errorRateWrite: nat, draw: nat)
  {
    (p.IsRead() && errorRateRead > 0 && draw % 1000 < errorRateRead)
    || (p.IsWrite() && errorRateWrite > 0 && draw % 1000 < errorRateWrite)
  }

  // ---------------------------------------------------------------------------
  // Locations.

  /** The sum of two multiples of w is a multiple of w. */
  lemma AlignedSum(a: nat, b: nat, w: nat)
    requires w >= 1 && b % w == 0
    ensures (a + b) % w == a % w
  {
    DivModUnique(b, w, b / w, 0);
    ModShift(a % w, a / w + b / w, w);
    assert a % w + (a / w + b / w) * w == a + b;
  }

  /** Bytes whose length is a whole number of words convert to words and back unchanged, each word fitting in w bytes. */
  lemma {:induction false} WordsOfBytes(b: seq<byte>, w: nat)
    requires w >= 1 && |b| % w == 0
    ensures WordsToBytes(BytesToWords(b, w), w) == b
    ensures forall k :: 0 <= k < |BytesToWords(b, w)| ==> BytesToWords(b, w)[k] < ByteRange(w)
    decreases |b|
  {
    if |b| >= w {
      ModShift(0, |b| / w - 1, w);
      assert |b| - w == 0 + (|b| / w - 1) * w by {
        DivModUnique(|b|, w, |b| / w, 0);
      }
      WordsOfBytes(b[w..], w);
      BytesOfWordOf(b[..w]);
      assert b == b[..w] + b[w..];
    } else {
      DivModUnique(|b|, w, 0, |b|);
    }
  }

  /** A location at offset o of the block starting at key has that offset and block. */
  lemma InBlock(key: nat, o: nat, l: nat)
    requires key % BLOCK_SIZE == 0 && o < BLOCK_SIZE && l == key + o
    ensures l % BLOCK_SIZE == o && l - l % BLOCK_SIZE == key
  {
    DivModUnique(l, BLOCK_SIZE, key / BLOCK_SIZE, o);
  }

  /** The block holding a location of the memory ends within the memory. */
  lemma BlockWithinMemory(l: nat, memSize: nat)
    requires memSize % BLOCK_SIZE == 0 && l < memSize
    ensures l - l % BLOCK_SIZE + BLOCK_SIZE <= memSize
  {
    NextWordWithin(l - l % BLOCK_SIZE, memSize, BLOCK_SIZE);
  }

  /**
   * One step of the backdoor copy loops, in bytes: as many words as fit
   * before the end of the current block, but no more than remain.
   */
  function ChunkBytes(cur: nat, rem: nat, w: nat): (c: nat)
    requires w >= 1 && BLOCK_SIZE % w == 0 && cur % w == 0 && rem % w == 0 && rem > 0
    ensures 1 <= c <= rem && c % w == 0 && cur % BLOCK_SIZE + c <= BLOCK_SIZE
  {
    var lim := (BLOCK_SIZE - cur % BLOCK_SIZE) / w;
    var words := if lim > rem / w then rem / w else lim;
    ChunkFits(cur, rem, w, words);
    words * w
  }

  /** The size of the backdoor step at byte d of a transfer of total bytes from start. */
  function NextChunk(start: nat, d: nat, total: nat, w: nat): (c: nat)
    requires w >= 1 && BLOCK_SIZE % w == 0 && start % w == 0 && d % w == 0 && total % w == 0 && d < total
    ensures 1 <= c <= total - d && (d + c) % w == 0 && (start + d) % BLOCK_SIZE + c <= BLOCK_SIZE
  {
    AlignedSum(start, d, w);
    AlignedSum(total - d, d, w);
    var c := ChunkBytes(start + d, total - d, w);
    AlignedSum(d, c, w);
    c
  }

  /** The word count of one step, times the word size, fits before the block end and in what remains. */
  lemma ChunkFits(cur: nat, rem: nat, w: nat, words: nat)
    requires w >= 1 && BLOCK_SIZE % w == 0 && cur % w == 0 && rem % w == 0 && rem > 0
    requires words == if (BLOCK_SIZE - cur % BLOCK_SIZE) / w > rem / w then rem / w
                      else (BLOCK_SIZE - cur % BLOCK_SIZE) / w
    ensures 1 <= words * w <= rem && (words * w) % w == 0 && cur % BLOCK_SIZE + words * w <= BLOCK_SIZE
  {
    var o := cur % BLOCK_SIZE;
    var lim := (BLOCK_SIZE - o) / w;
    assert lim >= 1 && lim * w == BLOCK_SIZE - o by {
      ModMod(cur, BLOCK_SIZE, w);
      NextWordWithin(o, BLOCK_SIZE, w);
      AlignedSum(BLOCK_SIZE - o, o, w);
      ExactQuotient(BLOCK_SIZE - o, w);
    }
    assert rem / w >= 1 && (rem / w) * w == rem by {
      ExactQuotient(rem, w);
    }
    assert words >= 1 && words <= lim && words <= rem / w;
    MulMonotone(words, lim, w);
    MulMonotone(words, rem / w, w);
    MulMonotone(1, words, w);
    DivModUnique(words * w, w, words, 0);
  }

  /** A positive multiple of w is w times its quotient, which is at least 1. */
  lemma ExactQuotient(x: nat, w: nat)
    requires w >= 1 && x % w == 0 && x >= 1
    ensures (x / w) * w == x && x / w >= 1
  {
  }

  /** One step of a backdoor copy, at offset d of a transfer from start, stays below the end of the memory. */
  lemma ChunkEnd(start: nat, d: nat, c: nat, m: nat)
    requires m > 0 && m % BLOCK_SIZE == 0 && (start + d) % BLOCK_SIZE + c <= BLOCK_SIZE
    ensures (start + d) % m + c <= m
  {
    ModMod(start + d, m, BLOCK_SIZE);
    BlockWithinMemory((start + d) % m, m);
  }

  /**
   * The location of an earlier byte of a transfer, less than the memory
   * size before the end of the current step, is not one of that step's.
   */
  lemma ChunkFresh(start: nat, d: nat, c: nat, i: nat, m: nat)
    requires m > 0 && i < d && d + c <= i + m && (start + d) % m + c <= m
    ensures !((start + d) % m <= (start + i) % m < (start + d) % m + c)
  {
    var loc := (start + d) % m;
    if loc <= (start + i) % m < loc + c {
      var t := (start + i) % m - loc;
      ModAddSmall(start + d, t, m);
      ModDistinct(start + i, 0, d + t - i, m);
    }
  }

  /** A location written by the current step lies at its byte's offset from start, modulo the memory size. */
  lemma ChunkOffset(start: nat, d: nat, c: nat, l: nat, m: nat)
    requires m > 0 && d + c <= m
    requires (start + d) % m <= l < (start + d) % m + c
    ensures (l - start) % m == d + l - (start + d) % m
  {
    var q := (start + d) / m;
    assert l - start == (d + l - (start + d) % m) + (-q) * m;
    ModShift(d + l - (start + d) % m, -q, m);
  }

  /** A DMI grant: the byte range it covers and the latencies it reports; access is read-write. */
  datatype Dmi = Dmi(startAddress: nat, endAddress: nat, readLatency: nat, writeLatency: nat)

  // ---------------------------------------------------------------------------
  // The memory.

  class Memory {
    const width: nat
    const memSize: nat
    const baseAddr: nat
    const byteLatency: nat
    const accessLatency: nat
    const delayEnabled: bool

    /** The earliest time the memory is free for the next transfer. */
    var nextTime: nat
    /** Error injection rates in tenths of a percent (0..1000). */
    var errorRateRead: nat
    var errorRateWrite: nat
    /** The blocks created so far, by block key (the block's first location). */
    var blocks: map<nat, seq<byte>>

    ghost predicate Valid()
      reads this
    {
      && width >= 1 && BLOCK_SIZE % width == 0
      && memSize >= BLOCK_SIZE && memSize % BLOCK_SIZE == 0 && memSize % width == 0
      && baseAddr % memSize == 0
      && delayEnabled == (byteLatency != 0 || accessLatency != 0)
      && errorRateRead <= 1000 && errorRateWrite <= 1000
      && forall key :: key in blocks ==> |blocks[key]| == BLOCK_SIZE
    }

    /**
     * The byte at location l, an address taken modulo mem_size: read from
     * its block when the block exists, else the block's initial pattern.
     */
    ghost function Cell(l: nat): byte
      reads this
      requires Valid()
    {
      CellIn(blocks, l)
    }

    /** The byte at location l of a block map whose blocks are all full-sized. */
    ghost function CellIn(bs: map<nat, seq<byte>>, l: nat): byte
      requires width >= 1 && forall key :: key in bs ==> |bs[key]| == BLOCK_SIZE
    {
      var key := l - l % BLOCK_SIZE;
      if key in bs then bs[key][l % BLOCK_SIZE]
      else InitialByte(key + baseAddr, l % BLOCK_SIZE, width)
    }

    /**
     * Of the first d bytes of a backdoor transfer from start, the last
     * mem_size (all of them in a transfer no longer than the memory) match
     * the memory: each location holds the last byte written to it.
     */
    ghost predicate Holds(start: nat, bytes: seq<byte>, d: nat)
      reads this
      requires Valid() && d <= |bytes|
    {
      forall i :: 0 <= i < d && d <= i + memSize ==> Cell((start + i) % memSize) == bytes[i]
    }

    /** The first d bytes of a backdoor read from start match a block map's contents. */
    ghost predicate HoldsIn(bs: map<nat, seq<byte>>, start: nat, bytes: seq<byte>, d: nat)
      requires width >= 1 && memSize > 0 && d <= |bytes|
      requires forall key :: key in bs ==> |bs[key]| == BLOCK_SIZE
    {
      forall i :: 0 <= i < d ==> CellIn(bs, (start + i) % memSize) == bytes[i]
    }

    /** Every location at least d bytes past start (modulo the memory size) has its content in the earlier block map. */
    ghost predicate Beyond(before: map<nat, seq<byte>>, start: nat, d: nat)
      reads this
      requires Valid() && forall key :: key in before ==> |before[key]| == BLOCK_SIZE
    {
      forall l :: 0 <= l < memSize && (l - start) % memSize >= d ==> Cell(l) == CellIn(before, l)
    }

    /** Every location has its content in the earlier block map. */
    ghost predicate Same(before: map<nat, seq<byte>>)
      reads this
      requires Valid() && forall key :: key in before ==> |before[key]| == BLOCK_SIZE
    {
      forall l :: Cell(l) == CellIn(before, l)
    }

    /** A new memory has no blocks, no error injection and is free from time zero. */
    constructor (w: nat, size: nat, base: nat, byteTime: nat, accessTime: nat)
      requires Configurable(w, size, base)
      ensures Valid()
      ensures width == w && memSize == size && baseAddr == base
      ensures byteLatency == byteTime && accessLatency == accessTime
      ensures delayEnabled <==> byteTime != 0 || accessTime != 0
      ensures nextTime == 0 && errorRateRead == 0 && errorRateWrite == 0 && blocks == map[]
    {
      WholeBlocks(w, size, base);
      width := w;
      memSize := size;
      baseAddr := base;
      byteLatency := byteTime;
      accessLatency := accessTime;
      delayEnabled := byteTime != 0 || accessTime != 0;
      nextTime := 0;
      errorRateRead := 0;
      errorRateWrite := 0;
      blocks := map[];
    }

    /** set_error_rate_read, with the rate already scaled to tenths of a percent. */
    method SetErrorRateRead(rate: nat)
      requires Valid() && rate <= 1000
      modifies this
      ensures Valid()
      ensures errorRateRead == rate && errorRateWrite == old(errorRateWrite)
      ensures nextTime == old(nextTime) && blocks == old(blocks)
    {
      errorRateRead := rate;
    }

    /** set_error_rate_write, with the rate already scaled to tenths of a percent. */
    method SetErrorRateWrite(rate: nat)
      requires Valid() && rate <= 1000
      modifies this
      ensures Valid()
      ensures errorRateWrite == rate && errorRateRead == old(errorRateRead)
      ensures nextTime == old(nextTime) && blocks == old(blocks)
    {
      errorRateWrite := rate;
    }

    /** set_error_rate: the same rate for reads and writes. */
    method SetErrorRate(rate: nat)
      requires Valid() && rate <= 1000
      modifies this
      ensures Valid()
      ensures errorRateRead == rate && errorRateWrite == rate
      ensures nextTime == old(nextTime) && blocks == old(blocks)
    {
      SetErrorRateRead(rate);
      SetErrorRateWrite(rate);
    }

    /**
     * get_block_ptr: the block key (a & blocks_mask) and the offset in the
     * block (a & block_mask) of an address; a block touched for the first
     * time is created with its address pattern, which leaves every
     * location's content as it was.
     */
    method GetBlock(a: nat) returns (key: nat, offset: nat)
      requires Valid()
      modifies this
      ensures Valid()
      ensures key == a % memSize - a % BLOCK_SIZE && offset == a % BLOCK_SIZE
      ensures key + offset == a % memSize && key % BLOCK_SIZE == 0 && key + BLOCK_SIZE <= memSize
      ensures key in blocks && blocks.Keys == old(blocks).Keys + {key}
      ensures forall k :: k in old(blocks) ==> blocks[k] == old(blocks)[k]
      ensures forall l :: Cell(l) == old(Cell(l))
      ensures nextTime == old(nextTime)
      ensures errorRateRead == old(errorRateRead) && errorRateWrite == old(errorRateWrite)
    {
      var loc := a % memSize;
      ModMod(a, memSize, BLOCK_SIZE);
      BlockWithinMemory(loc, memSize);
      key := loc - a % BLOCK_SIZE;
      offset := a % BLOCK_SIZE;
      if key !in blocks {
        var blk := InitBlock(key + baseAddr, width);
        blocks := blocks[key := blk];
      }
    }

    /**
     * Writes src at the location of cur, inside one block: a byte is
     * written when its enable allows it; every other location keeps its
     * content.
     */
    method Store(cur: nat, src: seq<byte>, be: seq<byte>, beLength: nat)
      requires Valid() && cur % BLOCK_SIZE + |src| <= BLOCK_SIZE && beLength <= |be|
      modifies this
      ensures Valid()
      ensures cur % memSize + |src| <= memSize
      ensures forall l :: 0 <= l < memSize ==>
        Cell(l) == if cur % memSize <= l < cur % memSize + |src| && Enabled(be, beLength, l - cur % memSize)
                   then src[l - cur % memSize] else old(Cell(l))
      ensures nextTime == old(nextTime)
      ensures errorRateRead == old(errorRateRead) && errorRateWrite == old(errorRateWrite)
    {
      var key, offset := GetBlock(cur);
      var blk := CopyBytes(blocks[key], offset, src, 0, |src|, be, beLength);
      blocks := blocks[key := blk];
      forall l | 0 <= l < memSize && cur % memSize <= l < cur % memSize + |src|
        ensures l - l % BLOCK_SIZE == key && l % BLOCK_SIZE == offset + (l - cur % memSize)
      {
        InBlock(key, offset + (l - cur % memSize), l);
      }
    }

    /** Reads length bytes at the location of cur, inside one block; contents are unchanged. */
    method Load(cur: nat, length: nat) returns (chunk: seq<byte>)
      requires Valid() && cur % BLOCK_SIZE + length <= BLOCK_SIZE
      modifies this
      ensures Valid()
      ensures cur % memSize + length <= memSize
      ensures |chunk| == length && forall j :: 0 <= j < length ==> chunk[j] == Cell(cur % memSize + j)
      ensures forall l :: Cell(l) == old(Cell(l))
      ensures nextTime == old(nextTime)
      ensures errorRateRead == old(errorRateRead) && errorRateWrite == old(errorRateWrite)
    {
      var key, offset := GetBlock(cur);
      chunk := blocks[key][offset..offset + length];
      forall j | 0 <= j < length
        ensures chunk[j] == Cell(cur % memSize + j)
      {
        InBlock(key, offset + j, cur % memSize + j);
      }
    }

    /**
     * nb_write: the words, stored little-endian from the address rounded
     * down to a word, one block at a time. The bytes land at consecutive
     * locations, wrapping at the end of the memory, so that a location
     * written more than once holds the last byte written to it; the
     * locations the transfer does not reach keep their content.
     */
    method NbWrite(addr: nat, ws: seq<nat>)
      requires Valid()
      modifies this
      ensures Valid()
      ensures forall i :: 0 <= i < |ws| * width && |ws| * width <= i + memSize ==>
        Cell((AlignDown(addr, width) + i) % memSize) == WordsToBytes(ws, width)[i]
      ensures forall l :: 0 <= l < memSize && (l - AlignDown(addr, width)) % memSize >= |ws| * width ==>
        Cell(l) == old(Cell(l))
      ensures nextTime == old(nextTime)
      ensures errorRateRead == old(errorRateRead) && errorRateWrite == old(errorRateWrite)
    {
      var start := AlignDown(addr, width);
      var bytes := WordsToBytes(ws, width);
      DivModUnique(|bytes|, width, |ws|, 0);
      ghost var before := blocks;
      var d := 0;
      while d < |bytes|
        invariant Valid() && d <= |bytes| && d % width == 0
        invariant Holds(start, bytes, d) && Beyond(before, start, d)
        invariant nextTime == old(nextTime)
        invariant errorRateRead == old(errorRateRead) && errorRateWrite == old(errorRateWrite)
        decreases |bytes| - d
      {
        d := WriteChunk(start, d, bytes, before);
      }
    }

    /** One step of nb_write: the words from byte d up to the end of the block or of the data. */
    method WriteChunk(start: nat, d: nat, bytes: seq<byte>, ghost before: map<nat, seq<byte>>) returns (d': nat)
      requires Valid() && start % width == 0 && d % width == 0 && |bytes| % width == 0
      requires d < |bytes|
      requires forall key :: key in before ==> |before[key]| == BLOCK_SIZE
      requires Holds(start, bytes, d) && Beyond(before, start, d)
      modifies this
      ensures Valid() && d < d' <= |bytes| && d' % width == 0
      ensures Holds(start, bytes, d') && Beyond(before, start, d')
      ensures nextTime == old(nextTime)
      ensures errorRateRead == old(errorRateRead) && errorRateWrite == old(errorRateWrite)
    {
      var cur := start + d;
      var c := NextChunk(start, d, |bytes|, width);
      ChunkEnd(start, d, c, memSize);
      var chunk := bytes[d..d + c];
      Store(cur, chunk, [], 0);
      forall i | 0 <= i < d && d + c <= i + memSize
        ensures Cell((start + i) % memSize) == bytes[i]
      {
        ChunkFresh(start, d, c, i, memSize);
        assert Cell((start + i) % memSize) == old(Cell((start + i) % memSize));
      }
      forall i | d <= i < d + c
        ensures Cell((start + i) % memSize) == bytes[i]
      {
        ModAddSmall(start + d, i - d, memSize);
        assert (start + i) % memSize == cur % memSize + (i - d);
        assert chunk[i - d] == bytes[i];
      }
      if d + c <= memSize {
        forall l | 0 <= l < memSize && (l - start) % memSize >= d + c
          ensures Cell(l) == CellIn(before, l)
        {
          if cur % memSize <= l < cur % memSize + c {
            ChunkOffset(start, d, c, l, memSize);
          }
        }
      }
      d' := d + c;
    }

    /**
     * nb_read: n words read little-endian from the address rounded down to
     * a word, one block at a time (blocks touched for the first time are
     * created, which changes no location's content).
     */
    method NbRead(addr: nat, n: nat) returns (ws: seq<nat>)
      requires Valid()
      modifies this
      ensures Valid()
      ensures |ws| == n && forall k :: 0 <= k < n ==> ws[k] < ByteRange(width)
      ensures forall i :: 0 <= i < n * width ==>
        WordsToBytes(ws, width)[i] == Cell((AlignDown(addr, width) + i) % memSize)
      ensures forall l :: Cell(l) == old(Cell(l))
      ensures nextTime == old(nextTime)
      ensures errorRateRead == old(errorRateRead) && errorRateWrite == old(errorRateWrite)
    {
      var start := AlignDown(addr, width);
      var total := n * width;
      DivModUnique(total, width, n, 0);
      ghost var before := blocks;
      var bytes: seq<byte> := [];
      while |bytes| < total
        invariant Valid() && |bytes| <= total && |bytes| % width == 0
        invariant HoldsIn(before, start, bytes, |bytes|) && Same(before)
        invariant nextTime == old(nextTime)
        invariant errorRateRead == old(errorRateRead) && errorRateWrite == old(errorRateWrite)
        decreases total - |bytes|
      {
        bytes := ReadChunk(start, bytes, total, before);
      }
      ws := BytesToWords(bytes, width);
      WordsOfBytes(bytes, width);
    }

    /** One step of nb_read: the words from byte |bytes| up to the end of the block or of the transfer. */
    method ReadChunk(start: nat, bytes: seq<byte>, total: nat, ghost before: map<nat, seq<byte>>)
      returns (bytes': seq<byte>)
      requires Valid() && start % width == 0 && |bytes| % width == 0 && total % width == 0
      requires |bytes| < total
      requires forall key :: key in before ==> |before[key]| == BLOCK_SIZE
      requires HoldsIn(before, start, bytes, |bytes|) && Same(before)
      modifies this
      ensures Valid() && |bytes| < |bytes'| <= total && |bytes'| % width == 0
      ensures HoldsIn(before, start, bytes', |bytes'|) && Same(before)
      ensures nextTime == old(nextTime)
      ensures errorRateRead == old(errorRateRead) && errorRateWrite == old(errorRateWrite)
    {
      var d := |bytes|;
      var cur := start + d;
      var c := NextChunk(start, d, total, width);
      ChunkEnd(start, d, c, memSize);
      var chunk := Load(cur, c);
      forall j | 0 <= j < c
        ensures chunk[j] == CellIn(before, cur % memSize + j)
      {
        assert chunk[j] == Cell(cur % memSize + j);
      }
      ChunkHolds(before, start, bytes, chunk);
      bytes' := bytes + chunk;
    }

    /** Bytes read from the next locations extend a prefix that matches a block map. */
    lemma ChunkHolds(bs: map<nat, seq<byte>>, start: nat, bytes: seq<byte>, chunk: seq<byte>)
      requires width >= 1 && memSize > 0
      requires forall key :: key in bs ==> |bs[key]| == BLOCK_SIZE
      requires HoldsIn(bs, start, bytes, |bytes|)
      requires (start + |bytes|) % memSize + |chunk| <= memSize
      requires forall j :: 0 <= j < |chunk| ==> chunk[j] == CellIn(bs, (start + |bytes|) % memSize + j)
      ensures HoldsIn(bs, start, bytes + chunk, |bytes| + |chunk|)
    {
      var d := |bytes|;
      var all := bytes + chunk;
      forall i | 0 <= i < d + |chunk|
        ensures CellIn(bs, (start + i) % memSize) == all[i]
      {
        if i < d {
          assert all[i] == bytes[i];
        } else {
          var j := i - d;
          ModAddSmall(start + d, j, memSize);
          assert (start + i) % memSize == (start + d) % memSize + j;
          assert all[i] == chunk[j];
        }
      }
    }

    /** Words written through the backdoor read back unchanged. */
    method BackdoorRoundTrip(addr: nat, ws: seq<nat>) returns (rs: seq<nat>)
      requires Valid() && |ws| * width <= memSize
      requires forall k :: 0 <= k < |ws| ==> ws[k] < ByteRange(width)
      modifies this
      ensures Valid() && rs == ws
    {
      NbWrite(addr, ws);
      rs := NbRead(addr, |ws|);
      assert WordsToBytes(rs, width) == WordsToBytes(ws, width);
      BytesToWordsRoundTrip(rs, width);
      BytesToWordsRoundTrip(ws, width);
    }

    /**
     * b_transport. Commands that neither read nor write succeed without
     * access; block crossings and zero-length or streaming transfers are
     * refused; an accepted transfer is timed (when latency is configured),
     * may fail by injected error, and otherwise copies its enabled bytes to
     * or from the memory and allows DMI. Refused and failed transfers leave
     * every block untouched.
     */
    method BTransport(p: Payload, delay: nat, now: nat, draw: nat) returns (r: Payload, d: nat)
      requires Valid() && p.WellFormed() && p.address < UINT64_LIMIT && p.dataLength < UINT32_LIMIT
      modifies this
      ensures Valid()
      ensures errorRateRead == old(errorRateRead) && errorRateWrite == old(errorRateWrite)
      ensures r.status == Status(p, Injected(p, old(errorRateRead), old(errorRateWrite), draw))
      ensures Classify(p) != Access ==>
        r == p.(status := r.status) && d == delay && nextTime == old(nextTime) && blocks == old(blocks)
      ensures Classify(p) == Access && delayEnabled ==>
        (nextTime, d) == Schedule(old(nextTime), now, delay, TransferTime(accessLatency, byteLatency, p.dataLength))
      ensures Classify(p) == Access && !delayEnabled ==> nextTime == old(nextTime) && d == delay
      ensures Classify(p) == Access && Injected(p, errorRateRead, errorRateWrite, draw) ==>
        r == p.(status := GenericError) && blocks == old(blocks)
      ensures Classify(p) == Access && !Injected(p, errorRateRead, errorRateWrite, draw) && p.IsWrite() ==>
        r == p.(status := Ok, dmiAllowed := true)
        && forall l :: 0 <= l < memSize ==>
             Cell(l) == if p.address % memSize <= l < p.address % memSize + p.dataLength
                           && Enabled(p.byteEnable, p.beLength, l - p.address % memSize)
                        then p.data[l - p.address % memSize] else old(Cell(l))
      ensures Classify(p) == Access && !Injected(p, errorRateRead, errorRateWrite, draw) && p.IsRead() ==>
        r == p.(data := r.data, status := Ok, dmiAllowed := true)
        && (forall l :: Cell(l) == old(Cell(l)))
        && |r.data| == |p.data|
        && forall i :: 0 <= i < |p.data| ==>
             r.data[i] == if i < p.dataLength && Enabled(p.byteEnable, p.beLength, i)
                          then Cell(p.address % memSize + i) else p.data[i]
    {
      var check := Classify(p);
      if check == NoAccess {
        return p.(status := Ok), delay;
      }
      if check.Refused? {
        return p.(status := check.status), delay;
      }
      d := Occupy(delay, now, p.dataLength);
      if Injected(p, errorRateRead, errorRateWrite, draw) {
        return p.(status := GenericError), d;
      }
      AccessFitsBlock(p);
      r := Serve(p);
    }

    /** The bandwidth model of b_transport for a transfer of length bytes, when latency is configured. */
    method Occupy(delay: nat, now: nat, length: nat) returns (d: nat)
      requires Valid()
      modifies this
      ensures Valid() && blocks == old(blocks)
      ensures errorRateRead == old(errorRateRead) && errorRateWrite == old(errorRateWrite)
      ensures delayEnabled ==>
        (nextTime, d) == Schedule(old(nextTime), now, delay, TransferTime(accessLatency, byteLatency, length))
      ensures !delayEnabled ==> nextTime == old(nextTime) && d == delay
    {
      d := delay;
      if delayEnabled {
        var xfer := TransferTime(accessLatency, byteLatency, length);
        if nextTime < now {
          nextTime := now;
        }
        nextTime := nextTime + xfer;
        d := d + xfer;
        if d < nextTime - now {
          d := nextTime - now;
        }
      }
    }

    /** The copy of a successful b_transport: enabled bytes move to or from the memory; the payload allows DMI and is OK. */
    method Serve(p: Payload) returns (r: Payload)
      requires Valid() && p.WellFormed() && (p.IsRead() || p.IsWrite())
      requires p.address % BLOCK_SIZE + p.dataLength <= BLOCK_SIZE
      modifies this
      ensures Valid() && nextTime == old(nextTime)
      ensures errorRateRead == old(errorRateRead) && errorRateWrite == old(errorRateWrite)
      ensures p.IsWrite() ==>
        r == p.(status := Ok, dmiAllowed := true)
        && forall l :: 0 <= l < memSize ==>
             Cell(l) == if p.address % memSize <= l < p.address % memSize + p.dataLength
                           && Enabled(p.byteEnable, p.beLength, l - p.address % memSize)
                        then p.data[l - p.address % memSize] else old(Cell(l))
      ensures p.IsRead() ==>
        r == p.(data := r.data, status := Ok, dmiAllowed := true)
        && (forall l :: Cell(l) == old(Cell(l)))
        && |r.data| == |p.data|
        && forall i :: 0 <= i < |p.data| ==>
             r.data[i] == if i < p.dataLength && Enabled(p.byteEnable, p.beLength, i)
                          then Cell(p.address % memSize + i) else p.data[i]
    {
      if p.IsWrite() {
        Store(p.address, p.data[..p.dataLength], p.byteEnable, p.beLength);
        r := p;
      } else {
        var chunk := Load(p.address, p.dataLength);
        var data := CopyBytes(p.data, 0, chunk, 0, p.dataLength, p.byteEnable, p.beLength);
        r := p.(data := data);
      }
      r := r.(dmiAllowed := true, status := Ok);
    }

    /**
     * nb_transport_fw: only BEGIN_REQ arrives (the other phases are
     * asserted away); the request is served at once by b_transport, with
     * the same timing, stored or loaded bytes and DMI permission, and
     * answered with BEGIN_RESP and TLM_COMPLETED.
     */
    method NbTransportFw(p: Payload, phase: Phase, delay: nat, now: nat, draw: nat)
      returns (sync: SyncEnum, phase': Phase, r: Payload, d: nat)
      requires Valid() && p.WellFormed() && p.address < UINT64_LIMIT && p.dataLength < UINT32_LIMIT
      requires phase == BeginReq
      modifies this
      ensures Valid()
      ensures sync == Completed && phase' == BeginResp
      ensures r.status == Status(p, Injected(p, old(errorRateRead), old(errorRateWrite), draw))
      ensures errorRateRead == old(errorRateRead) && errorRateWrite == old(errorRateWrite)
      ensures Classify(p) != Access ==>
        r == p.(status := r.status) && d == delay && nextTime == old(nextTime) && blocks == old(blocks)
      ensures Classify(p) == Access && delayEnabled ==>
        (nextTime, d) == Schedule(old(nextTime), now, delay, TransferTime(accessLatency, byteLatency, p.dataLength))
      ensures Classify(p) == Access && !delayEnabled ==> nextTime == old(nextTime) && d == delay
      ensures Classify(p) == Access && Injected(p, errorRateRead, errorRateWrite, draw) ==>
        r == p.(status := GenericError) && blocks == old(blocks)
      ensures Classify(p) == Access && !Injected(p, errorRateRead, errorRateWrite, draw) && p.IsWrite() ==>
        r == p.(status := Ok, dmiAllowed := true)
        && forall l :: 0 <= l < memSize ==>
             Cell(l) == if p.address % memSize <= l < p.address % memSize + p.dataLength
                           && Enabled(p.byteEnable, p.beLength, l - p.address % memSize)
                        then p.data[l - p.address % memSize] else old(Cell(l))
      ensures Classify(p) == Access && !Injected(p, errorRateRead, errorRateWrite, draw) && p.IsRead() ==>
        r == p.(data := r.data, status := Ok, dmiAllowed := true)
        && (forall l :: Cell(l) == old(Cell(l)))
        && |r.data| == |p.data|
        && forall i :: 0 <= i < |p.data| ==>
             r.data[i] == if i < p.dataLength && Enabled(p.byteEnable, p.beLength, i)
                          then Cell(p.address % memSize + i) else p.data[i]
    {
      r, d := BTransport(p, delay, now, draw);
      sync, phase' := Completed, BeginResp;
    }

    /**
     * transport_dbg: commands that neither read nor write and block
     * crossings move nothing and return 0; otherwise all length bytes are
     * copied, ignoring byte enables and timing, and length is returned.
     */
    method TransportDbg(p: Payload) returns (n: nat, r: Payload)
      requires Valid() && p.WellFormed() && p.address < UINT64_LIMIT && p.dataLength < UINT32_LIMIT
      modifies this
      ensures Valid()
      ensures nextTime == old(nextTime)
      ensures errorRateRead == old(errorRateRead) && errorRateWrite == old(errorRateWrite)
      ensures (!p.IsRead() && !p.IsWrite()) || CrossesBlock(p.address, p.dataLength) ==>
        n == 0 && r == p && blocks == old(blocks)
      ensures (p.IsRead() || p.IsWrite()) && !CrossesBlock(p.address, p.dataLength) ==> n == p.dataLength
      ensures p.IsWrite() && !CrossesBlock(p.address, p.dataLength) ==>
        r == p
        && forall l :: 0 <= l < memSize ==>
             Cell(l) == if p.address % memSize <= l < p.address % memSize + p.dataLength
                        then p.data[l - p.address % memSize] else old(Cell(l))
      ensures p.IsRead() && !CrossesBlock(p.address, p.dataLength) ==>
        r == p.(data := r.data) && (forall l :: Cell(l) == old(Cell(l)))
        && |r.data| == |p.data|
        && forall i :: 0 <= i < |p.data| ==>
             r.data[i] == if i < p.dataLength then Cell(p.address % memSize + i) else p.data[i]
    {
      if (!p.IsRead() && !p.IsWrite()) || CrossesBlock(p.address, p.dataLength) {
        return 0, p;
      }
      if p.dataLength > 0 {
        WithinBlock(p.address, p.dataLength);
      }
      if p.IsWrite() {
        Store(p.address, p.data[..p.dataLength], [], 0);
        r := p;
      } else {
        var chunk := Load(p.address, p.dataLength);
        var data := CopyBytes(p.data, 0, chunk, 0, p.dataLength, [], 0);
        r := p.(data := data);
      }
      n := p.dataLength;
    }

    /**
     * get_direct_mem_ptr: DMI is granted for the whole block holding the
     * address, read and write, with the per-byte latency; the block is
     * created if needed.
     */
    method GetDirectMemPtr(address: nat) returns (granted: bool, dmi: Dmi)
      requires Valid() && address < UINT64_LIMIT
      modifies this
      ensures Valid()
      ensures granted
      ensures dmi.startAddress % BLOCK_SIZE == 0 && dmi.endAddress == dmi.startAddress + BLOCK_SIZE - 1
      ensures dmi.startAddress <= address <= dmi.endAddress
      ensures dmi.readLatency == byteLatency && dmi.writeLatency == byteLatency
      ensures dmi.startAddress % memSize - dmi.startAddress % BLOCK_SIZE in blocks
      ensures forall l :: Cell(l) == old(Cell(l))
      ensures nextTime == old(nextTime)
      ensures errorRateRead == old(errorRateRead) && errorRateWrite == old(errorRateWrite)
    {
      var start := AlignDown(address, BLOCK_SIZE);
      var key, offset := GetBlock(start);
      granted := true;
      dmi := Dmi(start, start + BLOCK_SIZE - 1, byteLatency, byteLatency);
    }
  }
}
