/**
 * dlsc_tlm_mm: the memory manager that recycles generic-payload descriptors
 * through a bounded free pool and counts the descriptors handed out.
 */
module TlmMm {
  import opened Tlm
  import Bits

  /** The state `alloc` puts every descriptor in before handing it out. */
  predicate Initialised(p: Payload)
  {
    p.command == Ignore && p.address == 0 && p.dataLength == 0 && p.beLength == 0
    && p.streamingWidth == 0 && !p.dmiAllowed && p.status == Incomplete
  }

  /** The field resets of `alloc`; the attached buffers are kept. */
  function Reinitialise(p: Payload): (r: Payload)
    ensures Initialised(r)
    ensures r.data == p.data && r.byteEnable == p.byteEnable
  {
    p.(command := Ignore, address := 0, dataLength := 0, beLength := 0,
       streamingWidth := 0, dmiAllowed := false, status := Incomplete)
  }

  /** A descriptor built by this manager: its two buffers hold dsize bytes (none when dsize is 0). */
  predicate OwnBuffers(p: Payload, dsize: nat)
  {
    |p.data| == dsize && |p.byteEnable| == dsize
  }

  class MemoryManager {
    var pool: seq<Payload>
    var outstanding: nat
    var size: nat
    const dsize: nat

    /** Calls to alloc minus calls to free, for the accounting invariant. */
    ghost var net: int

    ghost predicate Valid()
      reads this
    {
      && size > 0
      && |pool| <= size
      && (forall i :: 0 <= i < |pool| ==> OwnBuffers(pool[i], dsize))
      // the unsigned counter holds allocs minus frees, modulo 2^32
      && outstanding == net % Bits.UINT32_LIMIT
    }

    /** A new manager has an empty pool and nothing outstanding; the defaults are one pooled descriptor and no buffers. */
    constructor (poolSize: nat := 1, payloadSize: nat := 0)
      requires poolSize > 0
      ensures Valid()
      ensures pool == [] && outstanding == 0 && size == poolSize && dsize == payloadSize
      ensures net == 0
    {
      dsize := payloadSize;
      outstanding := 0;
      pool := [];
      size := poolSize;
      net := 0;
    }

    /** set_size: a new positive capacity; surplus pooled descriptors are destroyed from the back. */
    method SetSize(poolSize: nat)
      requires Valid() && poolSize > 0
      modifies this
      ensures Valid()
      ensures size == poolSize
      ensures pool == old(pool)[..if |old(pool)| <= poolSize then |old(pool)| else poolSize]
      ensures outstanding == old(outstanding) && net == old(net)
    {
      size := poolSize;
      while |pool| > size
        invariant |pool| <= |old(pool)|
        invariant pool == old(pool)[..|pool|]
        invariant |pool| >= (if |old(pool)| <= size then |old(pool)| else size)
        invariant forall i :: 0 <= i < |pool| ==> OwnBuffers(pool[i], dsize)
        invariant size == poolSize && outstanding == old(outstanding)
        invariant net == old(net)
        decreases |pool|
      {
        pool := pool[..|pool| - 1];
      }
    }

    /** free: the descriptor returns to the pool unless the pool is full, in which case it is destroyed. */
    method Free(trans: Payload)
      requires Valid() && OwnBuffers(trans, dsize)
      modifies this
      ensures Valid()
      ensures pool == if |old(pool)| >= size then old(pool) else old(pool) + [trans]
      ensures outstanding == (old(outstanding) + Bits.UINT32_LIMIT - 1) % Bits.UINT32_LIMIT
      ensures size == old(size) && net == old(net) - 1
    {
      if |pool| >= size {
      } else {
        pool := pool + [trans];
      }
      outstanding := (outstanding + Bits.UINT32_LIMIT - 1) % Bits.UINT32_LIMIT;
      net := net - 1;
    }

    /**
     * alloc: reuse the most recently freed descriptor, or build one with
     * buffers of dsize bytes; either way the fields are reset. The two
     * buffers `new uint8_t[dsize]` returns are not initialised: their
     * contents are the parameters `heapData` and `heapBe`.
     */
    method Alloc(heapData: seq<byte>, heapBe: seq<byte>) returns (trans: Payload)
      requires Valid() && |heapData| == dsize && |heapBe| == dsize
      modifies this
      ensures Valid()
      ensures Initialised(trans) && OwnBuffers(trans, dsize)
      ensures old(pool) != [] ==>
        pool == old(pool)[..|old(pool)| - 1] && trans == Reinitialise(old(pool)[|old(pool)| - 1])
      ensures old(pool) == [] ==> pool == [] && trans.data == heapData && trans.byteEnable == heapBe
      ensures outstanding == (old(outstanding) + 1) % Bits.UINT32_LIMIT
      ensures size == old(size) && net == old(net) + 1
    {
      if pool != [] {
        trans := pool[|pool| - 1];
        pool := pool[..|pool| - 1];
      } else {
        trans := Payload(Ignore, 0, heapData, 0, heapBe, 0, 0, false, Incomplete);
      }
      trans := Reinitialise(trans);
      outstanding := (outstanding + 1) % Bits.UINT32_LIMIT;
      net := net + 1;
    }
  }
}
