/** struct mempool with its buffer headers. A buffer is named by its index in the pool. */
module PacketPool {
  import opened Wrappers
  import Memory

  /** All entries are buffer indices of a pool of n. */
  ghost predicate Ids(s: seq<nat>, n: nat) { forall i | 0 <= i < |s| :: s[i] < n }

  /** A stack that has received buffers from the front of a queue. */
  lemma IdsGrow(free: seq<nat>, q: seq<nat>, grown: seq<nat>, n: nat)
    requires Ids(free, n) && Ids(q, n) && |free| <= |grown| <= |free| + |q| && grown == free + q[..|grown| - |free|]
    ensures Ids(grown, n)
  {
  }

  /** A queue that has lost a front part and may have gained a buffer. */
  lemma IdsTail(q: seq<nat>, k: nat, q': seq<nat>, b: nat, n: nat)
    requires Ids(q, n) && k <= |q| && b < n && (q' == q[k..] || q' == q[k..] + [b])
    ensures Ids(q', n)
  {
  }

  /** The indices that pkt_buf_free pushes for the buffers bs, given the mempool_idx fields. */
  ghost function IdxOf(idx: seq<nat>, bs: seq<nat>): seq<nat> {
    seq(|bs|, i requires 0 <= i < |bs| => if bs[i] < |idx| then idx[bs[i]] else 0)
  }

  lemma IdxIntact(idx: seq<nat>, bs: seq<nat>)
    requires Ids(bs, |idx|) && forall i | 0 <= i < |idx| :: idx[i] == i
    ensures IdxOf(idx, bs) == bs
  {
  }

  class Mempool {
    const numEntries: nat
    const bufSize: nat
    const baseAddrPhy: nat
    var freeStackTop: nat
    const freeStack: array<nat>
    // the fields of struct pkt_buf, per buffer
    const bufAddrPhy: array<nat>
    const mempoolIdx: array<nat>
    const size: array<nat>
    const data: array<seq<nat>>

    ghost predicate Valid()
      reads this
    {
      && freeStack.Length == bufAddrPhy.Length == mempoolIdx.Length == size.Length == data.Length == numEntries
      && freeStackTop <= numEntries
      && freeStack != bufAddrPhy && freeStack != mempoolIdx && freeStack != size
      && size != bufAddrPhy && size != mempoolIdx && bufAddrPhy != mempoolIdx
    }

    /** The free stack, top last. */
    ghost function FreeIds(): seq<nat>
      requires Valid()
      reads this, freeStack
    {
      freeStack[..freeStackTop]
    }

    /** mempool_idx of every buffer is its own index. */
    ghost predicate HeadersIntact()
      requires Valid()
      reads this, mempoolIdx
    {
      forall i | 0 <= i < numEntries :: mempoolIdx[i] == i
    }

    /** memory_allocate_mempool, given the bus address of the memory it obtained. */
    constructor (num: nat, entrySize: nat, phy: nat)
      ensures Valid() && fresh(freeStack) && fresh(mempoolIdx) && fresh(size) && fresh(data) && fresh(bufAddrPhy)
      ensures numEntries == num && bufSize == (if entrySize == 0 then 2048 else entrySize) && baseAddrPhy == phy
      ensures FreeIds() == seq(num, i => i) && HeadersIntact()
      ensures forall i | 0 <= i < num :: bufAddrPhy[i] == Memory.RecordedAddr(phy, i, bufSize) && size[i] == 0
    {
      numEntries := num;
      bufSize := if entrySize == 0 then 2048 else entrySize;
      baseAddrPhy := phy;
      freeStackTop := num;
      freeStack := new nat[num];
      bufAddrPhy := new nat[num];
      mempoolIdx := new nat[num];
      size := new nat[num];
      data := new seq<nat>[num];
      new;
      for i := 0 to num
        invariant Valid() && freeStackTop == num
        invariant forall k | 0 <= k < i :: freeStack[k] == k && mempoolIdx[k] == k && size[k] == 0
        invariant forall k | 0 <= k < i :: bufAddrPhy[k] == Memory.RecordedAddr(phy, k, bufSize)
      {
        freeStack[i] := i;
        bufAddrPhy[i] := Memory.RecordedAddr(phy, i, bufSize);
        mempoolIdx[i] := i;
        size[i] := 0;
      }
    }

    /** pkt_buf_alloc: None exactly for an empty pool, otherwise the top of the stack. */
    method Alloc() returns (b: Option<nat>)
      requires Valid()
      modifies this`freeStackTop
      ensures Valid()
      ensures b.None? <==> old(FreeIds()) == []
      ensures FreeIds() + (if b.Some? then [b.value] else []) == old(FreeIds())
    {
      if freeStackTop == 0 { return None; }
      freeStackTop := freeStackTop - 1;
      return Some(freeStack[freeStackTop]);
    }

    /** pkt_buf_free pushes the index in the buffer's header. The stack has room for an outstanding buffer. */
    method Free(b: nat)
      requires Valid() && b < numEntries && freeStackTop < numEntries
      modifies this`freeStackTop, freeStack
      ensures Valid()
      ensures FreeIds() == old(FreeIds()) + [old(mempoolIdx[b])]
    {
      freeStack[freeStackTop] := mempoolIdx[b];
      freeStackTop := freeStackTop + 1;
    }
  }

  ghost function Reverse(s: seq<nat>): seq<nat> { seq(|s|, i requires 0 <= i < |s| => s[|s| - 1 - i]) }

  /** init_mempool of the packet generator on a full pool: it takes every buffer out, fills it and puts them
      all back. Afterwards the stack is reversed and every buffer carries the template. */
  method InitMempool(pool: Mempool, pktSize: nat)
    requires pool.Valid() && pool.HeadersIntact() && pool.freeStackTop == pool.numEntries
    requires forall i | 0 <= i < pool.numEntries :: pool.freeStack[i] == i
    modifies pool`freeStackTop, pool.freeStack, pool.size, pool.data
    ensures pool.Valid() && pool.HeadersIntact()
    ensures pool.FreeIds() == Reverse(old(pool.FreeIds()))
    ensures forall b | 0 <= b < pool.numEntries ::
              pool.size[b] == pktSize && pool.data[b] == seq(pktSize, _ => 0xFF)
  {
    var n := pool.numEntries;
    var bufs := new nat[n];
    for k := 0 to n
      invariant pool.Valid() && pool.freeStackTop == n - k
      invariant forall i | 0 <= i < n :: pool.freeStack[i] == i && pool.mempoolIdx[i] == i
      invariant forall i | 0 <= i < k :: bufs[i] == n - 1 - i
      invariant forall b | n - k <= b < n :: pool.size[b] == pktSize && pool.data[b] == seq(pktSize, _ => 0xFF)
    {
      assert pool.FreeIds()[n - k - 1] == n - 1 - k;
      var buf := pool.Alloc();
      var b := buf.value;
      pool.size[b] := pktSize;
      pool.data[b] := seq(pktSize, _ => 0xFF);
      bufs[k] := b;
    }
    ReturnAll(pool, bufs);
  }

  /** The second loop of init_mempool. */
  method ReturnAll(pool: Mempool, bufs: array<nat>)
    requires pool.Valid() && pool.HeadersIntact() && pool.freeStackTop == 0
    requires bufs.Length == pool.numEntries && bufs != pool.freeStack
    requires forall i | 0 <= i < bufs.Length :: bufs[i] == bufs.Length - 1 - i
    modifies pool`freeStackTop, pool.freeStack
    ensures pool.Valid() && pool.freeStackTop == pool.numEntries
    ensures forall i | 0 <= i < pool.numEntries :: pool.freeStack[i] == pool.numEntries - 1 - i
  {
    var n := pool.numEntries;
    for k := 0 to n
      invariant pool.Valid() && pool.HeadersIntact() && pool.freeStackTop == k
      invariant forall i | 0 <= i < k :: pool.freeStack[i] == n - 1 - i
      invariant forall i | 0 <= i < n :: bufs[i] == n - 1 - i
    {
      ghost var was := pool.FreeIds();
      pool.Free(bufs[k]);
      assert pool.FreeIds() == was + [n - 1 - k];
      assert forall i | 0 <= i < k :: pool.freeStack[i] == pool.FreeIds()[i] == was[i];
      assert pool.freeStack[k] == pool.FreeIds()[k];
    }
  }
}
