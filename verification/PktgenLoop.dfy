/** The transmit loop of ixy-pktgen in place, on the pool and the transmit queue. */
module PktgenLoop {
  import T = TxRing
  import opened PacketPool
  import TxQueue

  ghost predicate Ready(pool: Mempool, q: TxQueue.Queue)
    reads q, pool, pool.freeStack, pool.mempoolIdx, q.descriptors, q.virtualAddresses
  {
    && q.pool == pool && q.Valid() && pool.HeadersIntact() && q.pc.Idle? && q.PostedInPool()
    && Ids(pool.FreeIds(), pool.numEntries) && Ids(T.Queue(q.View()), pool.numEntries)
  }

  /** One transmit call. */
  method TryOnce(pool: Mempool, q: TxQueue.Queue, buf: nat) returns (r: nat)
    requires Ready(pool, q) && buf < pool.numEntries
    requires |pool.FreeIds()| + |T.Queue(q.View())| + 1 == pool.numEntries
    modifies q, q.descriptors, q.virtualAddresses, pool`freeStackTop, pool.freeStack
    ensures Ready(pool, q) && (r == 0 || r == 1) && |q.posted| == |old(q.posted)| + r
    ensures |pool.FreeIds()| + |T.Queue(q.View())| + 1 - r == pool.numEntries
  {
    ghost var was, free := T.Queue(q.View()), pool.FreeIds();
    r := q.TxPacket(buf);
    ghost var k := |pool.FreeIds()| - |free|;
    assert pool.FreeIds() == free + was[..k];
    IdsGrow(free, was, pool.FreeIds(), pool.numEntries);
    IdsTail(was, k, T.Queue(q.View()), buf, pool.numEntries);
  }

  /** Sends one buffer, retrying at most `patience` times. */
  method SendOne(pool: Mempool, q: TxQueue.Queue, buf: nat, patience: nat) returns (sent: bool)
    requires Ready(pool, q) && buf < pool.numEntries
    requires |pool.FreeIds()| + |T.Queue(q.View())| + 1 == pool.numEntries
    modifies q, q.descriptors, q.virtualAddresses, pool`freeStackTop, pool.freeStack
    ensures Ready(pool, q)
    ensures |pool.FreeIds()| + |T.Queue(q.View())| + (if sent then 0 else 1) == pool.numEntries
    ensures |q.posted| == |old(q.posted)| + (if sent then 1 else 0)
  {
    for i := 0 to patience
      invariant Ready(pool, q) && |q.posted| == |old(q.posted)|
      invariant |pool.FreeIds()| + |T.Queue(q.View())| + 1 == pool.numEntries
    {
      var r := TryOnce(pool, q, buf);
      if r == 1 { return true; }
    }
    return false;
  }

  /** The loop, for any number of rounds; the run stops early only if a packet was never taken. The allocation is
      never NULL, and at every loop head at least N - (n - 1) buffers are free. */
  method Generate(pool: Mempool, q: TxQueue.Queue, rounds: nat) returns (gotNull: bool, sent: nat)
    requires Ready(pool, q) && |pool.FreeIds()| + |T.Queue(q.View())| == pool.numEntries
    requires pool.numEntries >= q.numEntries
    modifies q, q.descriptors, q.virtualAddresses, pool`freeStackTop, pool.freeStack
    ensures !gotNull && sent <= rounds && |q.posted| == |old(q.posted)| + sent
    ensures Ready(pool, q)
    ensures sent == rounds ==> |pool.FreeIds()| >= pool.numEntries - (q.numEntries - 1)
  {
    sent := 0;
    while sent < rounds
      invariant Ready(pool, q) && |pool.FreeIds()| + |T.Queue(q.View())| == pool.numEntries
      invariant sent <= rounds && |q.posted| == |old(q.posted)| + sent
    {
      T.QueueBound(q.View());
      var buf := pool.Alloc();
      if buf.None? { return true, sent; }
      var patience: nat := *;
      var ok := SendOne(pool, q, buf.value, patience);
      if !ok { return false, sent; }
      sent := sent + 1;
    }
    T.QueueBound(q.View());
    gotNull := false;
  }
}
