/** The loop of ixy-fwd in place, with the receive function as written and whatever offset the start used. Headers may
    have been overwritten: pkt_buf_free then pushes the index it finds. */
module ForwarderLoop {
  import opened Descriptors
  import T = TxRing
  import opened PacketPool
  import RxQueue
  import TxQueue

  datatype Ending = RoundsDone | PoolEmpty | MultiSegment

  /** Both queues use the pool, have their own arrays and are between calls. */
  ghost predicate Ready(pool: Mempool, rx: RxQueue.Queue, tx: TxQueue.Queue)
    reads rx, tx, pool, rx.descriptors, rx.virtualAddresses, tx.descriptors, tx.virtualAddresses
  {
    && rx.pool == pool && tx.pool == pool && rx.virtualAddresses != tx.virtualAddresses
    && rx.Valid() && tx.Valid() && rx.pc.Idle? && tx.pc.Idle? && tx.PostedInPool()
  }

  /** free + one per receive slot + in flight + rejected */
  ghost function Count(pool: Mempool, rx: RxQueue.Queue, tx: TxQueue.Queue, rejected: nat): nat
    requires pool.Valid() && tx.cleaned <= |tx.posted|
    reads rx, tx, pool, pool.freeStack, tx.descriptors, tx.virtualAddresses
  {
    |pool.FreeIds()| + rx.numEntries + |T.Queue(tx.View())| + rejected
  }

  /** A send is rejected only by a full ring, so there are never more rejections than the pool can lose. */
  ghost predicate Bounded(pool: Mempool, rx: RxQueue.Queue, tx: TxQueue.Queue, rejected: nat) {
    rejected > 0 ==> rejected + rx.numEntries + (tx.numEntries - 1) <= pool.numEntries
  }

  /** The start added the data offset. */
  ghost predicate DataAreas(posted: seq<DmaAddr>) {
    forall j | 0 <= j < |posted| :: posted[j].InPool? && posted[j].off >= DATA_OFFSET
  }

  /** One transmit call of the loop, whose result the loop ignores. */
  method SendOrLose(pool: Mempool, rx: RxQueue.Queue, tx: TxQueue.Queue, buf: nat, rejected: nat) returns (lost: nat)
    requires Ready(pool, rx, tx) && buf < pool.numEntries
    requires Count(pool, rx, tx, rejected) + 1 == pool.numEntries && Bounded(pool, rx, tx, rejected)
    modifies tx, tx.descriptors, tx.virtualAddresses, pool`freeStackTop, pool.freeStack
    ensures Ready(pool, rx, tx) && rejected <= lost <= rejected + 1
    ensures Count(pool, rx, tx, lost) == pool.numEntries && Bounded(pool, rx, tx, lost)
  {
    var sent := tx.TxPacket(buf);
    assert rx.Valid();
    assert |T.Queue(tx.View())| == |tx.posted| - tx.cleaned;
    lost := if sent == 1 then rejected else rejected + 1;
    assert Count(pool, rx, tx, lost) == pool.numEntries;
  }

  /** One receive call of the loop, with the transmit NIC active around it. */
  method Receive(pool: Mempool, rx: RxQueue.Queue, tx: TxQueue.Queue, ghost rejected: nat) returns (r: RxQueue.Result)
    requires Ready(pool, rx, tx) && Count(pool, rx, tx, rejected) == pool.numEntries
    modifies rx, rx.descriptors, tx`tdh, tx`fetched, tx`written, tx.descriptors
    modifies pool`freeStackTop, pool.data, pool.size, pool.mempoolIdx, pool.bufAddrPhy
    ensures pool.Valid()
    ensures r.NoPacket? ==> Ready(pool, rx, tx) && Count(pool, rx, tx, rejected) == pool.numEntries
    ensures r.Packet? ==> Ready(pool, rx, tx) && Count(pool, rx, tx, rejected) + 1 == pool.numEntries
                          && r.buf < pool.numEntries
    ensures r.PoolEmpty? ==> rejected + rx.numEntries + (tx.numEntries - 1) >= pool.numEntries
    ensures old(Safe(pool, rx)) ==> pool.HeadersIntact() && (r.NoPacket? || r.Packet? ==> Safe(pool, rx))
  {
    T.QueueBound(tx.View());
    tx.Nic();
    r := Call(rx);
    if r.NoPacket? || r.Packet? { tx.Nic(); }
  }

  /** The receive call, as far as the loop is concerned. */
  method Call(rx: RxQueue.Queue) returns (r: RxQueue.Result)
    requires rx.Valid() && rx.pc.Idle?
    modifies rx, rx.descriptors
    modifies rx.pool`freeStackTop, rx.pool.data, rx.pool.size, rx.pool.mempoolIdx, rx.pool.bufAddrPhy
    ensures rx.Valid() && (r.NoPacket? || r.Packet? ==> rx.pc.Idle?)
    ensures r.NoPacket? ==> rx.pool.FreeIds() == old(rx.pool.FreeIds())
    ensures r.Packet? ==> |rx.pool.FreeIds()| + 1 == |old(rx.pool.FreeIds())| && r.buf < rx.pool.numEntries
    ensures r.PoolEmpty? ==> old(rx.pool.FreeIds()) == []
    ensures old(Safe(rx.pool, rx)) ==> rx.pool.HeadersIntact() && (r.NoPacket? || r.Packet? ==> Safe(rx.pool, rx))
  {
    r := rx.RxPacket();
    if old(Safe(rx.pool, rx)) {
      forall b: nat | b < rx.pool.numEntries ensures rx.pool.mempoolIdx[b] == b {
        assert RxQueue.Spared(old(rx.posted), |old(rx.filled)|, b);
        assert rx.Links(b) == old(rx.Links(b));
      }
    }
  }

  /** What every round keeps. */
  ghost predicate Going(pool: Mempool, rx: RxQueue.Queue, tx: TxQueue.Queue, rejected: nat)
    reads rx, tx, pool, pool.freeStack, rx.descriptors, rx.virtualAddresses, tx.descriptors, tx.virtualAddresses
  {
    Ready(pool, rx, tx) && Count(pool, rx, tx, rejected) == pool.numEntries && Bounded(pool, rx, tx, rejected)
  }

  /** The start added the data offset and headers are intact. */
  ghost predicate Safe(pool: Mempool, rx: RxQueue.Queue)
    requires pool.Valid()
    reads rx, pool, pool.mempoolIdx
  {
    DataAreas(rx.posted) && pool.HeadersIntact()
  }

  /** One round of the loop; RoundsDone means that it goes on. */
  method Round(pool: Mempool, rx: RxQueue.Queue, tx: TxQueue.Queue, rejected: nat) returns (end: Ending, lost: nat)
    requires Going(pool, rx, tx, rejected)
    modifies rx, rx.descriptors, tx, tx.descriptors, tx.virtualAddresses
    modifies pool`freeStackTop, pool.freeStack, pool.data, pool.size, pool.mempoolIdx, pool.bufAddrPhy
    ensures pool.Valid() && rejected <= lost <= rejected + 1 && Bounded(pool, rx, tx, lost)
    ensures end.RoundsDone? ==> Going(pool, rx, tx, lost)
    ensures end.PoolEmpty? ==> lost + rx.numEntries + (tx.numEntries - 1) >= pool.numEntries
    ensures old(Safe(pool, rx)) ==> pool.HeadersIntact() && (end.RoundsDone? ==> Safe(pool, rx))
  {
    lost := rejected;
    var r := Receive(pool, rx, tx, rejected);
    if r.PoolEmpty? { return PoolEmpty, lost; }
    if r.MultiSegment? { return MultiSegment, lost; }
    if r.Packet? { lost := SendOrLose(pool, rx, tx, r.buf, rejected); }
    end := RoundsDone;
  }

  /** The loop, for any number of rounds, with the transmit NIC active during receive calls too. At every loop head
      free + receive slots + in flight + rejected is the pool size. The run ends on an empty pool only after
      N - nrx - (ntx - 1) rejected sends, and there are never more. Headers stay intact if the start added the
      data offset. */
  method Forward(pool: Mempool, rx: RxQueue.Queue, tx: TxQueue.Queue, rounds: nat) returns (end: Ending, rejected: nat)
    requires Going(pool, rx, tx, 0)
    modifies rx, rx.descriptors, tx, tx.descriptors, tx.virtualAddresses
    modifies pool`freeStackTop, pool.freeStack, pool.data, pool.size, pool.mempoolIdx, pool.bufAddrPhy
    ensures rejected <= rounds && Bounded(pool, rx, tx, rejected) && pool.Valid()
    ensures end.RoundsDone? ==> Going(pool, rx, tx, rejected)
    ensures end.PoolEmpty? ==> rejected + rx.numEntries + (tx.numEntries - 1) >= pool.numEntries
    ensures old(Safe(pool, rx)) ==> pool.HeadersIntact()
  {
    rejected := 0;
    for i := 0 to rounds
      invariant Going(pool, rx, tx, rejected) && rejected <= i
      invariant old(Safe(pool, rx)) ==> Safe(pool, rx)
    {
      end, rejected := Round(pool, rx, tx, rejected);
      if !end.RoundsDone? { return; }
    }
    end := RoundsDone;
  }
}
