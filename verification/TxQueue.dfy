/** struct ixgbe_tx_queue and ixgbe_tx_packet in place: every store is followed by an arbitrary number of
    NIC steps, and each is one step of the ring model. */
module TxQueue {
  import opened RingIndex
  import opened Descriptors
  import T = TxRing
  import opened PacketPool

  /** What an arbitrary number of NIC steps may do. */
  ghost predicate NicOnly(r: T.Ring, r': T.Ring) {
    && r' == r.(desc := r'.desc, tdh := r'.tdh, fetched := r'.fetched, written := r'.written)
    && r.written <= r'.written
  }

  /** One more freed buffer. */
  lemma IdxGrow(idx: seq<nat>, free: seq<nat>, q: seq<T.Posting>, i: nat, k: nat)
    requires i <= k < |q| && q[k].buf < |idx|
    ensures free + IdxOf(idx, T.Bufs(q[i..k + 1])) == (free + IdxOf(idx, T.Bufs(q[i..k]))) + [idx[q[k].buf]]
  {
    assert T.Bufs(q[i..k + 1]) == T.Bufs(q[i..k]) + [q[k].buf];
  }

  /** A whole call, from its effect on the history to its effect on queue and pool. */
  lemma CallSummary(v: T.Ring, w: T.Ring, took: bool, p: T.Posting, idx: seq<nat>, was: seq<nat>, now: seq<nat>)
    requires v.pc.Idle? && w.pc.Idle? && v.cleaned <= w.cleaned <= |v.posted|
    requires w.posted == v.posted + if took then [p] else []
    requires now == was + IdxOf(idx, T.Bufs(v.posted[v.cleaned..w.cleaned]))
    ensures var k := w.cleaned - v.cleaned;
            && |T.Queue(v)| == |v.posted| - v.cleaned
            && now == was + IdxOf(idx, T.Queue(v)[..k])
            && T.Queue(w) == T.Queue(v)[k..] + (if took then [p.buf] else [])
  {
    var more := if took then [p] else [];
    T.QueueAfterCall(v, w, more);
    assert T.Bufs(more) == if took then [p.buf] else [];
  }

  /** With intact headers, freeing pushes the buffers themselves. */
  lemma IntactPushes(idx: seq<nat>, was: seq<nat>, bs: seq<nat>, now: seq<nat>)
    requires Ids(bs, |idx|) && now == was + IdxOf(idx, bs)
    ensures (forall i | 0 <= i < |idx| :: idx[i] == i) ==> now == was + bs
  {
    if forall i | 0 <= i < |idx| :: idx[i] == i { IdxIntact(idx, bs); }
  }

  class Queue {
    const numEntries: nat
    const descriptors: array<TxDesc>
    const virtualAddresses: array<nat>
    var cleanIndex: nat
    var txIndex: nat
    const pool: Mempool
    // registers and inner state of the NIC
    var tdh: nat
    var tdt: nat
    var fetched: seq<TxDesc>
    var written: set<nat>
    // control state and history
    ghost var pc: T.Pc
    ghost var posted: seq<T.Posting>
    ghost var cleaned: nat

    ghost function View(): T.Ring
      reads this, descriptors, virtualAddresses
    {
      T.Ring(numEntries, descriptors[..], virtualAddresses[..], cleanIndex, txIndex, tdh, tdt, pc,
             posted, fetched, written, cleaned)
    }

    ghost predicate Shape()
      reads this, pool
    {
      && IsPow2(numEntries) && numEntries >= 2
      && descriptors.Length == virtualAddresses.Length == numEntries
      && pool.Valid()
      && virtualAddresses != pool.freeStack && virtualAddresses != pool.mempoolIdx
      && virtualAddresses != pool.size && virtualAddresses != pool.bufAddrPhy
    }

    ghost predicate Valid()
      reads this, pool, descriptors, virtualAddresses
    {
      Shape() && T.Inv(View()) && T.Encoded(View())
    }

    /** The queue after init_tx and start_tx_queue: power-of-two size, memory filled with 0xFF. */
    constructor (n: nat, pool: Mempool)
      requires IsPow2(n) && n >= 2 && pool.Valid()
      ensures Valid() && View() == T.Start(n) && this.pool == pool
      ensures fresh(descriptors) && fresh(virtualAddresses)
    {
      numEntries := n;
      this.pool := pool;
      descriptors := new TxDesc[n](_ => T.STALE);
      virtualAddresses := new nat[n](_ => 0);
      cleanIndex, txIndex, tdh, tdt, fetched, written := 0, 0, 0, 0, [], {};
      pc, posted, cleaned := T.Idle, [], 0;
      new;
      T.StartOk(n);
      assert View() == T.Start(n);
    }

    /** The NIC acts, any number of times, in any way it may. */
    method Nic()
      requires Valid()
      modifies this`tdh, this`fetched, this`written, descriptors
      ensures Valid() && NicOnly(old(View()), View())
    {
      var budget: nat := *;
      while budget > 0
        invariant Valid() && NicOnly(old(View()), View())
      {
        budget := budget - 1;
        var fetch: bool := *;
        var j: nat := *;
        var d: TxDesc := *;
        ghost var v := View();
        if fetch && tdh != tdt {
          T.FetchKeeps(v);
          fetched := fetched + [descriptors[tdh]];
          tdh := Next(tdh, numEntries);
          assert View() == T.Fetch(v);
        } else if !fetch && j < |fetched| && j !in written && TxDone(d) {
          T.WriteBackKeeps(v, j, d);
          T.WriteBackEncodes(v, j, d);
          descriptors[Slot(j, numEntries)] := d;
          written := written + {j};
          assert View() == T.WriteBack(v, j, d);
        }
      }
    }

    /** pkt_buf_free on the buffer of a sent packet, and the step to the next slot. */
    method ReleaseOne(ci: nat) returns (next: nat)
      requires Valid() && pc.Release? && pc.ci == ci < numEntries
      requires virtualAddresses[ci] < pool.numEntries && pool.freeStackTop < pool.numEntries
      modifies this`pc, this`cleaned, pool`freeStackTop, pool.freeStack
      ensures Valid() && View() == T.Driver(old(View())).0
      ensures pc == T.Scan(old(pc).buf, old(pc).pkt, next, old(pc).cur)
      ensures pool.FreeIds() == old(pool.FreeIds()) + [pool.mempoolIdx[virtualAddresses[ci]]]
    {
      T.DriverEncodes(View());
      pool.Free(virtualAddresses[ci]);
      WrapIsNext(ci, numEntries);
      next := IncAndWrap(ci, numEntries);
      pc, cleaned := T.Scan(pc.buf, pc.pkt, next, pc.cur), cleaned + 1;
    }

    /** The loop's test of the status word at ci, inside the window. */
    method ReadStatus(ci: nat) returns (done: bool)
      requires Valid() && PostedInPool() && pc.Scan? && pc.ci == ci != pc.cur && ci < numEntries
      modifies this`pc
      ensures Valid() && View() == T.Driver(old(View())).0 && cleaned < |posted|
      ensures done ==> pc == T.Release(old(pc).buf, old(pc).pkt, ci, old(pc).cur)
      ensures !done ==> pc == T.SaveClean(old(pc).buf, old(pc).pkt, ci, old(pc).cur) && cleaned !in written
      ensures virtualAddresses[ci] == posted[cleaned].buf < pool.numEntries
    {
      assert T.SlotOk(View(), cleaned);
      T.DriverEncodes(View());
      done := TxDone(descriptors[ci]);
      pc := if done then T.Release(pc.buf, pc.pkt, ci, pc.cur) else T.SaveClean(pc.buf, pc.pkt, ci, pc.cur);
    }

    /** The loop's exit with an empty window. */
    ghost method LeaveLoop()
      requires Valid() && pc.Scan? && pc.ci == pc.cur
      modifies this`pc
      ensures Valid() && View() == T.Driver(old(View())).0 && cleaned == |posted|
      ensures pc == T.SaveClean(old(pc).buf, old(pc).pkt, old(pc).ci, old(pc).cur)
    {
      SlotEqual(cleaned, |posted|, numEntries);
      T.DriverEncodes(View());
      pc := T.SaveClean(pc.buf, pc.pkt, pc.ci, pc.cur);
    }

    ghost method EnterCall(buf: nat, pkt: T.Pkt)
      requires Valid() && pc.Idle?
      modifies this`pc
      ensures Valid() && View() == T.Call(old(View()), buf, pkt)
    {
      T.CallKeeps(View(), buf, pkt);
      pc := T.Scan(buf, pkt, cleanIndex, txIndex);
    }

    /** One round of the cleaning loop. */
    method CleanOne(ci: nat) returns (done: bool, next: nat)
      requires Valid() && PostedInPool() && pc.Scan? && pc.ci == ci != pc.cur && ci < numEntries
      requires pool.freeStackTop < pool.numEntries
      modifies this`tdh, this`fetched, this`written, this`pc, this`cleaned, descriptors
      modifies pool`freeStackTop, pool.freeStack
      ensures Valid() && old(cleaned) < |posted| && old(written) <= written
      ensures !done ==> next == ci && cleaned == old(cleaned) && pool.FreeIds() == old(pool.FreeIds())
                        && pc == T.SaveClean(old(pc).buf, old(pc).pkt, ci, old(pc).cur) && cleaned !in written
      ensures done ==> cleaned == old(cleaned) + 1 && pc == T.Scan(old(pc).buf, old(pc).pkt, next, old(pc).cur)
                       && posted[old(cleaned)].buf < pool.numEntries
                       && pool.FreeIds() == old(pool.FreeIds()) + [pool.mempoolIdx[posted[old(cleaned)].buf]]
    {
      next := ci;
      done := ReadStatus(ci);
      if done {
        Nic();
        next := ReleaseOne(ci);
        Nic();
      }
    }

    /** The cleaning loop. It frees buffers from the front of the queue and stops at a packet that the NIC
        had not finished when the loop began, or when nothing is left. */
    method Clean() returns (clean: nat)
      requires Valid() && PostedInPool() && pc.Scan? && pc.ci == cleanIndex && pc.cur == txIndex
      requires pool.freeStackTop + (|posted| - cleaned) < pool.numEntries
      modifies this`tdh, this`fetched, this`written, this`pc, this`cleaned, descriptors
      modifies pool`freeStackTop, pool.freeStack
      ensures Valid() && pc == T.SaveClean(old(pc).buf, old(pc).pkt, clean, txIndex)
      ensures old(cleaned) <= cleaned <= |posted|
      ensures pool.FreeIds() == old(pool.FreeIds()) + Idx(T.Bufs(posted[old(cleaned)..cleaned]))
      ensures cleaned < |posted| ==> cleaned !in old(written)
    {
      clean := cleanIndex;
      while clean != txIndex
        invariant Valid() && PostedInPool() && pc == T.Scan(old(pc).buf, old(pc).pkt, clean, txIndex)
        invariant old(cleaned) <= cleaned <= |posted| && old(written) <= written
        invariant pool.freeStackTop + (|posted| - cleaned) < pool.numEntries
        invariant pool.FreeIds() == old(pool.FreeIds()) + Idx(T.Bufs(posted[old(cleaned)..cleaned]))
        decreases |posted| - cleaned
      {
        var done;
        done, clean := CleanNext(clean, old(pool.FreeIds()), old(cleaned));
        if !done { return; }
      }
      LeaveLoop();
    }

    /** The same, with everything freed since packet `from`, on top of the stack `before`. */
    method CleanNext(ci: nat, ghost before: seq<nat>, ghost from: nat) returns (done: bool, next: nat)
      requires Valid() && PostedInPool() && pc.Scan? && pc.ci == ci != pc.cur && ci < numEntries
      requires pool.freeStackTop < pool.numEntries && from <= cleaned
      requires pool.FreeIds() == before + Idx(T.Bufs(posted[from..cleaned]))
      modifies this`tdh, this`fetched, this`written, this`pc, this`cleaned, descriptors
      modifies pool`freeStackTop, pool.freeStack
      ensures Valid() && old(cleaned) < |posted| && old(written) <= written
      ensures !done ==> next == ci && cleaned == old(cleaned) && cleaned !in written
                        && pc == T.SaveClean(old(pc).buf, old(pc).pkt, ci, old(pc).cur)
      ensures done ==> cleaned == old(cleaned) + 1 && pc == T.Scan(old(pc).buf, old(pc).pkt, next, old(pc).cur)
                       && pool.freeStackTop == old(pool.freeStackTop) + 1
      ensures pool.FreeIds() == before + Idx(T.Bufs(posted[from..cleaned]))
    {
      ghost var k := cleaned;
      done, next := CleanOne(ci);
      if done { IdxGrow(pool.mempoolIdx[..], before, posted, from, k); }
    }

    /** What freeing the buffers bs pushes: the indices in their headers. */
    ghost function Idx(bs: seq<nat>): seq<nat>
      reads this, pool, pool.mempoolIdx
    {
      IdxOf(pool.mempoolIdx[..], bs)
    }

    /** Every posted buffer is one of the pool's. */
    ghost predicate PostedInPool()
      reads this, pool
    {
      forall j | 0 <= j < |posted| :: posted[j].buf < pool.numEntries
    }

    /** Store of clean_index, and the test for a full ring. */
    method SaveClean(clean: nat) returns (full: bool)
      requires Valid() && pc.SaveClean? && pc.ci == clean && pc.cur == txIndex
      modifies this`pc, this`cleanIndex
      ensures Valid() && View() == T.Driver(old(View())).0
      ensures full <==> |posted| - cleaned == numEntries - 1
      ensures pc == if full then T.Idle else T.PutShadow(old(pc).buf, old(pc).pkt, txIndex)
    {
      T.DriverEncodes(View());
      WrapIsNext(txIndex, numEntries);
      SlotEqual(cleaned, |posted| + 1, numEntries);
      cleanIndex := clean;
      full := clean == IncAndWrap(txIndex, numEntries);
      pc := if full then T.Idle else T.PutShadow(pc.buf, pc.pkt, txIndex);
    }

    method PutShadow(cur: nat, buf: nat)
      requires Valid() && pc.PutShadow? && pc.cur == cur && pc.buf == buf
      modifies this`pc, virtualAddresses
      ensures Valid() && View() == T.Driver(old(View())).0
    {
      ghost var v := View();
      T.DriverEncodes(v);
      virtualAddresses[cur] := buf;
      pc := T.PutIndex(pc.buf, pc.pkt, pc.cur);
      assert View() == T.Driver(v).0;
    }

    method PutIndex()
      requires Valid() && pc.PutIndex?
      modifies this`pc, this`txIndex
      ensures Valid() && View() == T.Driver(old(View())).0
    {
      ghost var v := View();
      T.DriverEncodes(v);
      WrapIsNext(txIndex, numEntries);
      txIndex := IncAndWrap(txIndex, numEntries);
      pc := T.PutAddr(pc.buf, pc.pkt, pc.cur);
      assert View() == T.Driver(v).0;
    }

    method PutAddr(cur: nat, buf: nat)
      requires Valid() && pc.PutAddr? && pc.cur == cur && pc.buf == buf
      modifies this`pc, descriptors
      ensures Valid() && View() == T.Driver(old(View())).0
    {
      ghost var v := View();
      T.DriverEncodes(v);
      descriptors[cur] := descriptors[cur].(addr := InPool(buf, DATA_OFFSET));
      pc := T.PutCmd(pc.buf, pc.pkt, pc.cur);
      assert View() == T.Driver(v).0;
    }

    method PutCmd(cur: nat, size: nat)
      requires Valid() && pc.PutCmd? && pc.cur == cur && pc.pkt.size == size
      modifies this`pc, descriptors
      ensures Valid() && View() == T.Driver(old(View())).0
    {
      ghost var v := View();
      T.DriverEncodes(v);
      descriptors[cur] := descriptors[cur].(cmdTypeLen := CmdWord(size));
      pc := T.PutLen(pc.buf, pc.pkt, pc.cur);
      assert View() == T.Driver(v).0;
    }

    method PutLen(cur: nat, size: nat)
      requires Valid() && pc.PutLen? && pc.cur == cur && pc.pkt.size == size
      modifies this`pc, descriptors
      ensures Valid() && View() == T.Driver(old(View())).0
    {
      ghost var v := View();
      T.DriverEncodes(v);
      descriptors[cur] := descriptors[cur].(olinfoStatus := PaylenWord(size));
      pc := T.PutTail(pc.buf, pc.pkt, pc.cur);
      assert View() == T.Driver(v).0;
    }

    method PutTail()
      requires Valid() && pc.PutTail?
      modifies this`pc, this`posted, this`tdt
      ensures Valid() && View() == T.Driver(old(View())).0
      ensures posted == old(posted) + [T.Posting(old(pc).buf, old(pc).pkt, TxEncode(old(pc).buf, old(pc).pkt.size))]
    {
      ghost var v := View();
      T.DriverEncodes(v);
      tdt := txIndex;
      posted := posted + [T.Posting(pc.buf, pc.pkt, descriptors[pc.cur])];
      pc := T.Idle;
      assert View() == T.Driver(v).0;
    }

    /** The three descriptor words. */
    method PutDescriptor(cur: nat, buf: nat)
      requires Valid() && pc.PutAddr? && pc.buf == buf && pc.cur == cur && buf < pool.numEntries
      requires pc.pkt.size == pool.size[buf]
      modifies this`tdh, this`fetched, this`written, this`pc, descriptors
      ensures Valid() && pc == T.PutTail(buf, old(pc).pkt, cur) && old(written) <= written
    {
      PutAddr(cur, buf);
      Nic();
      PutLengths(cur, buf);
    }

    /** The two of them that hold the length. */
    method PutLengths(cur: nat, buf: nat)
      requires Valid() && pc.PutCmd? && pc.buf == buf && pc.cur == cur && buf < pool.numEntries
      requires pc.pkt.size == pool.size[buf]
      modifies this`tdh, this`fetched, this`written, this`pc, descriptors
      ensures Valid() && pc == T.PutTail(buf, old(pc).pkt, cur) && old(written) <= written
    {
      PutCmd(cur, pool.size[buf]);
      Nic();
      PutLen(cur, pool.size[buf]);
      Nic();
    }

    /** Step 2 of ixgbe_tx_packet on a ring with room. */
    method Post(buf: nat, cur: nat)
      requires Valid() && pc.PutShadow? && pc.buf == buf && pc.cur == cur && buf < pool.numEntries
      requires pc.pkt.size == pool.size[buf]
      modifies this`tdh, this`tdt, this`fetched, this`written, this`pc, this`posted, this`txIndex
      modifies descriptors, virtualAddresses
      ensures Valid() && pc.Idle?
      ensures posted == old(posted) + [T.Posting(buf, old(pc).pkt, TxEncode(buf, old(pc).pkt.size))]
    {
      PutPointer(cur, buf);
      PutDescriptor(cur, buf);
      PutTail();
    }

    /** virtual_addresses and tx_index. */
    method PutPointer(cur: nat, buf: nat)
      requires Valid() && pc.PutShadow? && pc.cur == cur && pc.buf == buf
      modifies this`tdh, this`fetched, this`written, this`pc, this`txIndex, descriptors, virtualAddresses
      ensures Valid() && pc == T.PutAddr(buf, old(pc).pkt, cur)
    {
      PutShadow(cur, buf);
      Nic();
      PutIndex();
      Nic();
    }

    /** ixgbe_tx_packet. The call frees k buffers from the front of the queue: every packet up to the first
        that the NIC had not finished when the call began, and further ones finished meanwhile. It takes
        the buffer exactly if fewer than n - 1 packets remain, at the back of the queue, with a descriptor
        that says all about it; and it does take it if the oldest packet was finished before the call. */
    method TxPacket(buf: nat) returns (sent: nat)
      requires Valid() && pc.Idle? && PostedInPool() && buf < pool.numEntries
      requires pool.freeStackTop + |T.Queue(View())| < pool.numEntries
      modifies this, descriptors, virtualAddresses, pool`freeStackTop, pool.freeStack
      ensures Valid() && pc.Idle? && PostedInPool()
      ensures old(cleaned) <= cleaned <= |old(posted)|
      ensures cleaned < |old(posted)| ==> cleaned !in old(written)
      ensures forall j | 0 <= j < cleaned :: j in written
      ensures var k := cleaned - old(cleaned);
              && pool.FreeIds() == old(pool.FreeIds()) + Idx(old(T.Queue(View()))[..k])
              && (pool.HeadersIntact() ==> pool.FreeIds() == old(pool.FreeIds()) + old(T.Queue(View()))[..k])
              && T.Queue(View()) == old(T.Queue(View()))[k..] + (if sent == 1 then [buf] else [])
      ensures |pool.FreeIds()| + |T.Queue(View())| == |old(pool.FreeIds())| + |old(T.Queue(View()))| + sent
      ensures sent == 0 || sent == 1
      ensures sent == 1 <==> |old(posted)| - cleaned < numEntries - 1
      ensures old(cleaned) in old(written) ==> sent == 1
      ensures posted == old(posted) + if sent == 1 then [Accepted(buf)] else []
    {
      QueueInPool();
      ghost var q, was := T.Queue(View()), pool.FreeIds();
      assert |q| == |posted| - cleaned <= numEntries - 1;
      sent := Transmit(buf);
      IntactPushes(pool.mempoolIdx[..], was, q[..cleaned - old(cleaned)], pool.FreeIds());
    }

    lemma QueueInPool()
      requires Valid() && pc.Idle? && PostedInPool()
      ensures Ids(T.Queue(View()), pool.numEntries)
    {
    }

    /** The same, with whatever the headers hold. */
    method Transmit(buf: nat) returns (sent: nat)
      requires Valid() && pc.Idle? && PostedInPool() && buf < pool.numEntries
      requires pool.freeStackTop + |T.Queue(View())| < pool.numEntries
      modifies this, descriptors, virtualAddresses, pool`freeStackTop, pool.freeStack
      ensures Valid() && pc.Idle? && PostedInPool()
      ensures old(cleaned) <= cleaned <= |old(posted)|
      ensures cleaned < |old(posted)| ==> cleaned !in old(written)
      ensures var k := cleaned - old(cleaned);
              && k <= |old(T.Queue(View()))|
              && pool.FreeIds() == old(pool.FreeIds()) + Idx(old(T.Queue(View()))[..k])
              && T.Queue(View()) == old(T.Queue(View()))[k..] + (if sent == 1 then [buf] else [])
      ensures sent == 0 || sent == 1
      ensures sent == 1 <==> |old(posted)| - cleaned < numEntries - 1
      ensures posted == old(posted) + if sent == 1 then [Accepted(buf)] else []
    {
      ghost var v, was := View(), pool.FreeIds();
      assert |T.Queue(v)| == |posted| - cleaned;
      sent := CleanAndPost(buf);
      CallSummary(v, View(), sent == 1, Accepted(buf), pool.mempoolIdx[..], was, pool.FreeIds());
    }

    /** Both steps of ixgbe_tx_packet, described on the history. */
    method CleanAndPost(buf: nat) returns (sent: nat)
      requires Valid() && pc.Idle? && PostedInPool() && buf < pool.numEntries
      requires pool.freeStackTop + (|posted| - cleaned) < pool.numEntries
      modifies this, descriptors, virtualAddresses, pool`freeStackTop, pool.freeStack
      ensures Valid() && pc.Idle? && PostedInPool()
      ensures old(cleaned) <= cleaned <= |old(posted)|
      ensures cleaned < |old(posted)| ==> cleaned !in old(written)
      ensures pool.FreeIds() == old(pool.FreeIds()) + Idx(T.Bufs(old(posted)[old(cleaned)..cleaned]))
      ensures sent == 0 || sent == 1
      ensures sent == 1 <==> |old(posted)| - cleaned < numEntries - 1
      ensures posted == old(posted) + if sent == 1 then [Accepted(buf)] else []
    {
      EnterCall(buf, T.Pkt(pool.size[buf], pool.data[buf]));
      Nic();
      var clean := Clean();
      Nic();
      sent := Finish(buf, clean);
    }

    /** From the store of clean_index to the return. */
    method Finish(buf: nat, clean: nat) returns (sent: nat)
      requires Valid() && buf < pool.numEntries
      requires pc == T.SaveClean(buf, T.Pkt(pool.size[buf], pool.data[buf]), clean, txIndex)
      modifies this`tdh, this`tdt, this`fetched, this`written, this`pc, this`posted, this`txIndex, this`cleanIndex
      modifies descriptors, virtualAddresses
      ensures Valid() && pc.Idle? && (sent == 0 || sent == 1)
      ensures sent == 1 <==> |old(posted)| - cleaned < numEntries - 1
      ensures posted == old(posted) + if sent == 1 then [Accepted(buf)] else []
    {
      var full := SaveClean(clean);
      if full { return 0; }
      Nic();
      Post(buf, txIndex);
      return 1;
    }

    /** The record of a buffer handed over now. */
    ghost function Accepted(buf: nat): T.Posting
      requires Shape() && buf < pool.numEntries
      reads this, pool, pool.size, pool.data
    {
      T.Posting(buf, T.Pkt(pool.size[buf], pool.data[buf]), TxEncode(buf, pool.size[buf]))
    }
  }
}
