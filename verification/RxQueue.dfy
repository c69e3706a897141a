/** struct ixgbe_rx_queue, start_rx_queue and ixgbe_rx_packet in place, as written: every store is followed
    by an arbitrary number of NIC steps, and each is one step of the ring model. */
module RxQueue {
  import opened Wrappers
  import opened RingIndex
  import opened Descriptors
  import R = RxRing
  import opened PacketPool

  /** What an arbitrary number of NIC steps may do. */
  ghost predicate NicOnly(r: R.Ring, r': R.Ring) {
    r' == r.(desc := r'.desc, rdh := r'.rdh, filled := r'.filled) && r.filled <= r'.filled
  }

  /** The first n buffers popped from a stack. */
  function PopOrder(stack: seq<nat>, n: nat): seq<nat>
    requires n <= |stack|
  {
    seq(n, i requires 0 <= i < n => stack[|stack| - 1 - i])
  }

  ghost predicate Distinct(s: seq<nat>) { forall i, j | 0 <= i < j < |s| :: s[i] != s[j] }

  /** No descriptor from number k on lets the NIC write into the header of buffer b. */
  ghost predicate Spared(posted: seq<DmaAddr>, k: nat, b: nat) {
    forall j | k <= j < |posted| :: posted[j].InPool? && posted[j].off < DATA_OFFSET ==> posted[j].buf != b
  }

  lemma SparedLater(posted: seq<DmaAddr>, k: nat, k': nat)
    requires k <= k'
    ensures forall b: nat | Spared(posted, k, b) :: Spared(posted, k', b)
  {
  }

  datatype Result = Packet(buf: nat) | NoPacket | PoolEmpty | MultiSegment

  class Queue {
    const numEntries: nat
    const descriptors: array<RxDesc>
    const virtualAddresses: array<nat>
    var rxIndex: nat
    const pool: Mempool
    // registers of the NIC
    var rdh: nat
    var rdt: nat
    // control state and history
    ghost var pc: R.Pc
    ghost var posted: seq<DmaAddr>
    ghost var filled: seq<R.Fill>
    ghost var taken: nat

    ghost function View(): R.Ring
      reads this, descriptors, virtualAddresses
    {
      R.Ring(numEntries, descriptors[..], virtualAddresses[..], rxIndex, rdh, rdt, pc, posted, filled, taken)
    }

    ghost predicate Shape()
      reads this, pool
    {
      && IsPow2(numEntries) && numEntries >= 2
      && descriptors.Length == virtualAddresses.Length == numEntries
      && pool.Valid()
      && virtualAddresses != pool.freeStack && virtualAddresses != pool.size
      && virtualAddresses != pool.mempoolIdx && virtualAddresses != pool.bufAddrPhy
    }

    /** The shadow pointers name distinct buffers of the pool, those posted at the start, at whatever offset; every
        later posting is a data area. */
    ghost predicate Targets()
      requires Shape()
      reads this, pool, virtualAddresses
    {
      && (forall i | 0 <= i < numEntries :: virtualAddresses[i] < pool.numEntries)
      && Distinct(virtualAddresses[..])
      && (forall j | 0 <= j < |posted| :: posted[j].InPool?)
      && (forall j | 0 <= j < numEntries && j < |posted| :: posted[j].buf == virtualAddresses[j])
      && (forall j | numEntries <= j < |posted| :: posted[j].off == DATA_OFFSET)
    }

    /** The fields of a header that pkt_buf_free and the refill read. */
    ghost function Links(b: nat): (nat, nat)
      requires pool.Valid() && b < pool.numEntries
      reads this, pool, pool.mempoolIdx, pool.bufAddrPhy
    {
      (pool.mempoolIdx[b], pool.bufAddrPhy[b])
    }

    /** The header of buffer b. */
    ghost function Header(b: nat): ((nat, nat), nat)
      requires pool.Valid() && b < pool.numEntries
      reads this, pool, pool.mempoolIdx, pool.bufAddrPhy, pool.size
    {
      (Links(b), pool.size[b])
    }

    ghost predicate Valid()
      reads this, pool, descriptors, virtualAddresses
    {
      Shape() && Targets() && R.Inv(View())
    }

    /** start_rx_queue on a fresh pool: one buffer per slot, popped from the top, posted at byte `off`. The
        source passes 0 for `off`. */
    constructor (n: nat, pool: Mempool, off: nat)
      requires IsPow2(n) && n >= 2 && pool.Valid() && n <= pool.freeStackTop
      modifies pool`freeStackTop
      ensures Shape() && this.pool == pool && fresh(descriptors) && fresh(virtualAddresses)
      ensures View() == R.Start(PopOrder(old(pool.FreeIds()), n), off) && R.Inv(View())
      ensures pool.FreeIds() == old(pool.FreeIds())[..old(pool.freeStackTop) - n]
      ensures Ids(old(pool.FreeIds()), pool.numEntries) && Distinct(old(pool.FreeIds())) ==> Valid()
    {
      numEntries := n;
      this.pool := pool;
      descriptors := new RxDesc[n](_ => RxDesc(Raw(0), 0, 0));
      virtualAddresses := new nat[n](_ => 0);
      rxIndex, rdh, rdt := 0, 0, n - 1;
      pc, posted, filled, taken := R.Idle, [], [], 0;
      new;
      FillRing(off);
      ghost var popped := PopOrder(old(pool.FreeIds()), n);
      posted := seq(n, i requires 0 <= i < n => InPool(popped[i], off));
      R.StartOk(popped, off);
      assert View() == R.Start(popped, off);
    }

    /** The loop of start_rx_queue. */
    method FillRing(off: nat)
      requires Shape() && numEntries <= pool.freeStackTop
      modifies descriptors, virtualAddresses, pool`freeStackTop
      ensures Shape() && pool.FreeIds() == old(pool.FreeIds())[..old(pool.freeStackTop) - numEntries]
      ensures var popped := PopOrder(old(pool.FreeIds()), numEntries);
              && virtualAddresses[..] == popped
              && descriptors[..] ==
                 seq(numEntries, i requires 0 <= i < numEntries => RxDesc(InPool(popped[i], off), 0, 0))
    {
      ghost var stack, top := pool.FreeIds(), pool.freeStackTop;
      ghost var popped := PopOrder(stack, numEntries);
      for i := 0 to numEntries
        invariant Shape() && pool.FreeIds() == stack[..top - i]
        invariant forall k | 0 <= k < i :: virtualAddresses[k] == popped[k]
        invariant forall k | 0 <= k < i :: descriptors[k] == RxDesc(InPool(popped[k], off), 0, 0)
      {
        var buf := pool.Alloc();
        descriptors[i] := RxDesc(InPool(buf.value, off), 0, 0);
        virtualAddresses[i] := buf.value;
      }
    }

    /** One packet. Written below the data offset, it replaces the header by whatever it contains. */
    method StorePacket(wb: RxDesc, data: seq<nat>)
      requires Valid() && rdh != rdt && RxDone(wb)
      modifies this`rdh, this`filled, descriptors, pool.data, pool.size, pool.mempoolIdx, pool.bufAddrPhy
      ensures Valid() && NicOnly(old(View()), View())
      ensures forall b: nat | b < pool.numEntries && Spared(posted, |old(filled)|, b) :: Header(b) == old(Header(b))
    {
      ghost var v, k := View(), |filled|;
      R.StoreKeeps(v, wb, data);
      R.StoreRoom(v);
      assert R.SlotOk(v, k);
      var addr := descriptors[rdh].addr;
      assert addr == posted[k];
      WriteBuffer(addr, data);
      filled := filled + [R.Fill(addr, wb.length, RxEndOfPacket(wb), data)];
      descriptors[rdh] := wb;
      rdh := Next(rdh, numEntries);
      assert View() == R.Store(v, wb, data);
    }

    /** The DMA write itself; an address outside the pool is somebody else's memory. */
    method WriteBuffer(addr: DmaAddr, data: seq<nat>)
      requires Shape() && addr.InPool?
      modifies pool.data, pool.size, pool.mempoolIdx, pool.bufAddrPhy
      ensures forall b: nat | b < pool.numEntries && (addr.off >= DATA_OFFSET || b != addr.buf) ::
                Header(b) == old(Header(b))
      ensures forall b: nat | b < pool.numEntries ::
                pool.data[b] == if b == addr.buf then Landed(old(pool.data[b]), addr.off, data) else old(pool.data[b])
    {
      var b := addr.buf;
      if b < pool.numEntries {
        pool.data[b] := Landed(pool.data[b], addr.off, data);
        if addr.off < DATA_OFFSET && data != [] {
          pool.size[b] := *;
          pool.mempoolIdx[b] := *;
          pool.bufAddrPhy[b] := *;
        }
      }
    }

    /** The NIC acts, any number of times, in any way it may. */
    method Nic()
      requires Valid()
      modifies this`rdh, this`filled, descriptors, pool.data, pool.size, pool.mempoolIdx, pool.bufAddrPhy
      ensures Valid() && NicOnly(old(View()), View())
      ensures forall b: nat | b < pool.numEntries && Spared(posted, |old(filled)|, b) :: Header(b) == old(Header(b))
    {
      var budget: nat := *;
      while budget > 0
        invariant Valid() && NicOnly(old(View()), View())
        invariant forall b: nat | b < pool.numEntries && Spared(posted, |old(filled)|, b) ::
                    Header(b) == old(Header(b))
      {
        budget := budget - 1;
        var wb: RxDesc := *;
        var data: seq<nat> := *;
        if rdh != rdt && RxDone(wb) { StorePacket(wb, data); }
      }
    }

    ghost method EnterCall()
      requires Valid() && pc.Idle?
      modifies this`pc
      ensures Valid() && View() == R.Call(old(View()))
    {
      R.CallKeeps(View());
      pc := R.Poll(rxIndex);
    }

    /** Read of the status word, with the two tests on it. */
    method ReadStatus(i: nat) returns (r: Result)
      requires Valid() && pc == R.Poll(i)
      modifies this`pc
      ensures Valid() && View() == R.Driver(old(View()), false, None).0
      ensures r.NoPacket? || r.MultiSegment? || r.Packet?
      ensures r.NoPacket? <==> pc.Idle?
      ensures r.NoPacket? <==> taken == |filled|
      ensures r.MultiSegment? <==> pc.Aborted?
      ensures r.MultiSegment? <==> taken < |filled| && !filled[taken].eop
      ensures r.Packet? ==> pc == R.Copy(i) && taken < |filled|
    {
      assert R.SlotOk(View(), taken);
      R.DriverKeeps(View(), false, None);
      R.DoneIffStored(View());
      var d := descriptors[i];
      if !RxDone(d) {
        r, pc := NoPacket, R.Idle;
      } else if !RxEndOfPacket(d) {
        r, pc := MultiSegment, R.Aborted;
      } else {
        r, pc := Packet(0), R.Copy(i);
      }
    }

    /** The descriptor copy and the shadow pointer. */
    method CopyOut(i: nat) returns (buf: nat, len: nat)
      requires Valid() && pc == R.Copy(i)
      modifies this`pc
      ensures Valid() && View() == R.Driver(old(View()), false, None).0
      ensures taken < |filled| && len == filled[taken].len && buf == virtualAddresses[i] && pc == R.SetSize(i, buf, len)
    {
      R.DriverKeeps(View(), false, None);
      assert R.SlotOk(View(), taken);
      buf, len := virtualAddresses[i], descriptors[i].length;
      pc := R.SetSize(i, buf, len);
    }

    method SetSize(i: nat, buf: nat, len: nat)
      requires Valid() && pc == R.SetSize(i, buf, len) && buf < pool.numEntries
      modifies this`pc, pool.size
      ensures Valid() && View() == R.Driver(old(View()), false, None).0
      ensures pc == R.Refill(i, buf, len) && pool.size[buf] == len
    {
      R.DriverKeeps(View(), false, None);
      pool.size[buf] := len;
      pc := R.Refill(i, buf, len);
    }

    /** The packet being taken has been stored, so the NIC has no business left in that buffer's header. */
    lemma TakenIsSpared()
      requires Valid() && taken < |filled|
      ensures Spared(posted, |filled|, virtualAddresses[Slot(taken, numEntries)])
    {
      forall j | |filled| <= j < |posted| && posted[j].off < DATA_OFFSET
        ensures posted[j].buf != virtualAddresses[Slot(taken, numEntries)]
      {
        SlotSmall(taken, numEntries);
        assert virtualAddresses[..][taken] != virtualAddresses[..][j];
      }
    }

    method TakePacket(i: nat) returns (buf: nat)
      requires Valid() && pc == R.Copy(i)
      modifies this`pc, this`rdh, this`filled, descriptors, pool.data, pool.size, pool.mempoolIdx, pool.bufAddrPhy
      ensures Valid() && taken < |filled| && pc == R.Refill(i, buf, filled[taken].len)
      ensures old(filled) <= filled
      ensures buf == virtualAddresses[i] && pool.size[buf] == filled[taken].len && Spared(posted, |filled|, buf)
      ensures forall b: nat | b < pool.numEntries && Spared(posted, |old(filled)|, b) ::
                Links(b) == old(Links(b))
    {
      var len;
      buf, len := CopyPacket(i);
      SparedLater(posted, |old(filled)|, |filled|);
      StoreSize(i, buf, len);
    }

    method CopyPacket(i: nat) returns (buf: nat, len: nat)
      requires Valid() && pc == R.Copy(i)
      modifies this`pc, this`rdh, this`filled, descriptors, pool.data, pool.size, pool.mempoolIdx, pool.bufAddrPhy
      ensures Valid() && taken < |filled| && pc == R.SetSize(i, buf, len) && old(filled) <= filled
      ensures len == filled[taken].len && buf == virtualAddresses[i]
      ensures buf < pool.numEntries && Spared(posted, |filled|, buf)
      ensures forall b: nat | b < pool.numEntries && Spared(posted, |old(filled)|, b) :: Links(b) == old(Links(b))
    {
      buf, len := CopyOut(i);
      Nic();
      TakenIsSpared();
    }

    /** The size field. */
    method StoreSize(i: nat, buf: nat, len: nat)
      requires Valid() && pc == R.SetSize(i, buf, len) && buf < pool.numEntries && Spared(posted, |filled|, buf)
      modifies this`pc, this`rdh, this`filled, descriptors, pool.data, pool.size, pool.mempoolIdx, pool.bufAddrPhy
      ensures Valid() && pc == R.Refill(i, buf, len) && old(filled) <= filled
      ensures pool.size[buf] == len && Spared(posted, |filled|, buf)
      ensures forall b: nat | b < pool.numEntries && Spared(posted, |old(filled)|, b) :: Links(b) == old(Links(b))
    {
      SetSize(i, buf, len);
      label Sized:
      Nic();
      SparedLater(posted, |old(filled)|, |filled|);
      assert Header(buf) == old@Sized(Header(buf));
    }

    /** The allocation of the next buffer for the slot. */
    method Allocate() returns (b: Option<nat>)
      requires Valid() && pc.Refill?
      modifies this`pc, pool`freeStackTop
      ensures Valid() && b.None? == (old(pool.FreeIds()) == [])
      ensures b.None? ==> pc.Aborted? && pool.FreeIds() == old(pool.FreeIds())
      ensures b.Some? ==> pc == R.PutAddr(old(pc).i, old(pc).buf, old(pc).len, b.value)
      ensures b.Some? ==> pool.FreeIds() + [b.value] == old(pool.FreeIds())
    {
      ghost var top := R.Top(pool.FreeIds());
      R.DriverKeeps(View(), false, top);
      ghost var was := pool.FreeIds();
      b := pool.Alloc();
      assert b.Some? ==> b.value == was[|was| - 1];
      pc := if b.None? then R.Aborted else R.PutAddr(pc.i, pc.buf, pc.len, b.value);
    }

    method PutAddr(i: nat, newBuf: nat)
      requires Valid() && pc.PutAddr? && pc.i == i && pc.newBuf == newBuf
      modifies this`pc, descriptors
      ensures Valid() && View() == R.Driver(old(View()), false, None).0
    {
      ghost var v := View();
      R.DriverKeeps(v, false, None);
      descriptors[i] := descriptors[i].(addr := InPool(newBuf, DATA_OFFSET));
      pc := R.PutHdr(pc.i, pc.buf, pc.len, pc.newBuf);
      assert View() == R.Driver(v, false, None).0;
    }

    method PutHdr(i: nat)
      requires Valid() && pc.PutHdr? && pc.i == i
      modifies this`pc, descriptors
      ensures Valid() && View() == R.Driver(old(View()), false, None).0
    {
      ghost var v := View();
      R.DriverKeeps(v, false, None);
      descriptors[i] := descriptors[i].(status := 0, length := 0);
      pc := R.PutIndex(pc.i, pc.buf, pc.len, pc.newBuf);
      assert View() == R.Driver(v, false, None).0;
    }

    method PutIndex(i: nat)
      requires Valid() && pc.PutIndex? && pc.i == i
      modifies this`pc, this`rxIndex
      ensures Valid() && View() == R.Driver(old(View()), false, None).0
    {
      ghost var v := View();
      R.DriverKeeps(v, false, None);
      WrapIsNext(i, numEntries);
      rxIndex := IncAndWrap(i, numEntries);
      pc := R.PutTail(pc.i, pc.buf, pc.len, pc.newBuf);
      assert View() == R.Driver(v, false, None).0;
    }

    method PutTail(i: nat)
      requires Valid() && pc.PutTail? && pc.i == i
      modifies this`pc, this`rdt, this`taken, this`posted
      ensures Valid() && View() == R.Driver(old(View()), false, None).0
    {
      ghost var v := View();
      R.DriverKeeps(v, false, None);
      rdt := i;
      taken, posted := taken + 1, posted + [InPool(pc.newBuf, DATA_OFFSET)];
      pc := R.Idle;
      assert View() == R.Driver(v, false, None).0;
    }

    /** Both halves of the descriptor. */
    method RewriteDescriptor(i: nat, newBuf: nat)
      requires Valid() && pc.PutAddr? && pc.i == i && pc.newBuf == newBuf
      modifies this`pc, this`rdh, this`filled, descriptors, pool.data, pool.size, pool.mempoolIdx, pool.bufAddrPhy
      ensures Valid() && old(filled) <= filled && pc == R.PutIndex(i, old(pc).buf, old(pc).len, newBuf)
      ensures forall b: nat | b < pool.numEntries && Spared(posted, |old(filled)|, b) :: Header(b) == old(Header(b))
    {
      PutAddr(i, newBuf);
      Nic();
      PutHdr(i);
      Nic();
    }

    /** The refill of the slot: descriptor, rx_index, tail. virtual_addresses is left as it was. */
    method Repost(i: nat, newBuf: nat)
      requires Valid() && pc.PutAddr? && pc.i == i && pc.newBuf == newBuf
      modifies this`pc, this`rdh, this`rdt, this`rxIndex, this`filled, this`taken, this`posted, descriptors
      modifies pool.data, pool.size, pool.mempoolIdx, pool.bufAddrPhy
      ensures Valid() && pc.Idle? && taken == old(taken) + 1 && old(filled) <= filled
      ensures posted == old(posted) + [InPool(newBuf, DATA_OFFSET)]
      ensures forall b: nat | b < pool.numEntries && Spared(old(posted), |old(filled)|, b) ::
                Header(b) == old(Header(b))
    {
      RewriteDescriptor(i, newBuf);
      SparedLater(posted, |old(filled)|, |filled|);
      Advance(i);
    }

    /** rx_index and the tail register. */
    method Advance(i: nat)
      requires Valid() && pc.PutIndex? && pc.i == i
      modifies this`pc, this`rdh, this`rdt, this`rxIndex, this`filled, this`taken, this`posted, descriptors
      modifies pool.data, pool.size, pool.mempoolIdx, pool.bufAddrPhy
      ensures Valid() && pc.Idle? && taken == old(taken) + 1 && old(filled) <= filled
      ensures posted == old(posted) + [InPool(old(pc).newBuf, DATA_OFFSET)]
      ensures forall b: nat | b < pool.numEntries && Spared(old(posted), |old(filled)|, b) ::
                Header(b) == old(Header(b))
    {
      PutIndex(i);
      Nic();
      PutTail(i);
    }

    method TakeAndRefill(i: nat) returns (r: Result)
      requires Valid() && pc == R.Copy(i)
      modifies this`pc, this`rdh, this`rdt, this`rxIndex, this`filled, this`taken, this`posted, descriptors
      modifies pool`freeStackTop, pool.data, pool.size, pool.mempoolIdx, pool.bufAddrPhy
      ensures Valid() && old(filled) <= filled && (r.Packet? || r.PoolEmpty?)
      ensures r.PoolEmpty? ==> pc.Aborted? && old(pool.FreeIds()) == []
      ensures r.Packet? ==> pc.Idle? && Refilled(old(pool.FreeIds()), old(taken), old(posted))
                            && r.buf == virtualAddresses[i] && pool.size[r.buf] == filled[old(taken)].len
      ensures forall b: nat | b < pool.numEntries && Spared(old(posted), |old(filled)|, b) ::
                Links(b) == old(Links(b))
    {
      var buf := TakePacket(i);
      SparedLater(posted, |old(filled)|, |filled|);
      var newBuf := Allocate();
      if newBuf.None? { return PoolEmpty; }
      r := Refill(i, buf, newBuf.value);
    }

    method Refill(i: nat, buf: nat, newBuf: nat) returns (r: Result)
      requires Valid() && pc.PutAddr? && pc.i == i && pc.newBuf == newBuf
      requires buf < pool.numEntries && Spared(posted, |filled|, buf)
      modifies this`pc, this`rdh, this`rdt, this`rxIndex, this`filled, this`taken, this`posted, descriptors
      modifies pool.data, pool.size, pool.mempoolIdx, pool.bufAddrPhy
      ensures Valid() && pc.Idle? && r == Packet(buf) && taken == old(taken) + 1 && old(filled) <= filled
      ensures posted == old(posted) + [InPool(newBuf, DATA_OFFSET)] && pool.size[buf] == old(pool.size[buf])
      ensures forall b: nat | b < pool.numEntries && Spared(old(posted), |old(filled)|, b) ::
                Links(b) == old(Links(b))
    {
      Nic();
      SparedLater(posted, |old(filled)|, |filled|);
      Repost(i, newBuf);
      assert Header(buf) == old(Header(buf));
      return Packet(buf);
    }

    /** One more packet taken, and the buffer from the top of the stack posted in its place. */
    ghost predicate Refilled(stack: seq<nat>, took: nat, addrs: seq<DmaAddr>)
      requires Shape()
      reads this, pool, pool.freeStack
    {
      && taken == took + 1 <= |filled|
      && stack != [] && pool.FreeIds() == stack[..|stack| - 1]
      && posted == addrs + [InPool(stack[|stack| - 1], DATA_OFFSET)]
    }

    /** ixgbe_rx_packet as written. It returns NULL exactly if the next packet in order had not been stored
        when the status was read, so never if it was stored before the call. A returned buffer is the one
        in the shadow slot, with the reported length; the slot gets the top of the pool's stack, and the
        shadow pointers do not change. Meanwhile the NIC overwrites no header but those of buffers posted
        below the data offset. */
    method RxPacket() returns (r: Result)
      requires Valid() && pc.Idle?
      modifies this, descriptors, pool`freeStackTop, pool.data, pool.size, pool.mempoolIdx, pool.bufAddrPhy
      ensures Valid() && virtualAddresses[..] == old(virtualAddresses[..])
      ensures old(filled) <= filled
      ensures r.NoPacket? ==> pc.Idle? && old(taken) == taken == |old(filled)|
                              && rxIndex == old(rxIndex) && posted == old(posted)
                              && pool.FreeIds() == old(pool.FreeIds())
      ensures r.Packet? ==> pc.Idle? && Refilled(old(pool.FreeIds()), old(taken), old(posted))
                            && r.buf == virtualAddresses[old(rxIndex)] && pool.size[r.buf] == filled[old(taken)].len
      ensures r.PoolEmpty? ==> pc.Aborted? && old(pool.FreeIds()) == []
      ensures r.MultiSegment? ==> pc.Aborted? && taken < |filled| && !filled[taken].eop
      ensures forall b: nat | b < pool.numEntries && Spared(old(posted), |old(filled)|, b) ::
                Links(b) == old(Links(b))
    {
      var i := rxIndex;
      r := Poll(i);
      if !r.Packet? { return; }
      SparedLater(posted, |old(filled)|, |filled|);
      r := TakeAndRefill(i);
    }

    /** The call up to the copy of the descriptor. */
    method Poll(i: nat) returns (r: Result)
      requires Valid() && pc.Idle? && i == rxIndex
      modifies this`pc, this`rdh, this`filled, descriptors, pool.data, pool.size, pool.mempoolIdx, pool.bufAddrPhy
      ensures Valid() && old(filled) <= filled && (r.NoPacket? || r.MultiSegment? || r.Packet?)
      ensures r.NoPacket? ==> pc.Idle? && taken == |old(filled)|
      ensures r.MultiSegment? ==> pc.Aborted? && taken < |filled| && !filled[taken].eop
      ensures r.Packet? ==> pc == R.Copy(i) && taken < |filled|
      ensures forall b: nat | b < pool.numEntries && Spared(posted, |old(filled)|, b) :: Links(b) == old(Links(b))
    {
      EnterCall();
      Nic();
      r := ReadStatus(i);
      SparedLater(posted, |old(filled)|, |filled|);
      if r.Packet? { Nic(); }
    }
  }
}
