/** The receive ring: ixgbe_rx_packet cut into its single loads and stores, and a NIC that may fill
    descriptors between any two of them.

    NIC assumptions: it fills descriptors in order from the head register up to, not including, the
    tail register; it first writes the packet to the address in the descriptor and then overwrites the
    whole descriptor with a write-back that has the done bit set. */
module RxRing {
  import opened Wrappers
  import opened RingIndex
  import opened Descriptors

  /** A packet the NIC has stored: where the descriptor told it to, and what it reported. */
  datatype Fill = Fill(addr: DmaAddr, len: nat, eop: bool, data: seq<nat>)

  /** Control state of ixgbe_rx_packet, with its local variables; `i` is the rx_index read at entry. */
  datatype Pc =
    | Idle
    | Poll(i: nat)                                          // about to read the status
    | Copy(i: nat)                                          // a packet: about to copy the descriptor
    | SetSize(i: nat, buf: nat, len: nat)
    | Refill(i: nat, buf: nat, len: nat)                    // about to allocate
    | PutAddr(i: nat, buf: nat, len: nat, newBuf: nat)
    | PutHdr(i: nat, buf: nat, len: nat, newBuf: nat)
    | PutShadow(i: nat, buf: nat, len: nat, newBuf: nat)     // only in the repaired step
    | PutIndex(i: nat, buf: nat, len: nat, newBuf: nat)
    | PutTail(i: nat, buf: nat, len: nat, newBuf: nat)
    | Aborted

  /** Queue, registers and NIC. The last three fields are history: every address ever posted (the first
      n by start_rx_queue), every packet stored by the NIC, and how many the driver has taken. */
  datatype Ring = Ring(
    n: nat, desc: seq<RxDesc>, shadow: seq<nat>, rx: nat, rdh: nat, rdt: nat, pc: Pc,
    posted: seq<DmaAddr>, filled: seq<Fill>, taken: nat)

  datatype Effect =
    | Quiet
    | NoPacket                         // returns NULL
    | Sized(buf: nat, len: nat)        // stores the size field of a buffer
    | Popped(newBuf: nat)               // took a buffer from the pool
    | Returned(buf: nat, len: nat)     // returns the buffer
    | Failed                           // error()

  /** The buffer that pkt_buf_alloc would return. */
  function Top(free: seq<nat>): Option<nat> { if free == [] then None else Some(free[|free| - 1]) }

  // -- steps -------------------------------------------------------------------------------------

  predicate WellShaped(r: Ring) {
    && r.n >= 2 && |r.desc| == |r.shadow| == r.n
    && r.rx < r.n && r.rdh < r.n && r.rdt < r.n
    && (!r.pc.Idle? && !r.pc.Aborted? ==> r.pc.i < r.n)
  }

  function Call(r: Ring): Ring
    requires r.pc.Idle?
  {
    r.(pc := Poll(r.rx))
  }

  /** One load or store of the driver. `repaired` adds the missing store to virtual_addresses; `top` is
      the buffer on top of the pool's stack. */
  function Driver(r: Ring, repaired: bool, top: Option<nat>): (Ring, Effect)
    requires WellShaped(r) && !r.pc.Idle? && !r.pc.Aborted?
  {
    match r.pc
    case Poll(i) =>
      if !RxDone(r.desc[i]) then (r.(pc := Idle), NoPacket)
      else if !RxEndOfPacket(r.desc[i]) then (r.(pc := Aborted), Failed)
      else (r.(pc := Copy(i)), Quiet)
    case Copy(i) => (r.(pc := SetSize(i, r.shadow[i], r.desc[i].length)), Quiet)
    case SetSize(i, buf, len) => (r.(pc := Refill(i, buf, len)), Sized(buf, len))
    case Refill(i, buf, len) =>
      if top.None? then (r.(pc := Aborted), Failed)
      else (r.(pc := PutAddr(i, buf, len, top.value)), Popped(top.value))
    case PutAddr(i, buf, len, newBuf) =>
      (r.(desc := r.desc[i := r.desc[i].(addr := InPool(newBuf, DATA_OFFSET))],
          pc := PutHdr(i, buf, len, newBuf)), Quiet)
    case PutHdr(i, buf, len, newBuf) =>
      (r.(desc := r.desc[i := r.desc[i].(status := 0, length := 0)],
          pc := if repaired then PutShadow(i, buf, len, newBuf) else PutIndex(i, buf, len, newBuf)), Quiet)
    case PutShadow(i, buf, len, newBuf) =>
      (r.(shadow := r.shadow[i := newBuf], pc := PutIndex(i, buf, len, newBuf)), Quiet)
    case PutIndex(i, buf, len, newBuf) => (r.(rx := Next(i, r.n), pc := PutTail(i, buf, len, newBuf)), Quiet)
    case PutTail(i, buf, len, newBuf) =>
      (r.(rdt := i, taken := r.taken + 1, posted := r.posted + [InPool(newBuf, DATA_OFFSET)], pc := Idle),
       Returned(buf, len))
  }

  predicate CanStore(r: Ring, wb: RxDesc) { WellShaped(r) && r.rdh != r.rdt && RxDone(wb) }

  /** The NIC stores a packet and writes its descriptor back. */
  function Store(r: Ring, wb: RxDesc, data: seq<nat>): Ring
    requires CanStore(r, wb)
  {
    r.(desc := r.desc[r.rdh := wb], rdh := Next(r.rdh, r.n),
       filled := r.filled + [Fill(r.desc[r.rdh].addr, wb.length, RxEndOfPacket(wb), data)])
  }

  // -- invariant ---------------------------------------------------------------------------------

  predicate Overwriting(pc: Pc) { pc.PutHdr? || pc.PutShadow? || pc.PutIndex? || pc.PutTail? }

  predicate Taking(pc: Pc) { pc.Copy? || pc.SetSize? || pc.Refill? || pc.PutAddr? || Overwriting(pc) }

  ghost predicate Registers(r: Ring) {
    && WellShaped(r)
    && r.taken <= |r.filled| <= r.taken + r.n - 1
    && |r.posted| == r.taken + r.n
    && r.rdh == Slot(|r.filled|, r.n)
    && r.rdt == Slot(r.taken + r.n - 1, r.n)
    && r.rx == Slot(if r.pc.PutTail? then r.taken + 1 else r.taken, r.n)
    && (!r.pc.Idle? && !r.pc.Aborted? ==> r.pc.i == Slot(r.taken, r.n))
    && (Taking(r.pc) ==> r.taken < |r.filled|)
  }

  /** The slot of descriptor j: done with the reported length and end-of-packet bit once the NIC has stored a
      packet, posted and not done before that. */
  ghost predicate SlotOk(r: Ring, j: nat)
    requires WellShaped(r) && j < |r.posted|
  {
    var d := r.desc[Slot(j, r.n)];
    if j < |r.filled| then RxDone(d) && d.length == r.filled[j].len && RxEndOfPacket(d) == r.filled[j].eop
    else !RxDone(d) && d.addr == r.posted[j]
  }

  /** The first descriptor that has not been given up by the driver. */
  function First(r: Ring): nat { if Overwriting(r.pc) then r.taken + 1 else r.taken }

  ghost predicate Slots(r: Ring)
    requires Registers(r)
  {
    forall j: nat | First(r) <= j < |r.posted| :: SlotOk(r, j)
  }

  ghost predicate PcOk(r: Ring)
    requires Registers(r)
  {
    && (Taking(r.pc) ==> r.filled[r.taken].eop)
    && (Taking(r.pc) && !r.pc.Copy? ==> r.pc.len == r.filled[r.taken].len)
    && (Overwriting(r.pc) ==> r.desc[r.pc.i].addr == InPool(r.pc.newBuf, DATA_OFFSET))
    && (r.pc.PutShadow? || r.pc.PutIndex? || r.pc.PutTail? ==> !RxDone(r.desc[r.pc.i]))
  }

  /** The NIC stored its packets at the posted addresses, in order. */
  ghost predicate Log(r: Ring) {
    |r.filled| <= |r.posted| && forall j | 0 <= j < |r.filled| :: r.filled[j].addr == r.posted[j]
  }

  ghost predicate Inv(r: Ring) { Registers(r) && Log(r) && Slots(r) && PcOk(r) }

  // -- every step keeps the invariant, with and without the repair -------------------------------

  lemma CallKeeps(r: Ring)
    requires Inv(r) && r.pc.Idle?
    ensures Inv(Call(r))
  {
    forall j: nat | r.taken <= j < |r.posted| ensures SlotOk(Call(r), j) { assert SlotOk(r, j); }
  }

  /** The NIC never overruns a descriptor the driver has not read. */
  lemma StoreRoom(r: Ring)
    requires Registers(r) && r.rdh != r.rdt
    ensures |r.filled| < r.taken + r.n - 1
  {
  }

  lemma StoreKeeps(r: Ring, wb: RxDesc, data: seq<nat>)
    requires Inv(r) && CanStore(r, wb)
    ensures Inv(Store(r, wb, data))
    ensures Store(r, wb, data).filled == r.filled + [Fill(r.posted[|r.filled|], wb.length, RxEndOfPacket(wb), data)]
  {
    var k, r' := |r.filled|, Store(r, wb, data);
    StoreRoom(r);
    assert SlotOk(r, k);
    OthersElsewhere(k, r.taken, |r.posted|, r.n);
    forall j: nat | First(r) <= j < |r.posted| ensures SlotOk(r', j) { assert SlotOk(r, j); }
  }

  /** A step that touches at most the slot being taken keeps the invariant. */
  lemma FrameKeeps(r: Ring, r': Ring)
    requires Inv(r) && Registers(r') && PcOk(r')
    requires r' == r.(desc := r'.desc, shadow := r'.shadow, rx := r'.rx, pc := r'.pc)
    requires First(r) <= First(r')
    requires forall i | 0 <= i < r.n && (Overwriting(r'.pc) ==> i != Slot(r.taken, r.n)) :: r'.desc[i] == r.desc[i]
    ensures Inv(r')
  {
    OthersElsewhere(r.taken, r.taken, |r.posted|, r.n);
    forall j: nat | First(r') <= j < |r.posted| ensures SlotOk(r', j) { assert SlotOk(r, j); }
  }

  /** Polling sees the done bit exactly if the NIC has stored the packet that is next in order. */
  lemma DoneIffStored(r: Ring)
    requires Inv(r) && !Overwriting(r.pc)
    ensures RxDone(r.desc[Slot(r.taken, r.n)]) <==> r.taken < |r.filled|
  {
    assert SlotOk(r, r.taken);
  }

  lemma TailKeeps(r: Ring, repaired: bool, top: Option<nat>)
    requires Inv(r) && r.pc.PutTail?
    ensures Inv(Driver(r, repaired, top).0)
  {
    var r' := Driver(r, repaired, top).0;
    SlotPeriod(r.taken, r.n);
    forall j: nat | r'.taken <= j < |r.posted| ensures SlotOk(r', j) { assert SlotOk(r, j); }
    assert SlotOk(r', |r.posted|);
  }

  lemma ReadKeeps(r: Ring, repaired: bool, top: Option<nat>)
    requires Inv(r) && (r.pc.Poll? || r.pc.Copy? || r.pc.SetSize? || r.pc.Refill?)
    ensures Inv(Driver(r, repaired, top).0)
  {
    assert SlotOk(r, r.taken);
    FrameKeeps(r, Driver(r, repaired, top).0);
  }

  lemma WriteKeeps(r: Ring, repaired: bool, top: Option<nat>)
    requires Inv(r) && (r.pc.PutAddr? || r.pc.PutHdr? || r.pc.PutShadow? || r.pc.PutIndex?)
    ensures Inv(Driver(r, repaired, top).0)
  {
    FrameKeeps(r, Driver(r, repaired, top).0);
  }

  lemma DriverKeeps(r: Ring, repaired: bool, top: Option<nat>)
    requires Inv(r) && !r.pc.Idle? && !r.pc.Aborted?
    ensures Inv(Driver(r, repaired, top).0)
  {
    if r.pc.PutTail? {
      TailKeeps(r, repaired, top);
    } else if r.pc.Poll? || r.pc.Copy? || r.pc.SetSize? || r.pc.Refill? {
      ReadKeeps(r, repaired, top);
    } else {
      WriteKeeps(r, repaired, top);
    }
  }

  /** Whether the call has taken a buffer from the pool and not yet returned one. */
  predicate Borrowed(pc: Pc) { pc.PutAddr? || Overwriting(pc) }

  lemma ControlFlow(r: Ring, repaired: bool, top: Option<nat>)
    requires WellShaped(r) && !r.pc.Idle? && !r.pc.Aborted?
    ensures var (r', e) := Driver(r, repaired, top);
            && r'.n == r.n
            && (r'.pc.Idle? <==> e.NoPacket? || e.Returned?)
            && (r'.pc.Aborted? <==> e.Failed?)
            && (e.Popped? <==> !Borrowed(r.pc) && Borrowed(r'.pc))
            && (e.Returned? <==> Borrowed(r.pc) && !Borrowed(r'.pc))
            && (e.Popped? ==> top == Some(e.newBuf))
            && (e.Failed? && r.pc.Refill? ==> top.None?)
  {
  }

  // -- the shadow pointers, with the repair ------------------------------------------------------

  /** Slot j's shadow pointer names the buffer whose data area was posted there. */
  ghost predicate ShadowOk(r: Ring, j: nat)
    requires WellShaped(r) && j < |r.posted|
  {
    r.posted[j] == InPool(r.shadow[Slot(j, r.n)], DATA_OFFSET)
  }

  predicate Swapped(pc: Pc) { pc.PutIndex? || pc.PutTail? }

  ghost predicate Named(r: Ring)
    requires Registers(r)
  {
    && (forall j: nat | (if Swapped(r.pc) then r.taken + 1 else r.taken) <= j < |r.posted| :: ShadowOk(r, j))
    && (Taking(r.pc) && !r.pc.Copy? ==> r.posted[r.taken] == InPool(r.pc.buf, DATA_OFFSET))
    && (Swapped(r.pc) ==> r.shadow[r.pc.i] == r.pc.newBuf)
  }

  /** The buffers in the ring, and the one a running call has taken from the pool or will return. */
  ghost function Own(r: Ring): seq<nat> {
    r.shadow
    + if r.pc.PutAddr? || r.pc.PutHdr? || r.pc.PutShadow? then [r.pc.newBuf]
      else if Swapped(r.pc) then [r.pc.buf]
      else []
  }

  /** A buffer from the pool joins, the returned one leaves, and no other step changes the contents. */
  ghost predicate OwnStep(q: seq<nat>, e: Effect, q': seq<nat>) {
    match e
    case Popped(b) => q' == q + [b]
    case Returned(b, _) => q == q' + [b]
    case _ => multiset(q) == multiset(q')
  }

  lemma StoreNames(r: Ring, wb: RxDesc, data: seq<nat>)
    requires Inv(r) && CanStore(r, wb) && Named(r)
    ensures Registers(Store(r, wb, data)) && Named(Store(r, wb, data))
    ensures Own(Store(r, wb, data)) == Own(r)
  {
    var r' := Store(r, wb, data);
    StoreKeeps(r, wb, data);
    forall j: nat | r.taken <= j < |r.posted| && ShadowOk(r, j) ensures ShadowOk(r', j) {}
  }

  lemma CallNames(r: Ring)
    requires Inv(r) && r.pc.Idle? && Named(r)
    ensures Registers(Call(r)) && Named(Call(r)) && Own(Call(r)) == Own(r)
  {
    forall j: nat | r.taken <= j < |r.posted| ensures ShadowOk(Call(r), j) { assert ShadowOk(r, j); }
  }

  lemma TailNames(r: Ring, top: Option<nat>)
    requires Inv(r) && r.pc.PutTail? && Named(r)
    ensures Registers(Driver(r, true, top).0) && Named(Driver(r, true, top).0)
  {
    var r' := Driver(r, true, top).0;
    DriverKeeps(r, true, top);
    SlotPeriod(r.taken, r.n);
    forall j: nat | r'.taken <= j < |r.posted| ensures ShadowOk(r', j) { assert ShadowOk(r, j); }
    assert ShadowOk(r', |r.posted|);
  }

  /** The store to virtual_addresses. */
  lemma ShadowNames(r: Ring, top: Option<nat>)
    requires Inv(r) && r.pc.PutShadow? && Named(r)
    ensures Registers(Driver(r, true, top).0) && Named(Driver(r, true, top).0)
  {
    var r' := Driver(r, true, top).0;
    DriverKeeps(r, true, top);
    OthersElsewhere(r.taken, r.taken, |r.posted|, r.n);
    forall j: nat | r.taken < j < |r.posted| ensures ShadowOk(r', j) { assert ShadowOk(r, j); }
  }

  /** A step that leaves shadow pointers and postings alone. */
  lemma QuietNames(r: Ring, top: Option<nat>)
    requires Inv(r) && !r.pc.Idle? && !r.pc.Aborted? && !r.pc.PutShadow? && !r.pc.PutTail? && Named(r)
    ensures Registers(Driver(r, true, top).0) && Named(Driver(r, true, top).0)
  {
    var r' := Driver(r, true, top).0;
    DriverKeeps(r, true, top);
    assert r'.shadow == r.shadow && r'.posted == r.posted && r'.n == r.n && Swapped(r'.pc) == Swapped(r.pc);
    if r.pc.Copy? { assert ShadowOk(r, r.taken); }
    forall j: nat | (if Swapped(r.pc) then r.taken + 1 else r.taken) <= j < |r.posted| ensures ShadowOk(r', j) {
      assert ShadowOk(r, j);
    }
  }

  lemma DriverNames(r: Ring, top: Option<nat>)
    requires Inv(r) && !r.pc.Idle? && !r.pc.Aborted? && Named(r)
    ensures Registers(Driver(r, true, top).0) && Named(Driver(r, true, top).0)
  {
    if r.pc.PutTail? {
      TailNames(r, top);
    } else if r.pc.PutShadow? {
      ShadowNames(r, top);
    } else {
      QuietNames(r, top);
    }
  }

  /** The returned buffer is the one the NIC stored the next packet in, with the length it reported. */
  lemma ReturnsTheFilledBuffer(r: Ring, repaired: bool, top: Option<nat>)
    requires Inv(r) && Named(r) && r.pc.PutTail?
    ensures var e := Driver(r, repaired, top).1;
            && e.Returned? && r.taken < |r.filled|
            && r.filled[r.taken].addr == InPool(e.buf, DATA_OFFSET) && r.filled[r.taken].len == e.len
            && r.filled[r.taken].eop
  {
  }

  lemma ShadowStoreConserves(r: Ring, top: Option<nat>)
    requires WellShaped(r) && r.pc.PutShadow? && r.shadow[r.pc.i] == r.pc.buf
    ensures OwnStep(Own(r), Driver(r, true, top).1, Own(Driver(r, true, top).0))
  {
    SwapLast(r.shadow, r.pc.i, r.pc.newBuf);
  }

  lemma OtherStepConserves(r: Ring, top: Option<nat>)
    requires WellShaped(r) && !r.pc.Idle? && !r.pc.Aborted? && !r.pc.PutShadow?
    ensures var (r', e) := Driver(r, true, top);
            match e
            case Popped(b) => Own(r') == Own(r) + [b]
            case Returned(b, _) => Own(r) == Own(r') + [b]
            case _ => Own(r) == Own(r')
  {
    var (r', e) := Driver(r, true, top);
    assert r'.shadow == r.shadow;
  }

  lemma DriverConserves(r: Ring, top: Option<nat>)
    requires Inv(r) && !r.pc.Idle? && !r.pc.Aborted? && Named(r)
    ensures OwnStep(Own(r), Driver(r, true, top).1, Own(Driver(r, true, top).0))
  {
    if r.pc.PutShadow? {
      assert ShadowOk(r, r.taken);
      ShadowStoreConserves(r, top);
    } else {
      OtherStepConserves(r, top);
    }
  }

  lemma SwapLast(q: seq<nat>, i: nat, x: nat)
    requires i < |q|
    ensures multiset(q[i := x] + [q[i]]) == multiset(q + [x])
  {
  }

  // -- start, and the ring seen through its registers --------------------------------------------

  /** The ring as start_rx_queue leaves it: buffer `bufs[i]` in slot i, posted at byte `off` of it. */
  function Start(bufs: seq<nat>, off: nat): Ring
    requires |bufs| >= 2
  {
    var n := |bufs|;
    Ring(n, seq(n, i requires 0 <= i < n => RxDesc(InPool(bufs[i], off), 0, 0)), bufs, 0, 0, n - 1, Idle,
         seq(n, i requires 0 <= i < n => InPool(bufs[i], off)), [], 0)
  }

  lemma StartOk(bufs: seq<nat>, off: nat)
    requires |bufs| >= 2
    ensures Inv(Start(bufs, off))
    ensures off == DATA_OFFSET ==> Named(Start(bufs, off))
  {
    var r := Start(bufs, off);
    SlotSmall(r.n - 1, r.n);
    forall j: nat | j < r.n ensures SlotOk(r, j) && (off == DATA_OFFSET ==> ShadowOk(r, j)) {
      SlotSmall(j, r.n);
    }
  }

  /** The tail is one slot behind rx_index, the head is in the cyclic range from rx_index to the tail,
      and exactly the slots in [rx_index, head) have the done bit. */
  ghost predicate Cyclic(r: Ring) {
    && WellShaped(r)
    && r.rdt == (r.rx - 1) % r.n
    && (r.rdh - r.rx) % r.n <= (r.rdt - r.rx) % r.n
    && forall s: nat | s < r.n :: RxDone(r.desc[s]) <==> (s - r.rx) % r.n < (r.rdh - r.rx) % r.n
  }

  lemma DoneIffBehind(r: Ring, s: nat, k: nat)
    requires Inv(r) && r.pc.Idle? && k < r.n && s == Slot(r.taken + k, r.n)
    ensures RxDone(r.desc[s]) <==> k < |r.filled| - r.taken
  {
    assert SlotOk(r, r.taken + k);
  }

  lemma RegistersCyclic(r: Ring)
    requires Inv(r) && r.pc.Idle?
    ensures Cyclic(r)
  {
    SlotDistance(r.taken, |r.filled|, r.n);
    SlotDistance(r.taken, r.taken + r.n - 1, r.n);
    CyclicPredecessor(r.taken, r.n);
    forall s: nat | s < r.n ensures RxDone(r.desc[s]) <==> (s - r.rx) % r.n < (r.rdh - r.rx) % r.n {
      SlotOffset(r.taken, s, r.n);
      DoneIffBehind(r, s, (s - r.rx) % r.n);
    }
  }
}
