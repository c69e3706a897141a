/** The receive ring, its packet pool and an application, over whole runs. */
module RxSystem {
  import opened RingIndex
  import opened Descriptors
  import opened Ownership
  import Memory
  import R = RxRing

  /** A pool buffer: the header fields buf_addr_phy (as the number of the buffer whose bus address it holds),
      mempool_idx and size, and the data behind the header. */
  datatype Buf = Buf(phy: nat, idx: nat, size: nat, data: seq<nat>)

  /** What a caller finds in the buffer that ixgbe_rx_packet returns. */
  datatype Delivery = Delivery(buf: nat, size: nat, data: seq<nat>)

  /** Ring size; the byte of a buffer at which start_rx_queue posts it; whether the driver stores the new
      buffer in virtual_addresses; the bytes that a buffer has behind its header; and the longest packet
      the NIC stores. */
  datatype Config = Config(n: nat, off: nat, repaired: bool, cap: nat, mtu: nat)

  /** The source with both stores as intended. */
  function Repaired(n: nat, cap: nat, mtu: nat): Config { Config(n, DATA_OFFSET, true, cap, mtu) }

  /** History: the calls that returned a packet, and whether a DMA write has run past the end of the pool. */
  datatype Sys = Sys(cfg: Config, ring: R.Ring, free: seq<nat>, held: multiset<nat>, mem: seq<Buf>,
                     got: seq<Delivery>, overrun: bool)

  datatype Act =
    | Alloc
    | Free(b: nat)
    | Write(b: nat, size: nat, data: seq<nat>)                // the application changes a buffer it holds
    | Recv                                                    // it calls ixgbe_rx_packet
    | Drive                                                   // the next load or store of that call
    | NicStore(wb: RxDesc, data: seq<nat>, junk: Buf)

  predicate Enabled(s: Sys, a: Act) {
    match a
    case Alloc => s.ring.pc.Idle? && s.free != []
    case Free(b) => s.ring.pc.Idle? && b in s.held && b < |s.mem|
    case Write(b, _, _) => s.ring.pc.Idle? && b in s.held && b < |s.mem|
    case Recv => s.ring.pc.Idle?
    case Drive => R.WellShaped(s.ring) && !s.ring.pc.Idle? && !s.ring.pc.Aborted?
    case NicStore(wb, data, _) => R.CanStore(s.ring, wb) && 1 <= wb.length == |data| <= s.cfg.mtu
  }

  /** A DMA write of len bytes at addr reaches into buffer i behind the one it starts in. */
  predicate Spills(addr: DmaAddr, len: nat, cap: nat, i: nat) {
    addr.InPool? && len > 0 && addr.buf < i && addr.off + len > (i - addr.buf) * (DATA_OFFSET + cap)
  }

  /** A write to bytes [lo, hi) of a buffer reaches a field of the given width at byte `at`. */
  predicate Hits(lo: nat, hi: nat, at: nat, width: nat) { lo < at + width && at < hi }

  /** The header fields after such a write: buf_addr_phy is 8 bytes at 0, mempool_idx 4 at 16, size 4 at 20. */
  function Overwritten(was: Buf, lo: nat, hi: nat, junk: Buf): Buf {
    was.(phy := if Hits(lo, hi, 0, 8) then junk.phy else was.phy,
         idx := if Hits(lo, hi, 16, 4) then junk.idx else was.idx,
         size := if Hits(lo, hi, 20, 4) then junk.size else was.size)
  }

  /** Buffer i behind the one that the write starts in: it gets the end of the packet. */
  function Spilled(was: Buf, addr: DmaAddr, len: nat, cap: nat, i: nat, junk: Buf): Buf
    requires Spills(addr, len, cap, i)
  {
    var hi := addr.off + len - (i - addr.buf) * (DATA_OFFSET + cap);
    Overwritten(was, 0, hi, junk).(data := if hi > DATA_OFFSET then junk.data else was.data)
  }

  /** A DMA write at the data offset replaces the data; one that starts inside the header also replaces the header
      fields that it reaches, and one that is too long those of the buffers behind, by whatever the packet contains. */
  function Dma(mem: seq<Buf>, cap: nat, addr: DmaAddr, data: seq<nat>, junk: Buf): (m: seq<Buf>)
    ensures |m| == |mem|
  {
    if addr.InPool? && data != [] then
      seq(|mem|, i requires 0 <= i < |mem| =>
        if i == addr.buf then
          Overwritten(mem[i], addr.off, addr.off + |data|, junk).(data := Landed(mem[i].data, addr.off, data))
        else if Spills(addr, |data|, cap, i) then Spilled(mem[i], addr, |data|, cap, i, junk)
        else mem[i])
    else
      mem
  }

  function Step(s: Sys, a: Act): (s': Sys)
    requires Enabled(s, a)
    ensures |s'.mem| == |s.mem| && s'.cfg == s.cfg
  {
    match a
    case Alloc => s.(free := s.free[..|s.free| - 1], held := s.held + multiset{s.free[|s.free| - 1]})
    case Free(b) => s.(free := s.free + [s.mem[b].idx], held := s.held - multiset{b})
    case Write(b, size, data) => s.(mem := s.mem[b := s.mem[b].(size := size, data := data)])
    case Recv => s.(ring := R.Call(s.ring))
    case Drive =>
      var (ring, e) := R.Driver(s.ring, s.cfg.repaired, R.Top(s.free));
      Absorb(s.(ring := ring), e)
    case NicStore(wb, data, junk) =>
      var addr := s.ring.desc[s.ring.rdh].addr;
      s.(ring := R.Store(s.ring, wb, data), mem := Dma(s.mem, s.cfg.cap, addr, data, junk),
         overrun := s.overrun || Spills(addr, |data|, s.cfg.cap, |s.mem|))
  }

  function Absorb(s: Sys, e: R.Effect): (s': Sys)
    ensures |s'.mem| == |s.mem| && s'.cfg == s.cfg && s'.ring == s.ring && s'.overrun == s.overrun
  {
    match e
    case Sized(b, len) => if b < |s.mem| then s.(mem := s.mem[b := s.mem[b].(size := len)]) else s
    case Popped(_) => if s.free == [] then s else s.(free := s.free[..|s.free| - 1])
    case Returned(b, len) =>
      if b < |s.mem| then
        s.(held := s.held + multiset{b}, got := s.got + [Delivery(b, s.mem[b].size, s.mem[b].data)])
      else s
    case _ => s
  }

  predicate ValidRun(s: Sys, acts: seq<Act>)
    decreases acts
  {
    acts == [] || (Enabled(s, acts[0]) && ValidRun(Step(s, acts[0]), acts[1..]))
  }

  function Run(s: Sys, acts: seq<Act>): Sys
    requires ValidRun(s, acts)
    decreases acts
  {
    if acts == [] then s else Run(Step(s, acts[0]), acts[1..])
  }

  /** start_rx_queue on a fresh pool: it pops one buffer per slot and posts it at byte `off`. */
  function Begin(c: Config, mem: seq<Buf>): Sys
    requires 2 <= c.n <= |mem|
  {
    var N := |mem|;
    Sys(c, R.Start(FirstOut(N, c.n), c.off), seq(N - c.n, i => i), multiset{}, mem, [], false)
  }

  ghost predicate Headers(mem: seq<Buf>) { forall b | 0 <= b < |mem| :: mem[b].phy == mem[b].idx == b }

  // -- invariant of the repaired driver ----------------------------------------------------------

  ghost predicate Partitioned(s: Sys) {
    multiset(s.free) + s.held + multiset(R.Own(s.ring)) == Universe(|s.mem|)
  }

  /** The packet of descriptor j is still in the buffer it was stored in. */
  ghost predicate Kept(s: Sys, j: nat)
    requires j < |s.ring.filled| && j < |s.ring.posted|
  {
    && s.ring.posted[j].InPool? && s.ring.posted[j].buf < |s.mem|
    && s.mem[s.ring.posted[j].buf].data == s.ring.filled[j].data
    && |s.ring.filled[j].data| == s.ring.filled[j].len
  }

  ghost predicate Stored(s: Sys)
    requires |s.ring.filled| <= |s.ring.posted|
  {
    && (forall j: nat | s.ring.taken <= j < |s.ring.filled| :: Kept(s, j))
    && SizeSet(s)
  }

  /** From the store of the size field on, the buffer of the call carries the reported length. */
  ghost predicate SizeSet(s: Sys) {
    R.Taking(s.ring.pc) && !s.ring.pc.Copy? && !s.ring.pc.SetSize? ==>
      s.ring.pc.buf < |s.mem| && s.mem[s.ring.pc.buf].size == s.ring.pc.len
  }

  /** Delivery k is packet k of the NIC, a whole packet: its buffer, its length, its bytes. */
  ghost predicate Delivers(s: Sys, k: nat)
    requires k < |s.got| && k < |s.ring.filled|
  {
    var f := s.ring.filled[k];
    && f.addr == InPool(s.got[k].buf, DATA_OFFSET)
    && |s.got[k].data| == s.got[k].size == f.len && f.eop
    && s.got[k].data == f.data
  }

  ghost predicate Inv(s: Sys) {
    && s.cfg.repaired && s.cfg.mtu <= s.cfg.cap
    && R.Inv(s.ring) && R.Named(s.ring)
    && Partitioned(s)
    && Headers(s.mem)
    && Stored(s)
    && |s.got| == s.ring.taken
    && (forall k: nat | k < |s.got| :: Delivers(s, k))
  }

  // -- distinct buffers --------------------------------------------------------------------------

  lemma OwnedIsNotHeld(s: Sys, x: nat)
    requires Partitioned(s) && x in R.Own(s.ring)
    ensures x < |s.mem| && x !in s.held && x !in s.free && multiset(R.Own(s.ring))[x] == 1
  {
    var q, rest := multiset(R.Own(s.ring)), multiset(s.free) + s.held;
    assert q + rest == multiset(s.free) + s.held + multiset(R.Own(s.ring));
    Exclusive(|s.mem|, q, rest, x);
    assert x !in multiset(s.free);
  }

  /** Where the buffer of descriptor j stands in the ring's possessions. */
  function Place(r: R.Ring, j: nat): nat
    requires r.n >= 1
  {
    if R.Swapped(r.pc) && j == r.taken then r.n else Slot(j, r.n)
  }

  lemma PostedIsOwned(r: R.Ring, j: nat)
    requires R.Inv(r) && R.Named(r) && r.taken <= j < |r.posted|
    ensures Place(r, j) < |R.Own(r)| && r.posted[j] == InPool(R.Own(r)[Place(r, j)], DATA_OFFSET)
  {
    if R.Swapped(r.pc) && j == r.taken {
    } else {
      assert R.ShadowOk(r, j);
    }
  }

  /** No two descriptors between rx_index and the tail share a buffer. */
  lemma PostedAreDistinct(s: Sys, i: nat, j: nat)
    requires R.Inv(s.ring) && R.Named(s.ring) && Partitioned(s)
    requires s.ring.taken <= i < j < |s.ring.posted|
    ensures s.ring.posted[i].InPool? && s.ring.posted[j].InPool? && s.ring.posted[i].buf != s.ring.posted[j].buf
  {
    var r := s.ring;
    PostedIsOwned(r, i);
    PostedIsOwned(r, j);
    SlotInjective(i, j, r.n);
    var p, q := Place(r, i), Place(r, j);
    OwnedIsNotHeld(s, R.Own(r)[p]);
    OwnedIsNotHeld(s, R.Own(r)[q]);
    if p < q { OnePlace(R.Own(r), p, q); } else { OnePlace(R.Own(r), q, p); }
  }

  // -- every step keeps the invariant ------------------------------------------------------------

  /** A packet that fits behind the header touches its own buffer's data and nothing else. */
  lemma NoSpill(addr: DmaAddr, len: nat, cap: nat, i: nat)
    requires addr.InPool? && addr.off == DATA_OFFSET && len <= cap
    ensures !Spills(addr, len, cap, i)
  {
    if addr.buf < i { Memory.Products(0, i - addr.buf, DATA_OFFSET + cap); }
  }

  lemma DmaFits(mem: seq<Buf>, cap: nat, addr: DmaAddr, data: seq<nat>, junk: Buf)
    requires addr.InPool? && addr.off == DATA_OFFSET && addr.buf < |mem| && 1 <= |data| <= cap
    ensures Dma(mem, cap, addr, data, junk) == mem[addr.buf := mem[addr.buf].(data := data)]
  {
    forall i: nat | i < |mem| ensures !Spills(addr, |data|, cap, i) { NoSpill(addr, |data|, cap, i); }
  }

  lemma StoreKeepsPackets(s: Sys, wb: RxDesc, data: seq<nat>, junk: Buf)
    requires Inv(s) && Enabled(s, NicStore(wb, data, junk))
    ensures var s' := Step(s, NicStore(wb, data, junk));
            Headers(s'.mem) && |s'.ring.filled| <= |s'.ring.posted| && Stored(s')
  {
    var s', r, k := Step(s, NicStore(wb, data, junk)), s.ring, |s.ring.filled|;
    R.StoreKeeps(r, wb, data);
    R.StoreRoom(r);
    assert R.SlotOk(r, k);
    PostedIsOwned(r, k);
    OwnedIsNotHeld(s, r.posted[k].buf);
    DmaFits(s.mem, s.cfg.cap, r.posted[k], data, junk);
    forall j: nat | r.taken <= j < k ensures Kept(s', j) {
      assert Kept(s, j);
      PostedAreDistinct(s, j, k);
    }
    assert Kept(s', k);
    if R.Taking(r.pc) && !r.pc.Copy? { PostedAreDistinct(s, r.taken, k); }
  }

  lemma StoreKeeps(s: Sys, wb: RxDesc, data: seq<nat>, junk: Buf)
    requires Inv(s) && Enabled(s, NicStore(wb, data, junk))
    ensures Inv(Step(s, NicStore(wb, data, junk)))
  {
    var s' := Step(s, NicStore(wb, data, junk));
    R.StoreKeeps(s.ring, wb, data);
    R.StoreNames(s.ring, wb, data);
    StoreKeepsPackets(s, wb, data, junk);
    forall k: nat | k < |s'.got| ensures Delivers(s', k) { assert Delivers(s, k); }
  }

  lemma AbsorbConserves(s: Sys, q: seq<nat>, e: R.Effect, q': seq<nat>)
    requires R.OwnStep(q, e, q')
    requires e.Popped? ==> s.free != [] && e.newBuf == s.free[|s.free| - 1]
    requires e.Returned? ==> e.buf < |s.mem|
    ensures multiset(Absorb(s, e).free) + Absorb(s, e).held + multiset(q') == multiset(s.free) + s.held + multiset(q)
  {
    if e.Popped? { Popped(s.free); }
  }

  /** What the driver's effects refer to: the top of the stack, and the buffer of the call. */
  lemma EffectOperands(s: Sys)
    requires Enabled(s, Drive)
    ensures var e := R.Driver(s.ring, s.cfg.repaired, R.Top(s.free)).1;
            && (e.Popped? ==> s.free != [] && e.newBuf == s.free[|s.free| - 1])
            && (e.Returned? ==> s.ring.pc.PutTail? && e.buf == s.ring.pc.buf)
            && (e.Sized? ==> s.ring.pc.SetSize? && e.buf == s.ring.pc.buf && e.len == s.ring.pc.len)
  {
  }

  lemma DrivePartitions(s: Sys)
    requires s.cfg.repaired && R.Inv(s.ring) && R.Named(s.ring) && Partitioned(s) && Enabled(s, Drive)
    requires s.ring.pc.PutTail? ==> s.ring.pc.buf < |s.mem|
    ensures Partitioned(Step(s, Drive))
  {
    var (ring, e) := R.Driver(s.ring, true, R.Top(s.free));
    R.DriverConserves(s.ring, R.Top(s.free));
    EffectOperands(s);
    AbsorbConserves(s.(ring := ring), R.Own(s.ring), e, R.Own(ring));
  }

  /** A driver step leaves the packets of the NIC and the posted addresses alone. */
  lemma DriveFrame(s: Sys)
    requires Enabled(s, Drive)
    ensures var s' := Step(s, Drive);
            && s'.ring.filled == s.ring.filled && s'.ring.taken >= s.ring.taken
            && s.ring.posted <= s'.ring.posted
            && (forall b | 0 <= b < |s.mem| :: s'.mem[b] == s.mem[b].(size := s'.mem[b].size))
            && (!s.ring.pc.PutTail? ==> s'.got == s.got && s'.ring.taken == s.ring.taken)
  {
    EffectOperands(s);
  }

  lemma DriveKeepsSize(s: Sys)
    requires Enabled(s, Drive) && SizeSet(s)
    requires s.ring.pc.SetSize? ==> s.ring.pc.buf < |s.mem|
    ensures SizeSet(Step(s, Drive))
  {
  }

  lemma DriveKeepsPackets(s: Sys)
    requires R.Inv(s.ring) && R.Named(s.ring) && Partitioned(s) && Stored(s) && Enabled(s, Drive)
    ensures var s' := Step(s, Drive); |s'.ring.filled| <= |s'.ring.posted| && Stored(s')
  {
    var s' := Step(s, Drive);
    DriveFrame(s);
    forall j: nat | s'.ring.taken <= j < |s.ring.filled| ensures Kept(s', j) { assert Kept(s, j); }
    if s.ring.pc.SetSize? {
      PostedIsOwned(s.ring, s.ring.taken);
      OwnedIsNotHeld(s, s.ring.pc.buf);
    }
    DriveKeepsSize(s);
  }

  lemma DriveDelivers(s: Sys)
    requires Inv(s) && Enabled(s, Drive)
    ensures var s' := Step(s, Drive);
            && |s'.got| == s'.ring.taken <= |s'.ring.filled|
            && forall k: nat | k < |s'.got| :: Delivers(s', k)
  {
    var s' := Step(s, Drive);
    DriveFrame(s);
    if s.ring.pc.PutTail? {
      ReturnDelivers(s);
    }
    forall k: nat | k < |s.got| ensures Delivers(s', k) { assert Delivers(s, k); }
  }

  lemma ReturnDelivers(s: Sys)
    requires R.Inv(s.ring) && R.Named(s.ring) && Stored(s) && s.ring.pc.PutTail? && |s.got| == s.ring.taken
    ensures var s' := Step(s, Drive);
            && |s'.got| == s'.ring.taken == s.ring.taken + 1 <= |s'.ring.filled|
            && s'.got[..|s.got|] == s.got && Delivers(s', s.ring.taken)
  {
    R.ReturnsTheFilledBuffer(s.ring, s.cfg.repaired, R.Top(s.free));
    assert Kept(s, s.ring.taken);
  }

  lemma DriveKeeps(s: Sys)
    requires Inv(s) && Enabled(s, Drive)
    ensures Inv(Step(s, Drive))
  {
    R.DriverKeeps(s.ring, true, R.Top(s.free));
    R.DriverNames(s.ring, R.Top(s.free));
    DrivePartitions(s);
    DriveFrame(s);
    DriveKeepsPackets(s);
    DriveDelivers(s);
  }

  lemma WriteKeeps(s: Sys, b: nat, size: nat, data: seq<nat>)
    requires Inv(s) && Enabled(s, Write(b, size, data))
    ensures Inv(Step(s, Write(b, size, data)))
  {
    var s' := Step(s, Write(b, size, data));
    forall j: nat | s.ring.taken <= j < |s.ring.filled| ensures Kept(s', j) {
      assert Kept(s, j);
      PostedIsOwned(s.ring, j);
      OwnedIsNotHeld(s, s.ring.posted[j].buf);
    }
    forall k: nat | k < |s.got| ensures Delivers(s', k) { assert Delivers(s, k); }
  }

  lemma PoolStepKeeps(s: Sys, a: Act)
    requires Inv(s) && Enabled(s, a) && (a.Alloc? || a.Free?)
    ensures Inv(Step(s, a))
  {
    var s' := Step(s, a);
    if a.Alloc? { Popped(s.free); } else { assert s.mem[a.b].idx == a.b; }
    forall j: nat | s.ring.taken <= j < |s.ring.filled| ensures Kept(s', j) { assert Kept(s, j); }
    forall k: nat | k < |s.got| ensures Delivers(s', k) { assert Delivers(s, k); }
  }

  lemma RecvKeeps(s: Sys)
    requires Inv(s) && Enabled(s, Recv)
    ensures Inv(Step(s, Recv))
  {
    var s' := Step(s, Recv);
    R.CallKeeps(s.ring);
    R.CallNames(s.ring);
    forall j: nat | s.ring.taken <= j < |s.ring.filled| ensures Kept(s', j) { assert Kept(s, j); }
    forall k: nat | k < |s.got| ensures Delivers(s', k) { assert Delivers(s, k); }
  }

  lemma StepKeeps(s: Sys, a: Act)
    requires Inv(s) && Enabled(s, a)
    ensures Inv(Step(s, a))
  {
    match a
    case Alloc => PoolStepKeeps(s, a);
    case Free(_) => PoolStepKeeps(s, a);
    case Write(b, size, data) => WriteKeeps(s, b, size, data);
    case Recv => RecvKeeps(s);
    case Drive => DriveKeeps(s);
    case NicStore(wb, data, junk) => StoreKeeps(s, wb, data, junk);
  }

  lemma {:induction false} RunKeeps(s: Sys, acts: seq<Act>)
    requires Inv(s) && ValidRun(s, acts)
    ensures Inv(Run(s, acts)) && |Run(s, acts).mem| == |s.mem|
    decreases acts
  {
    if acts != [] {
      StepKeeps(s, acts[0]);
      RunKeeps(Step(s, acts[0]), acts[1..]);
    }
  }

  lemma StoreMissesHeld(s: Sys, wb: RxDesc, data: seq<nat>, junk: Buf, b: nat)
    requires R.Inv(s.ring) && R.Named(s.ring) && Partitioned(s) && s.cfg.mtu <= s.cfg.cap
    requires Enabled(s, NicStore(wb, data, junk)) && b in s.held && b < |s.mem|
    ensures Step(s, NicStore(wb, data, junk)).mem[b] == s.mem[b]
  {
    var k := |s.ring.filled|;
    R.StoreRoom(s.ring);
    assert R.SlotOk(s.ring, k);
    PostedIsOwned(s.ring, k);
    OwnedIsNotHeld(s, s.ring.posted[k].buf);
    DmaFits(s.mem, s.cfg.cap, s.ring.posted[k], data, junk);
  }

  lemma DriveMissesHeld(s: Sys, b: nat)
    requires R.Inv(s.ring) && R.Named(s.ring) && Partitioned(s) && Enabled(s, Drive) && b in s.held && b < |s.mem|
    ensures Step(s, Drive).mem[b] == s.mem[b]
  {
    EffectOperands(s);
    if s.ring.pc.SetSize? {
      PostedIsOwned(s.ring, s.ring.taken);
      OwnedIsNotHeld(s, s.ring.pc.buf);
    }
  }

  /** Neither the driver nor the NIC touches a buffer that the application holds. */
  lemma HeldIsUntouched(s: Sys, a: Act, b: nat)
    requires Inv(s) && Enabled(s, a) && (a.Recv? || a.Drive? || a.NicStore?) && b in s.held
    ensures b < |s.mem| && Step(s, a).mem[b] == s.mem[b]
  {
    HeldInPool(s, b);
    match a
    case NicStore(wb, data, junk) => StoreMissesHeld(s, wb, data, junk, b);
    case Drive => DriveMissesHeld(s, b);
    case Recv =>
  }

  lemma HeldInPool(s: Sys, b: nat)
    requires Partitioned(s) && b in s.held
    ensures b < |s.mem|
  {
    var rest := multiset(s.free) + multiset(R.Own(s.ring));
    assert s.held + rest == Universe(|s.mem|);
    Exclusive(|s.mem|, s.held, rest, b);
  }

  // -- whole runs of the repaired driver ---------------------------------------------------------

  lemma BeginOk(n: nat, mem: seq<Buf>, cap: nat, mtu: nat)
    requires 2 <= n <= |mem| && Headers(mem) && mtu <= cap
    ensures Inv(Begin(Repaired(n, cap, mtu), mem))
  {
    R.StartOk(FirstOut(|mem|, n), DATA_OFFSET);
    BeginPartitioned(Repaired(n, cap, mtu), mem);
  }

  lemma BeginPartitioned(c: Config, mem: seq<Buf>)
    requires 2 <= c.n <= |mem|
    ensures Partitioned(Begin(c, mem))
  {
    var N, s := |mem|, Begin(c, mem);
    assert R.Own(s.ring) == FirstOut(N, c.n);
    IdentityStack(N - c.n);
    PoppedAndRest(N, c.n);
    NothingHeld(s.free, R.Own(s.ring), N);
  }

  lemma NothingHeld(free: seq<nat>, bufs: seq<nat>, N: nat)
    requires multiset(bufs) + multiset(free) == Universe(N)
    ensures multiset(free) + multiset{} + multiset(bufs) == Universe(N)
  {
  }

  /** Over every interleaving of application, driver and NIC steps: the k-th packet returned is the k-th
      packet the NIC stored, with its length and bytes, in the buffer it was stored in; free, held and
      ring buffers partition the pool, so nothing is handed out twice; headers survive. */
  lemma ReceiveSafety(n: nat, mem: seq<Buf>, cap: nat, mtu: nat, acts: seq<Act>)
    requires 2 <= n <= |mem| && Headers(mem) && mtu <= cap && ValidRun(Begin(Repaired(n, cap, mtu), mem), acts)
    ensures var s := Run(Begin(Repaired(n, cap, mtu), mem), acts);
            && |s.got| <= |s.ring.filled| && (forall k: nat | k < |s.got| :: Delivers(s, k))
            && |s.mem| == |mem| && Partitioned(s) && Headers(s.mem)
            && (forall b: nat :: s.held[b] <= 1)
            && (s.ring.pc.Idle? ==> |s.free| + |s.held| + n == |mem| && R.Cyclic(s.ring))
  {
    var s0 := Begin(Repaired(n, cap, mtu), mem);
    BeginOk(n, mem, cap, mtu);
    RunKeeps(s0, acts);
    RingSizeKept(s0, acts);
    var s := Run(s0, acts);
    if s.ring.pc.Idle? { R.RegistersCyclic(s.ring); }
    UniverseCounts(|mem|);
    forall b: nat ensures s.held[b] <= 1 {
      assert (multiset(s.free) + s.held + multiset(R.Own(s.ring)))[b] >= s.held[b];
    }
  }

  lemma {:induction false} RingSizeKept(s: Sys, acts: seq<Act>)
    requires ValidRun(s, acts)
    ensures Run(s, acts).ring.n == s.ring.n
    decreases acts
  {
    if acts != [] { RingSizeKept(Step(s, acts[0]), acts[1..]); }
  }

  // -- headers, for either driver ----------------------------------------------------------------

  /** The buffers a running call deals with are buffers of a pool of N. */
  predicate CallInPool(pc: R.Pc, N: nat) {
    && (R.Taking(pc) && !pc.Copy? ==> pc.buf < N)
    && (R.Borrowed(pc) ==> pc.newBuf < N)
  }

  predicate DataArea(addr: DmaAddr, N: nat) { addr.InPool? && addr.off == DATA_OFFSET && addr.buf < N }

  /** Headers are intact, and everything that names a buffer names one of the pool's. */
  ghost predicate Safe(s: Sys) {
    && s.cfg.mtu <= s.cfg.cap && R.Inv(s.ring) && Headers(s.mem) && !s.overrun
    && (forall j | 0 <= j < |s.ring.posted| :: DataArea(s.ring.posted[j], |s.mem|))
    && (forall i | 0 <= i < |s.ring.shadow| :: s.ring.shadow[i] < |s.mem|)
    && (forall i | 0 <= i < |s.free| :: s.free[i] < |s.mem|)
    && CallInPool(s.ring.pc, |s.mem|)
  }

  lemma StoreKeepsSafe(s: Sys, wb: RxDesc, data: seq<nat>, junk: Buf)
    requires Safe(s) && Enabled(s, NicStore(wb, data, junk))
    ensures Safe(Step(s, NicStore(wb, data, junk)))
  {
    var k := |s.ring.filled|;
    R.StoreKeeps(s.ring, wb, data);
    R.StoreRoom(s.ring);
    assert R.SlotOk(s.ring, k);
    assert DataArea(s.ring.posted[k], |s.mem|);
    DmaFits(s.mem, s.cfg.cap, s.ring.posted[k], data, junk);
    NoSpill(s.ring.posted[k], |data|, s.cfg.cap, |s.mem|);
  }

  lemma DriveKeepsSafe(s: Sys)
    requires Safe(s) && Enabled(s, Drive)
    ensures Safe(Step(s, Drive))
  {
    R.DriverKeeps(s.ring, s.cfg.repaired, R.Top(s.free));
    DriveFrame(s);
    DriveNames(s);
  }

  /** A driver step names only buffers that were named before. */
  lemma DriveNames(s: Sys)
    requires Enabled(s, Drive) && CallInPool(s.ring.pc, |s.mem|)
    requires forall i | 0 <= i < |s.ring.shadow| :: s.ring.shadow[i] < |s.mem|
    requires forall i | 0 <= i < |s.free| :: s.free[i] < |s.mem|
    requires forall j | 0 <= j < |s.ring.posted| :: DataArea(s.ring.posted[j], |s.mem|)
    ensures var s' := Step(s, Drive);
            && CallInPool(s'.ring.pc, |s.mem|)
            && (forall i | 0 <= i < |s'.ring.shadow| :: s'.ring.shadow[i] < |s.mem|)
            && (forall i | 0 <= i < |s'.free| :: s'.free[i] < |s.mem|)
            && (forall j | 0 <= j < |s'.ring.posted| :: DataArea(s'.ring.posted[j], |s.mem|))
  {
    EffectOperands(s);
  }

  lemma StepKeepsSafe(s: Sys, a: Act)
    requires Safe(s) && Enabled(s, a)
    ensures Safe(Step(s, a))
  {
    match a
    case Drive => DriveKeepsSafe(s);
    case NicStore(wb, data, junk) => StoreKeepsSafe(s, wb, data, junk);
    case Recv => R.CallKeeps(s.ring);
    case _ =>
  }

  lemma {:induction false} RunKeepsSafe(s: Sys, acts: seq<Act>)
    requires Safe(s) && ValidRun(s, acts)
    ensures Safe(Run(s, acts))
    decreases acts
  {
    if acts != [] {
      StepKeepsSafe(s, acts[0]);
      RunKeepsSafe(Step(s, acts[0]), acts[1..]);
    }
  }

  /** A packet whose first DMA write leaves the data area of the first posted buffer. */
  lemma FirstPacketStrays(c: Config, mem: seq<Buf>) returns (acts: seq<Act>)
    requires 2 <= c.n <= |mem| && (c.off == 0 || c.off == DATA_OFFSET) && c.mtu >= 1
    requires c.off == 0 || c.cap < c.mtu
    ensures ValidRun(Begin(c, mem), acts)
    ensures var s := Run(Begin(c, mem), acts); !Headers(s.mem) || s.overrun
  {
    var s, b := Begin(c, mem), |mem| - 1;
    var data := seq(c.mtu, _ => 1);
    acts := [NicStore(RxDesc(Raw(0), 3, c.mtu), data, Buf(b + 1, 0, 0, []))];
    var s' := Step(s, acts[0]);
    if c.off == 0 {
      assert s'.mem[b].phy == b + 1;
    } else {
      assert (|mem| - b) * (DATA_OFFSET + c.cap) == DATA_OFFSET + c.cap;
    }
    assert acts[1..] == [] && ValidRun(s', acts[1..]) && Run(s', acts[1..]) == s';
  }

  /** The start as written posts the first n buffers without the data offset, and the NIC is told 2048 bytes
      where fewer are left. With either driver, headers survive and DMA stays in the pool in every run exactly
      if the offset is added and the longest packet fits behind the header. */
  lemma HeadersSurviveIff(c: Config, mem: seq<Buf>)
    requires 2 <= c.n <= |mem| && Headers(mem) && (c.off == 0 || c.off == DATA_OFFSET) && c.mtu >= 1
    ensures (forall acts | ValidRun(Begin(c, mem), acts) ::
               Headers(Run(Begin(c, mem), acts).mem) && !Run(Begin(c, mem), acts).overrun)
            <==> c.off == DATA_OFFSET && c.mtu <= c.cap
  {
    if c.off == DATA_OFFSET && c.mtu <= c.cap {
      R.StartOk(FirstOut(|mem|, c.n), c.off);
      assert Safe(Begin(c, mem));
      forall acts | ValidRun(Begin(c, mem), acts) ensures Safe(Run(Begin(c, mem), acts)) {
        RunKeepsSafe(Begin(c, mem), acts);
      }
    } else {
      var acts := FirstPacketStrays(c, mem);
    }
  }
}
