/** Which variants of the forwarder can die on an empty pool. */
module ForwarderRuns {
  import opened RingIndex
  import opened Descriptors
  import opened Forwarder
  import Memory
  import R = RxRing
  import Rx = RxSystem
  import T = TxRing

  ghost predicate Reaches(s: Fwd, s': Fwd) { exists acts :: ValidRun(s, acts) && Run(s, acts) == s' }

  lemma {:induction false} RunSnoc(s: Fwd, acts: seq<Act>, a: Act)
    requires ValidRun(s, acts) && Enabled(Run(s, acts), a)
    ensures ValidRun(s, acts + [a]) && Run(s, acts + [a]) == Step(Run(s, acts), a)
    decreases acts
  {
    if acts == [] {
      assert [a][1..] == [];
      assert ValidRun(Step(s, a), []) && Run(Step(s, a), []) == Step(s, a);
      assert acts + [a] == [a];
    } else {
      RunSnoc(Step(s, acts[0]), acts[1..], a);
      assert (acts + [a])[1..] == acts[1..] + [a];
    }
  }

  lemma ReachStep(s: Fwd, s': Fwd, a: Act)
    requires Reaches(s, s') && Enabled(s', a)
    ensures Reaches(s, Step(s', a))
  {
    var acts :| ValidRun(s, acts) && Run(s, acts) == s';
    RunSnoc(s, acts, a);
  }

  /** A state of a run that began in s0. */
  ghost predicate On(s0: Fwd, s: Fwd, N: nat) { Reaches(s0, s) && Inv(s, N) && SameSizes(s0, s) }

  lemma Advance(s0: Fwd, s: Fwd, N: nat, a: Act) returns (t: Fwd)
    requires On(s0, s, N) && Enabled(s, a)
    ensures t == Step(s, a) && On(s0, t, N)
  {
    t := Step(s, a);
    ReachStep(s0, s, a);
    StepKeeps(s, N, a);
    StepKeepsSizes(s, a);
  }

  // -- the receive call --------------------------------------------------------------------------

  /** Steps that the receive call has left. */
  function RxRank(pc: R.Pc): nat {
    match pc
    case Idle => 0
    case Aborted => 0
    case Poll(_) => 9
    case Copy(_) => 8
    case SetSize(_, _, _) => 7
    case Refill(_, _, _) => 6
    case PutAddr(_, _, _, _) => 5
    case PutHdr(_, _, _, _) => 4
    case PutShadow(_, _, _, _) => 3
    case PutIndex(_, _, _, _) => 2
    case PutTail(_, _, _, _) => 1
  }

  /** One packet waits in the receive ring, and it is a whole one. */
  ghost predicate OneWaits(r: R.Ring) { |r.filled| == r.taken + 1 && r.filled[r.taken].eop }

  /** A write-back for a packet of one byte. */
  const WB: RxDesc := RxDesc(Raw(0), 3, 1)

  /** Header indices are intact, and packets of one byte leave them so. */
  ghost predicate Benign(s: Rx.Sys) {
    && s.cfg.mtu <= s.cfg.cap
    && (forall b | 0 <= b < |s.mem| :: s.mem[b].idx == b)
    && (forall j | 0 <= j < |s.ring.posted| :: AtStart(s.ring.posted[j]))
  }

  /** The two places in a buffer that are posted. */
  predicate AtStart(addr: DmaAddr) { addr.InPool? && (addr.off == 0 || addr.off == DATA_OFFSET) }

  const JUNK: Rx.Buf := Rx.Buf(0, 0, 0, [])

  lemma ByteIsBenign(mem: seq<Rx.Buf>, cap: nat, addr: DmaAddr, b: nat)
    requires AtStart(addr) && cap >= 1 && b < |mem|
    ensures Rx.Dma(mem, cap, addr, [0], JUNK)[b].idx == mem[b].idx
  {
    if addr.buf < b {
      Memory.Products(0, b - addr.buf, DATA_OFFSET + cap);
      assert !Rx.Spills(addr, 1, cap, b);
    }
  }

  lemma StoreIsBenign(s: Rx.Sys)
    requires R.Inv(s.ring) && Benign(s) && Rx.Enabled(s, Rx.NicStore(WB, [0], JUNK))
    ensures Benign(Rx.Step(s, Rx.NicStore(WB, [0], JUNK)))
  {
    R.StoreRoom(s.ring);
    assert R.SlotOk(s.ring, |s.ring.filled|);
    var addr := s.ring.desc[s.ring.rdh].addr;
    forall b: nat | b < |s.mem| ensures Rx.Dma(s.mem, s.cfg.cap, addr, [0], JUNK)[b].idx == b {
      ByteIsBenign(s.mem, s.cfg.cap, addr, b);
    }
  }

  lemma DriveIsBenign(s: Rx.Sys)
    requires Benign(s) && Rx.Enabled(s, Rx.Drive)
    ensures Benign(Rx.Step(s, Rx.Drive))
  {
    Rx.DriveFrame(s);
    if !s.ring.pc.PutTail? { assert Rx.Step(s, Rx.Drive).ring.posted == s.ring.posted; }
  }

  /** Nothing happens on the transmit side, nor to headers. */
  ghost predicate SendSideSame(s: Fwd, t: Fwd) {
    t.tx == s.tx && t.lost == s.lost && t.outcomes == s.outcomes && (Benign(s.rx) ==> Benign(t.rx))
  }

  /** At a loop head, every stored packet taken. */
  ghost predicate Waiting(s: Fwd) { s.app.LoopHead? && |s.rx.ring.filled| == s.rx.ring.taken }

  /** A packet arrives and the loop calls the receive function. */
  lemma Arrive(s0: Fwd, s: Fwd, N: nat) returns (t: Fwd)
    requires On(s0, s, N) && Waiting(s) && s0.rx.cfg.mtu >= 1
    ensures On(s0, t, N) && t.app.Receiving? && OneWaits(t.rx.ring) && !R.Borrowed(t.rx.ring.pc) && SendSideSame(s, t)
    ensures t.rx.free == s.rx.free && t.rx.ring.taken == s.rx.ring.taken && t.rx.ring.posted == s.rx.ring.posted
  {
    CanArrive(s.rx);
    t := Advance(s0, s, N, RxStore(WB, [0], JUNK));
    assert t == s.(rx := Rx.Step(s.rx, Rx.NicStore(WB, [0], JUNK)));
    if Benign(s.rx) { StoreIsBenign(s.rx); }
    t := Advance(s0, t, N, Cpu);
  }

  /** With every stored packet taken there is room for one. */
  lemma CanArrive(s: Rx.Sys)
    requires R.Inv(s.ring) && |s.ring.filled| == s.ring.taken && s.cfg.mtu >= 1
    ensures Rx.Enabled(s, Rx.NicStore(WB, [0], JUNK))
  {
    SlotEqual(s.ring.taken, s.ring.taken + s.ring.n - 1, s.ring.n);
  }

  /** One step of the receive call that finds the packet. */
  lemma ReceiveStep(s: Rx.Sys)
    requires R.Inv(s.ring) && Rx.Enabled(s, Rx.Drive) && OneWaits(s.ring)
    ensures var s', e := Rx.Step(s, Rx.Drive), R.Driver(s.ring, s.cfg.repaired, R.Top(s.free)).1;
            && RxRank(s'.ring.pc) < RxRank(s.ring.pc)
            && (e.Failed? <==> s.ring.pc.Refill? && s.free == [])
            && !e.NoPacket? && |s'.ring.filled| == |s.ring.filled|
            && (e.Returned? ==> s'.ring.taken == |s'.ring.filled|)
            && (!e.Returned? ==> OneWaits(s'.ring))
  {
    assert s.ring.pc.Poll? ==> R.SlotOk(s.ring, s.ring.taken);
  }

  /** The buffer that the call has taken from the pool, or will take, and the stack after that. */
  function NewBuf(s: Rx.Sys): nat {
    if R.Borrowed(s.ring.pc) then s.ring.pc.newBuf else if s.free == [] then 0 else s.free[|s.free| - 1]
  }

  function Remaining(s: Rx.Sys): seq<nat> {
    if R.Borrowed(s.ring.pc) || s.free == [] then s.free else s.free[..|s.free| - 1]
  }

  lemma RefillStep(s: Rx.Sys)
    requires Rx.Enabled(s, Rx.Drive)
    ensures var s', e := Rx.Step(s, Rx.Drive), R.Driver(s.ring, s.cfg.repaired, R.Top(s.free)).1;
            if e.Returned? then
              s'.ring.posted == s.ring.posted + [InPool(NewBuf(s), DATA_OFFSET)] && s'.free == s.free == Remaining(s)
            else
              s'.ring.posted == s.ring.posted && NewBuf(s') == NewBuf(s) && Remaining(s') == Remaining(s)
  {
  }

  /** The call takes the packet, or dies if it needs a buffer and none is free. */
  lemma {:induction false} ReceiveOn(s0: Fwd, s: Fwd, N: nat) returns (t: Fwd)
    requires On(s0, s, N) && s.app.Receiving? && OneWaits(s.rx.ring)
    ensures On(s0, t, N) && SendSideSame(s, t) && |t.rx.ring.filled| == |s.rx.ring.filled|
    ensures R.Borrowed(s.rx.ring.pc) || s.rx.free != [] ==>
              && t.app.Has? && t.rx.ring.taken == |t.rx.ring.filled| && t.rx.free == Remaining(s.rx)
              && t.rx.ring.posted == s.rx.ring.posted + [InPool(NewBuf(s.rx), DATA_OFFSET)]
    ensures !R.Borrowed(s.rx.ring.pc) && s.rx.free == [] ==> t.app.PoolEmpty?
    decreases RxRank(s.rx.ring.pc)
  {
    ReceiveStep(s.rx);
    RefillStep(s.rx);
    if Benign(s.rx) { DriveIsBenign(s.rx); }
    R.ControlFlow(s.rx.ring, s.rx.cfg.repaired, R.Top(s.rx.free));
    t := Advance(s0, s, N, Cpu);
    if t.app.Receiving? { t := ReceiveOn(s0, t, N); }
  }

  /** A packet arrives, is received and handed to the transmit function. */
  lemma ReceiveOne(s0: Fwd, s: Fwd, N: nat) returns (t: Fwd)
    requires On(s0, s, N) && Waiting(s) && s0.rx.cfg.mtu >= 1 && s.rx.free != []
    ensures On(s0, t, N) && t.app.Sending? && t.tx == s.tx.(pc := t.tx.pc) && t.tx.pc.Scan?
    ensures t.lost == s.lost && t.outcomes == s.outcomes && (Benign(s.rx) ==> Benign(t.rx))
    ensures t.rx.ring.taken == |t.rx.ring.filled| == s.rx.ring.taken + 1
    ensures t.rx.free == s.rx.free[..|s.rx.free| - 1]
    ensures t.rx.ring.posted == s.rx.ring.posted + [InPool(s.rx.free[|s.rx.free| - 1], DATA_OFFSET)]
  {
    t := Arrive(s0, s, N);
    t := ReceiveOn(s0, t, N);
    var u := Advance(s0, t, N, Cpu);
    assert u.rx == t.rx && u.tx == s.tx.(pc := u.tx.pc);
    t := u;
  }

  // -- the transmit call -------------------------------------------------------------------------

  /** The transmit call, with nothing to clean: it takes the packet if there is room, and turns it away if not. */
  lemma {:induction false} SendOn(s0: Fwd, s: Fwd, N: nat) returns (t: Fwd)
    requires On(s0, s, N) && s.app.Sending? && T.Still(s.tx)
    ensures On(s0, t, N) && t.app.LoopHead? && T.Still(t.tx) && t.tx.cleaned == s.tx.cleaned
    ensures t.rx.ring == s.rx.ring && t.rx.mem == s.rx.mem
    ensures var took := |s.tx.posted| < s.tx.cleaned + s.tx.n - 1;
            && t.outcomes == s.outcomes + [took]
            && (took ==> |t.tx.posted| == |s.tx.posted| + 1 && s.tx.posted <= t.tx.posted
                         && t.lost == s.lost && t.rx == s.rx)
            && (!took ==> t.tx.posted == s.tx.posted && |t.lost| == |s.lost| + One(!s.freeing)
                          && |t.rx.free| == |s.rx.free| + One(s.freeing))
    decreases T.Rank(s.tx.pc)
  {
    T.StillStep(s.tx);
    T.ControlFlow(s.tx);
    t := Advance(s0, s, N, Cpu);
    assert t.rx.ring == s.rx.ring && t.rx.mem == s.rx.mem;
    if t.app.Sending? {
      assert t.rx == s.rx && t.lost == s.lost && t.outcomes == s.outcomes;
      t := SendOn(s0, t, N);
    }
  }

  /** One packet through the loop, while the transmit NIC does nothing. */
  lemma PassOne(s0: Fwd, s: Fwd, N: nat) returns (t: Fwd)
    requires On(s0, s, N) && Waiting(s) && T.Still(s.tx) && s0.rx.cfg.mtu >= 1 && s.rx.free != []
    ensures On(s0, t, N) && Waiting(t) && T.Still(t.tx) && t.rx.ring.taken == s.rx.ring.taken + 1
    ensures t.tx.cleaned == s.tx.cleaned && s.tx.posted <= t.tx.posted && (Benign(s.rx) ==> Benign(t.rx))
    ensures var took := |s.tx.posted| < s.tx.cleaned + s.tx.n - 1;
            && t.outcomes == s.outcomes + [took]
            && |t.tx.posted| == |s.tx.posted| + One(took)
            && |t.lost| == |s.lost| + One(!took && !s.freeing)
            && |t.rx.free| == |s.rx.free| - One(took || !s.freeing)
  {
    t := ReceiveOne(s0, s, N);
    t := SendOn(s0, t, N);
  }

  /** The NIC sends the oldest packet and reports it done. */
  lemma FinishOldest(s0: Fwd, s: Fwd, N: nat) returns (t: Fwd)
    requires On(s0, s, N) && Waiting(s) && T.Still(s.tx) && s.tx.cleaned < |s.tx.posted|
    ensures On(s0, t, N) && Waiting(t) && t.rx == s.rx && t.lost == s.lost && t.outcomes == s.outcomes
    ensures t.tx.posted == s.tx.posted && t.tx.cleaned == s.tx.cleaned
    ensures |t.tx.fetched| == t.tx.cleaned + 1 && t.tx.cleaned in t.tx.written
  {
    var k := s.tx.cleaned;
    SlotInjective(k, |s.tx.posted|, s.tx.n);
    t := Advance(s0, s, N, TxFetch);
    assert k !in t.tx.written;
    t := Advance(s0, t, N, TxWriteBack(k, T.STALE));
  }

  /** The call cleans it. */
  lemma CleanOldest(s0: Fwd, s: Fwd, N: nat) returns (t: Fwd)
    requires On(s0, s, N) && s.app.Sending? && s.tx.pc.Scan?
    requires |s.tx.fetched| == s.tx.cleaned + 1 && s.tx.cleaned in s.tx.written
    ensures On(s0, t, N) && t.app.Sending? && T.Still(t.tx) && t.lost == s.lost && t.outcomes == s.outcomes
    ensures t.tx.posted == s.tx.posted && t.tx.cleaned == s.tx.cleaned + 1 <= |s.tx.posted|
    ensures t.rx == Release(s.rx, s.tx.posted[s.tx.cleaned].buf)
  {
    T.CleanStep(s.tx);
    t := Advance(s0, s, N, Cpu);
    assert t.rx == s.rx && t.lost == s.lost && t.outcomes == s.outcomes && t.tx.shadow == s.tx.shadow;
    t := Advance(s0, t, N, Cpu);
  }

  /** One packet through the loop, after the NIC has sent the oldest one: that one is cleaned, the new one taken. */
  lemma SwapOne(s0: Fwd, s: Fwd, N: nat) returns (t: Fwd)
    requires On(s0, s, N) && Waiting(s) && T.Still(s.tx) && s.tx.cleaned < |s.tx.posted|
    requires s0.rx.cfg.mtu >= 1 && s.rx.free != []
    ensures On(s0, t, N) && Waiting(t) && T.Still(t.tx) && t.rx.ring.taken == s.rx.ring.taken + 1
    ensures t.tx.cleaned == s.tx.cleaned + 1 && s.tx.posted <= t.tx.posted && |t.tx.posted| == |s.tx.posted| + 1
    ensures t.outcomes == s.outcomes + [true] && t.lost == s.lost && |t.rx.free| == |s.rx.free|
    ensures t.rx.ring.posted == s.rx.ring.posted + [InPool(s.rx.free[|s.rx.free| - 1], DATA_OFFSET)]
    ensures Benign(s.rx) ==> Benign(t.rx)
    ensures var b := s.tx.posted[s.tx.cleaned].buf;
            Benign(s.rx) && b < |s.rx.mem| ==> t.rx.free == s.rx.free[..|s.rx.free| - 1] + [b]
  {
    t := FinishOldest(s0, s, N);
    t := ReceiveOne(s0, t, N);
    t := CleanOldest(s0, t, N);
    t := SendOn(s0, t, N);
  }

  /** k packets in a row, with room for all of them. */
  lemma {:induction false} PassMany(s0: Fwd, s: Fwd, N: nat, k: nat) returns (t: Fwd)
    requires On(s0, s, N) && Waiting(s) && T.Still(s.tx) && s0.rx.cfg.mtu >= 1
    requires |s.rx.free| >= k && |s.tx.posted| + k < s.tx.cleaned + s.tx.n
    ensures On(s0, t, N) && Waiting(t) && T.Still(t.tx) && t.rx.ring.taken == s.rx.ring.taken + k
    ensures t.tx.cleaned == s.tx.cleaned && s.tx.posted <= t.tx.posted && |t.tx.posted| == |s.tx.posted| + k
    ensures |t.rx.free| == |s.rx.free| - k && |t.lost| == |s.lost|
    ensures k > 0 ==> t.outcomes != [] && t.outcomes[|t.outcomes| - 1]
    decreases k
  {
    t := s;
    if k > 0 {
      t := PassMany(s0, s, N, k - 1);
      t := PassOne(s0, t, N);
    }
  }

  /** k packets in a row with a full ring. */
  lemma {:induction false} TurnAway(s0: Fwd, s: Fwd, N: nat, k: nat) returns (t: Fwd)
    requires On(s0, s, N) && Waiting(s) && T.Still(s.tx) && s0.rx.cfg.mtu >= 1
    requires |s.rx.free| >= (if s.freeing then 1 else k) && |s.tx.posted| == s.tx.cleaned + s.tx.n - 1
    ensures On(s0, t, N) && Waiting(t) && T.Still(t.tx) && t.rx.ring.taken == s.rx.ring.taken + k
    ensures t.tx.cleaned == s.tx.cleaned && t.tx.posted == s.tx.posted
    ensures |t.rx.free| == |s.rx.free| - (if s.freeing then 0 else k)
    decreases k
  {
    t := s;
    if k > 0 {
      t := TurnAway(s0, s, N, k - 1);
      t := PassOne(s0, t, N);
    }
  }

  /** k packets in a row, the oldest being sent before each. */
  lemma {:induction false} SwapMany(s0: Fwd, s: Fwd, N: nat, k: nat) returns (t: Fwd)
    requires On(s0, s, N) && Waiting(s) && T.Still(s.tx) && s.tx.cleaned < |s.tx.posted|
    requires s0.rx.cfg.mtu >= 1 && s.rx.free != []
    ensures On(s0, t, N) && Waiting(t) && T.Still(t.tx) && t.rx.ring.taken == s.rx.ring.taken + k
    ensures t.tx.cleaned == s.tx.cleaned + k && s.tx.posted <= t.tx.posted && |t.tx.posted| == |s.tx.posted| + k
    ensures |t.rx.free| == |s.rx.free| && s.rx.ring.posted <= t.rx.ring.posted
    ensures if k == 0 then t == s else t.outcomes != [] && t.outcomes[|t.outcomes| - 1]
    decreases k
  {
    t := s;
    if k > 0 {
      t := SwapMany(s0, s, N, k - 1);
      t := SwapOne(s0, t, N);
    }
  }

  // -- packets until the pool is empty -----------------------------------------------------------

  /** Packets keep coming and none is sent: every round uses up a free buffer. */
  lemma {:induction false} Starve(s0: Fwd, s: Fwd, N: nat) returns (t: Fwd)
    requires On(s0, s, N) && Waiting(s) && T.Still(s.tx)
    requires s0.rx.cfg.mtu >= 1 && (s0.freeing ==> N < s0.rx.ring.n + s0.tx.n)
    ensures On(s0, t, N) && t.app.PoolEmpty?
    decreases |s.rx.free|
  {
    if s.rx.free != [] {
      t := PassOne(s0, s, N);
      t := Starve(s0, t, N);
    } else {
      t := Arrive(s0, s, N);
      t := ReceiveOn(s0, t, N);
    }
  }

  ghost predicate DeadRun(s: Fwd, acts: seq<Act>) { ValidRun(s, acts) && Run(s, acts).app.PoolEmpty? }

  lemma SomeRunDies(c: Setup, mem: seq<Rx.Buf>)
    requires Sized(c, |mem|) && c.rx.mtu >= 1 && (!c.freeing || |mem| < c.rx.n + c.ntx)
    ensures exists acts :: DeadRun(Begin(c, mem), acts)
  {
    var s0 := Begin(c, mem);
    BeginOk(c, mem);
    assert ValidRun(s0, []) && Run(s0, []) == s0;
    var t := Starve(s0, s0, |mem|);
    var acts :| ValidRun(s0, acts) && Run(s0, acts) == t;
    assert DeadRun(s0, acts);
  }

  /** Some run dies on an empty pool exactly if the loop drops what the transmit function does not take, whatever the
      size of the pool, or the pool is too small to fill both rings and hold one packet. A run that dies has lost
      exactly the spare buffers, which is none if the loop frees. */
  lemma DiesIff(c: Setup, mem: seq<Rx.Buf>)
    requires Sized(c, |mem|) && c.rx.mtu >= 1
    ensures (exists acts :: DeadRun(Begin(c, mem), acts)) <==> !c.freeing || |mem| < c.rx.n + c.ntx
    ensures forall acts | DeadRun(Begin(c, mem), acts) ::
              |Run(Begin(c, mem), acts).lost| == if c.freeing then 0 else Spare(c.rx.n, c.ntx, |mem|)
  {
    if !c.freeing || |mem| < c.rx.n + c.ntx { SomeRunDies(c, mem); }
    forall acts | DeadRun(Begin(c, mem), acts)
      ensures |Run(Begin(c, mem), acts).lost| == (if c.freeing then 0 else Spare(c.rx.n, c.ntx, |mem|))
      ensures !c.freeing || |mem| < c.rx.n + c.ntx
    {
      BeginOk(c, mem);
      RunKeeps(Begin(c, mem), |mem|, acts);
    }
  }

  /** The shipped sizes, a pool of 4096 and two rings of 1024: some run dies, every such run after losing exactly 2049
      buffers; a loop that frees would never die. */
  lemma ShippedSizes(c: Setup, mem: seq<Rx.Buf>)
    requires c.rx.n == c.ntx == 1024 && |mem| == 4096 && c.rx.mtu >= 1
    ensures (exists acts :: DeadRun(Begin(c, mem), acts)) <==> !c.freeing
    ensures forall acts | DeadRun(Begin(c, mem), acts) :: |Run(Begin(c, mem), acts).lost| == 2049
  {
    DiesIff(c, mem);
  }
}
