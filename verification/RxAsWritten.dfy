/** The receive function as written: the new buffer goes into the descriptor but not into
    virtual_addresses, so every lap returns the buffers of the first lap again. */
module RxAsWritten {
  import opened RingIndex
  import opened Descriptors
  import opened Ownership
  import R = RxRing
  import opened RxSystem

  /** Buffers with ids from N - n on were popped by start_rx_queue; the others have never been in the
      ring before the first refill. */
  ghost predicate FirstRefill(s: Sys, n: nat)
    requires n <= |s.mem| && |s.ring.posted| == s.ring.taken + n
  {
    var rest := |s.mem| - n;
    if s.ring.taken == 0 then
      && (forall i | 0 <= i < |s.free| :: s.free[i] < rest)
      && (forall x | x in s.held :: x < rest)
      && (forall b | 0 <= b < rest :: s.mem[b].idx == b)
      && (R.Borrowed(s.ring.pc) ==> s.ring.pc.newBuf < rest)
    else
      s.ring.posted[n].InPool? && s.ring.posted[n].buf < rest
  }

  /** The buffer start_rx_queue put in the slot of packet k. */
  function FirstLap(N: nat, n: nat, k: nat): int
    requires n >= 1
  {
    N - 1 - Slot(k, n)
  }

  /** Nothing is assumed of headers: with postings below the data offset, packets overwrite them. */
  ghost predicate Inv(s: Sys, n: nat) {
    && !s.cfg.repaired && R.Inv(s.ring) && s.ring.n == n <= |s.mem| && !s.ring.pc.PutShadow?
    && (forall j | 0 <= j < |s.ring.posted| :: s.ring.posted[j].InPool?)
    && (forall j | 0 <= j < n && j < |s.ring.posted| :: s.ring.posted[j].buf == |s.mem| - 1 - j)
    && (forall i | 0 <= i < n :: s.ring.shadow[i] == |s.mem| - 1 - i)
    && (R.Taking(s.ring.pc) && !s.ring.pc.Copy? ==> s.ring.pc.buf == s.ring.shadow[s.ring.pc.i])
    && |s.got| == s.ring.taken
    && (forall k: nat | k < |s.got| :: s.got[k].buf == FirstLap(|s.mem|, n, k))
    && FirstRefill(s, n)
    && |s.free| + |s.held| + (if R.Borrowed(s.ring.pc) then 1 else 0) == |s.mem| - n
  }

  lemma StoreKeeps(s: Sys, n: nat, wb: RxDesc, data: seq<nat>, junk: Buf)
    requires Inv(s, n) && Enabled(s, NicStore(wb, data, junk))
    ensures Inv(Step(s, NicStore(wb, data, junk)), n)
  {
    R.StoreKeeps(s.ring, wb, data);
    R.StoreRoom(s.ring);
    assert R.SlotOk(s.ring, |s.ring.filled|);
    assert s.ring.desc[s.ring.rdh].addr == s.ring.posted[|s.ring.filled|];
  }

  lemma DriveKeepsFirstRefill(s: Sys, n: nat)
    requires Inv(s, n) && Enabled(s, Drive)
    ensures |Step(s, Drive).ring.posted| == Step(s, Drive).ring.taken + n
    ensures FirstRefill(Step(s, Drive), n)
  {
    R.DriverKeeps(s.ring, false, R.Top(s.free));
    EffectOperands(s);
    DriveFrame(s);
    R.ControlFlow(s.ring, false, R.Top(s.free));
  }

  lemma DriveKeepsCount(s: Sys, n: nat)
    requires Inv(s, n) && Enabled(s, Drive)
    ensures var s' := Step(s, Drive);
            |s'.free| + |s'.held| + (if R.Borrowed(s'.ring.pc) then 1 else 0) == |s.mem| - n
  {
    EffectOperands(s);
    R.ControlFlow(s.ring, false, R.Top(s.free));
  }

  lemma DriveKeepsLaps(s: Sys, n: nat)
    requires Inv(s, n) && Enabled(s, Drive)
    ensures var s' := Step(s, Drive);
            && |s'.got| == s'.ring.taken
            && (forall k: nat | k < |s'.got| :: s'.got[k].buf == FirstLap(|s.mem|, n, k))
  {
    EffectOperands(s);
    DriveFrame(s);
  }

  lemma DriveKeepsPostings(s: Sys, n: nat)
    requires Inv(s, n) && Enabled(s, Drive)
    ensures var r := Step(s, Drive).ring;
            && r.n == n && !r.pc.PutShadow? && r.shadow == s.ring.shadow
            && (forall j | 0 <= j < |r.posted| :: r.posted[j].InPool?)
            && (forall j | 0 <= j < n && j < |r.posted| :: r.posted[j].buf == |s.mem| - 1 - j)
            && (R.Taking(r.pc) && !r.pc.Copy? ==> r.pc.buf == r.shadow[r.pc.i])
  {
    if !s.ring.pc.PutTail? { assert Step(s, Drive).ring.posted == s.ring.posted; }
  }

  lemma DriveKeeps(s: Sys, n: nat)
    requires Inv(s, n) && Enabled(s, Drive)
    ensures Inv(Step(s, Drive), n)
  {
    R.DriverKeeps(s.ring, false, R.Top(s.free));
    DriveKeepsPostings(s, n);
    DriveKeepsFirstRefill(s, n);
    DriveKeepsLaps(s, n);
    DriveKeepsCount(s, n);
  }

  lemma StepKeeps(s: Sys, n: nat, a: Act)
    requires Inv(s, n) && Enabled(s, a)
    ensures Inv(Step(s, a), n)
  {
    match a
    case Drive => DriveKeeps(s, n);
    case NicStore(wb, data, junk) => StoreKeeps(s, n, wb, data, junk);
    case Recv => R.CallKeeps(s.ring);
    case _ =>
  }

  lemma {:induction false} RunKeeps(s: Sys, n: nat, acts: seq<Act>)
    requires Inv(s, n) && ValidRun(s, acts)
    ensures Inv(Run(s, acts), n) && |Run(s, acts).mem| == |s.mem| && Run(s, acts).cfg == s.cfg
    decreases acts
  {
    if acts != [] {
      StepKeeps(s, n, acts[0]);
      RunKeeps(Step(s, acts[0]), n, acts[1..]);
    }
  }

  lemma BeginOk(c: Config, mem: seq<Buf>)
    requires !c.repaired && 2 <= c.n <= |mem| && Headers(mem)
    ensures Inv(Begin(c, mem), c.n)
  {
    R.StartOk(FirstOut(|mem|, c.n), c.off);
  }

  /** In every run, whatever offset the start uses: the k-th returned buffer is the one that was in slot k mod n
      at the start; the first packet of the second lap comes back in the buffer of the very first packet,
      although the NIC stored it elsewhere; and between calls the registers are where they should be. */
  lemma ReturnsFirstLapForever(c: Config, mem: seq<Buf>, acts: seq<Act>)
    requires !c.repaired && 2 <= c.n <= |mem| && Headers(mem) && ValidRun(Begin(c, mem), acts)
    ensures var s := Run(Begin(c, mem), acts);
            && (forall k: nat | k < |s.got| :: s.got[k].buf == |mem| - 1 - k % c.n)
            && (|s.got| > c.n ==> s.got[c.n].buf == s.got[0].buf
                                  && c.n < |s.ring.filled| && s.ring.filled[c.n].addr.InPool?
                                  && s.ring.filled[c.n].addr.buf != s.got[c.n].buf)
            && (s.ring.pc.Idle? ==> R.Cyclic(s.ring))
  {
    BeginOk(c, mem);
    RunKeeps(Begin(c, mem), c.n, acts);
    var s := Run(Begin(c, mem), acts);
    forall k: nat | k < |s.got| ensures s.got[k].buf == |mem| - 1 - k % c.n { SlotIsMod(k, c.n); }
    if |s.got| > c.n { SlotPeriod(0, c.n); }
    if s.ring.pc.Idle? { R.RegistersCyclic(s.ring); }
  }

  /** Every packet was returned in the buffer it was stored in. */
  ghost predicate RightBuffers(s: Sys) {
    && |s.got| <= |s.ring.filled|
    && forall k: nat | k < |s.got| :: s.ring.filled[k].addr.InPool? && s.ring.filled[k].addr.buf == s.got[k].buf
  }

  lemma RightIffFirstLap(s: Sys, n: nat)
    requires Inv(s, n)
    ensures |s.got| <= |s.ring.filled| && (forall k: nat | k < |s.got| :: s.ring.filled[k].addr.InPool?)
    ensures RightBuffers(s) <==> |s.got| <= n
  {
    assert forall k: nat | k < |s.got| :: s.ring.filled[k].addr == s.ring.posted[k];
    if |s.got| <= n {
      forall k: nat | k < |s.got| ensures s.ring.filled[k].addr.buf == s.got[k].buf {
        assert s.got[k].buf == FirstLap(|s.mem|, n, k);
        SlotSmall(k, n);
      }
    } else {
      SlotPeriod(0, n);
      assert s.got[n].buf == FirstLap(|s.mem|, n, n);
      assert s.ring.filled[n].addr.buf != s.got[n].buf;
    }
  }

  /** A run returns every packet in the buffer it was stored in exactly if it returns at most n packets. */
  lemma RightBufferIffFirstLap(c: Config, mem: seq<Buf>, acts: seq<Act>)
    requires !c.repaired && 2 <= c.n <= |mem| && Headers(mem) && ValidRun(Begin(c, mem), acts)
    ensures var s := Run(Begin(c, mem), acts);
            && |s.got| <= |s.ring.filled| && (forall k: nat | k < |s.got| :: s.ring.filled[k].addr.InPool?)
            && (RightBuffers(s) <==> |s.got| <= c.n)
  {
    BeginOk(c, mem);
    RunKeeps(Begin(c, mem), c.n, acts);
    RightIffFirstLap(Run(Begin(c, mem), acts), c.n);
  }

  predicate InDataArea(addr: DmaAddr) { addr.InPool? && addr.off == DATA_OFFSET }

  predicate InDataAreas(posted: seq<DmaAddr>) { forall j | 0 <= j < |posted| :: InDataArea(posted[j]) }

  lemma OffsetStep(s: Sys, a: Act)
    requires Enabled(s, a) && InDataAreas(s.ring.posted)
    ensures InDataAreas(Step(s, a).ring.posted)
  {
    if a.Drive? { assert s.ring.pc.PutTail? || Step(s, a).ring.posted == s.ring.posted; }
  }

  /** Every address in the ring is a data area, if the start adds the offset. */
  lemma {:induction false} OffsetKept(s: Sys, acts: seq<Act>)
    requires ValidRun(s, acts) && InDataAreas(s.ring.posted)
    ensures InDataAreas(Run(s, acts).ring.posted)
    decreases acts
  {
    if acts != [] {
      OffsetStep(s, acts[0]);
      OffsetKept(Step(s, acts[0]), acts[1..]);
    }
  }

  /** With the offset added, the same for the full address of the data area. */
  lemma RightAddressIffFirstLap(c: Config, mem: seq<Buf>, acts: seq<Act>)
    requires !c.repaired && c.off == DATA_OFFSET && 2 <= c.n <= |mem| && Headers(mem) && ValidRun(Begin(c, mem), acts)
    ensures var s := Run(Begin(c, mem), acts);
            && |s.got| <= |s.ring.filled|
            && ((forall k: nat | k < |s.got| :: s.ring.filled[k].addr == InPool(s.got[k].buf, DATA_OFFSET))
                <==> |s.got| <= c.n)
  {
    RightBufferIffFirstLap(c, mem, acts);
    BeginOk(c, mem);
    RunKeeps(Begin(c, mem), c.n, acts);
    OffsetKept(Begin(c, mem), acts);
    var s := Run(Begin(c, mem), acts);
    forall k: nat | k < |s.got|
      ensures s.ring.filled[k].addr == InPool(s.got[k].buf, DATA_OFFSET) <==> s.ring.filled[k].addr.buf == s.got[k].buf
    {
      assert InDataArea(s.ring.posted[k]);
    }
  }

  // -- such runs exist, for every ring size ------------------------------------------------------

  ghost predicate Reaches(s: Sys, s': Sys) { exists acts :: ValidRun(s, acts) && Run(s, acts) == s' }

  lemma {:induction false} RunSnoc(s: Sys, acts: seq<Act>, a: Act)
    requires ValidRun(s, acts) && Enabled(Run(s, acts), a)
    ensures ValidRun(s, acts + [a]) && Run(s, acts + [a]) == Step(Run(s, acts), a)
    decreases acts
  {
    if acts == [] {
      assert [a][1..] == [];
      assert ValidRun(Step(s, a), []) && Run(Step(s, a), []) == Step(s, a);
      assert acts + [a] == [a];
    } else {
      RunSnoc(Step(s, acts[0]), acts[1..], a);
      assert (acts + [a])[1..] == acts[1..] + [a];
    }
  }

  lemma ReachStep(s: Sys, s': Sys, a: Act)
    requires Reaches(s, s') && Enabled(s', a)
    ensures Reaches(s, Step(s', a))
  {
    var acts :| ValidRun(s, acts) && Run(s, acts) == s';
    RunSnoc(s, acts, a);
  }

  lemma ReachInv(s: Sys, s': Sys, n: nat)
    requires Reaches(s, s') && Inv(s, n)
    ensures Inv(s', n) && |s'.mem| == |s.mem| && s'.cfg == s.cfg
  {
    var acts :| ValidRun(s, acts) && Run(s, acts) == s';
    RunKeeps(s, n, acts);
  }

  lemma Advance(s0: Sys, s: Sys, a: Act) returns (t: Sys)
    requires Reaches(s0, s) && Enabled(s, a)
    ensures t == Step(s, a) && Reaches(s0, t)
  {
    t := Step(s, a);
    ReachStep(s0, s, a);
  }

  /** A write-back for a packet of one byte. */
  const WB: RxDesc := RxDesc(Raw(0), 3, 1)

  /** One packet arrives and the application polls. */
  lemma ArriveRound(s0: Sys, s: Sys) returns (t: Sys)
    requires Reaches(s0, s) && R.WellShaped(s.ring) && s.ring.pc.Idle? && s.ring.rdh == s.ring.rx != s.ring.rdt
    requires s.cfg.mtu >= 1
    ensures Reaches(s0, t) && R.WellShaped(t.ring) && t.ring.pc == R.Poll(s.ring.rx) && t.ring.desc[s.ring.rx] == WB
    ensures t == s.(ring := t.ring, mem := t.mem, overrun := t.overrun) && |t.mem| == |s.mem|
    ensures t.ring.taken == s.ring.taken && |t.ring.filled| == |s.ring.filled| + 1 && t.ring.shadow == s.ring.shadow
  {
    t := Advance(s0, s, NicStore(WB, [0], Buf(0, 0, 0, [])));
    assert t == s.(ring := R.Store(s.ring, WB, [0]), mem := t.mem, overrun := t.overrun);
    t := Advance(s0, t, Recv);
  }

  /** The driver finds it, up to the allocation. */
  lemma PollRound(s0: Sys, s: Sys) returns (t: Sys)
    requires Reaches(s0, s) && R.WellShaped(s.ring) && s.ring.pc.Poll? && s.ring.desc[s.ring.pc.i] == WB
    ensures Reaches(s0, t) && t == s.(ring := t.ring, mem := t.mem) && |t.mem| == |s.mem|
    ensures t.ring == s.ring.(pc := R.Refill(s.ring.pc.i, s.ring.shadow[s.ring.pc.i], 1))
  {
    var i := s.ring.pc.i;
    t := Advance(s0, s, Drive);
    assert t == s.(ring := s.ring.(pc := R.Copy(i)));
    t := Advance(s0, t, Drive);
    assert t == s.(ring := s.ring.(pc := R.SetSize(i, s.ring.shadow[i], 1)));
    t := Advance(s0, t, Drive);
  }

  lemma RefillRound(s0: Sys, s: Sys) returns (t: Sys)
    requires Reaches(s0, s) && R.WellShaped(s.ring) && s.ring.pc.Refill? && s.ring.pc.buf < |s.mem|
    requires s.free != [] && !s.cfg.repaired
    ensures Reaches(s0, t) && t.ring.pc.PutIndex? && t.ring.pc.buf == s.ring.pc.buf
    ensures t == s.(ring := t.ring, free := s.free[..|s.free| - 1]) && R.WellShaped(t.ring)
    ensures t.ring.taken == s.ring.taken && t.ring.filled == s.ring.filled
  {
    var i, buf, len := s.ring.pc.i, s.ring.pc.buf, s.ring.pc.len;
    var x := s.free[|s.free| - 1];
    t := Advance(s0, s, Drive);
    assert t == s.(ring := s.ring.(pc := R.PutAddr(i, buf, len, x)), free := s.free[..|s.free| - 1]);
    t := Advance(s0, t, Drive);
    assert t == s.(ring := s.ring.(pc := R.PutHdr(i, buf, len, x), desc := t.ring.desc), free := t.free);
    t := Advance(s0, t, Drive);
  }

  lemma ReturnRound(s0: Sys, s: Sys) returns (t: Sys)
    requires Reaches(s0, s) && R.WellShaped(s.ring) && s.ring.pc.PutIndex? && s.ring.pc.buf < |s.mem|
    ensures Reaches(s0, t) && t.ring.pc.Idle? && t.free == s.free && t.held == s.held + multiset{s.ring.pc.buf}
    ensures t.ring.taken == s.ring.taken + 1 && t.ring.filled == s.ring.filled && |t.mem| == |s.mem|
  {
    t := Advance(s0, s, Drive);
    assert t == s.(ring := t.ring) && t.ring.pc.PutTail?;
    t := Advance(s0, t, Drive);
  }

  lemma OneRound(s0: Sys, s: Sys) returns (t: Sys)
    requires Reaches(s0, s) && R.WellShaped(s.ring) && s.ring.pc.Idle? && s.ring.rdh == s.ring.rx != s.ring.rdt
    requires s.free != [] && !s.cfg.repaired && s.cfg.mtu >= 1 && s.ring.shadow[s.ring.rx] < |s.mem|
    ensures Reaches(s0, t) && t.ring.pc.Idle? && |t.free| == |s.free| - 1
    ensures t.held == s.held + multiset{s.ring.shadow[s.ring.rx]} && |t.mem| == |s.mem|
    ensures t.ring.taken == s.ring.taken + 1 && |t.ring.filled| == |s.ring.filled| + 1
  {
    t := ArriveRound(s0, s);
    t := PollRound(s0, t);
    t := RefillRound(s0, t);
    t := ReturnRound(s0, t);
  }

  lemma RoundFacts(s: Sys, n: nat)
    requires Inv(s, n) && s.ring.pc.Idle? && |s.ring.filled| == s.ring.taken
    ensures R.WellShaped(s.ring) && s.ring.rdh == s.ring.rx != s.ring.rdt && s.ring.shadow[s.ring.rx] < |s.mem|
    ensures s.ring.taken == 0 || s.ring.taken == n ==> s.ring.shadow[s.ring.rx] == |s.mem| - 1
  {
    SlotEqual(s.ring.taken, s.ring.taken + n - 1, n);
    SlotPeriod(0, n);
  }

  /** A packet whose buffer the application gives straight back. */
  lemma RoundAndFree(s0: Sys, s: Sys) returns (t: Sys)
    requires Reaches(s0, s) && R.WellShaped(s.ring) && s.ring.pc.Idle? && s.ring.rdh == s.ring.rx != s.ring.rdt
    requires s.free != [] && !s.cfg.repaired && s.cfg.mtu >= 1 && s.ring.shadow[s.ring.rx] < |s.mem|
    ensures Reaches(s0, t) && t.ring.pc.Idle? && |t.free| == |s.free| && t.held == s.held
    ensures t.ring.taken == s.ring.taken + 1 && |t.ring.filled| == |s.ring.filled| + 1
  {
    var b := s.ring.shadow[s.ring.rx];
    t := OneRound(s0, s);
    assert b in t.held;
    t := Advance(s0, t, Free(b));
    assert t.held == s.held;
  }

  /** k >= 1 packets in a row, of which the application keeps the first. */
  lemma {:induction false} Rounds(s0: Sys, n: nat, k: nat) returns (t: Sys)
    requires Inv(s0, n) && s0.ring.pc.Idle? && s0.ring.taken == |s0.ring.filled| == 0 && s0.held == multiset{}
    requires 1 <= k && |s0.free| >= 2 && s0.cfg.mtu >= 1
    ensures Reaches(s0, t) && Inv(t, n) && t.ring.pc.Idle? && |t.ring.filled| == t.ring.taken == k && t.cfg == s0.cfg
    ensures |t.free| == |s0.free| - 1 && |t.mem| == |s0.mem| && t.held == multiset{|s0.mem| - 1}
  {
    if k == 1 {
      assert ValidRun(s0, []) && Run(s0, []) == s0;
      RoundFacts(s0, n);
      t := OneRound(s0, s0);
    } else {
      t := Rounds(s0, n, k - 1);
      RoundFacts(t, n);
      t := RoundAndFree(s0, t);
    }
    ReachInv(s0, t, n);
  }

  ghost predicate HoldsTwice(s: Sys) { exists b: nat :: s.held[b] >= 2 }

  lemma TwiceFromN(c: Config, mem: seq<Buf>)
    requires !c.repaired && 2 <= c.n && |mem| >= c.n + 2 && c.mtu >= 1 && Headers(mem)
    ensures exists acts :: ValidRun(Begin(c, mem), acts) && HoldsTwice(Run(Begin(c, mem), acts))
  {
    var s0 := Begin(c, mem);
    BeginOk(c, mem);
    var t := Rounds(s0, c.n, c.n);
    RoundFacts(t, c.n);
    t := OneRound(s0, t);
    assert t.held[|mem| - 1] >= 2;
    var acts :| ValidRun(s0, acts) && Run(s0, acts) == t;
    assert HoldsTwice(Run(s0, acts));
  }

  /** For every ring size and offset: some run lets the application hold one buffer twice exactly if the pool has
      two buffers beside the ring. */
  lemma HandsOutABufferTwiceIff(c: Config, mem: seq<Buf>)
    requires !c.repaired && 2 <= c.n <= |mem| && c.mtu >= 1 && Headers(mem)
    ensures (exists acts :: ValidRun(Begin(c, mem), acts) && HoldsTwice(Run(Begin(c, mem), acts)))
            <==> |mem| >= c.n + 2
  {
    if |mem| >= c.n + 2 {
      TwiceFromN(c, mem);
    } else {
      forall acts | ValidRun(Begin(c, mem), acts) ensures !HoldsTwice(Run(Begin(c, mem), acts)) {
        BeginOk(c, mem);
        RunKeeps(Begin(c, mem), c.n, acts);
        SmallHeld(Run(Begin(c, mem), acts).held);
      }
    }
  }

  lemma SmallHeld(held: multiset<nat>)
    requires |held| <= 1
    ensures forall b: nat :: held[b] <= 1
  {
    forall b: nat ensures held[b] <= 1 {
      assert held == held[b := 0] + multiset{}[b := held[b]];
      assert |multiset{}[b := held[b]]| == held[b];
    }
  }
}
