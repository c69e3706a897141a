/** What the forwarder does to packets with the receive function as written: when packets come back in the wrong
    buffer, for every start offset and for a loop that drops or frees. */
module ForwarderAsWritten {
  import opened Descriptors
  import opened Ownership
  import opened Forwarder
  import opened ForwarderRuns
  import D = ForwarderData
  import R = RxRing
  import Rx = RxSystem
  import T = TxRing
  import W = RxAsWritten

  // -- the receive side of the forwarder is a run of the receive system --------------------------

  ghost predicate HeldInPool(s: Rx.Sys) { forall b | b in s.held :: b < |s.mem| }

  /** With a pool of n + 1 buffers or fewer, a buffer that has been handed out never comes back. */
  ghost predicate Scarce(s: Fwd, N: nat) {
    N <= s.rx.ring.n + 1 ==> s.rx.ring.taken + |s.rx.free| + One(R.Borrowed(s.rx.ring.pc)) <= N - s.rx.ring.n
  }

  ghost predicate Tracked(s: Fwd, n: nat) {
    Inv(s, |s.rx.mem|) && W.Inv(s.rx, n) && D.Linked(s) && HeldInPool(s.rx) && Scarce(s, |s.rx.mem|)
  }

  lemma DriveTakes(s: Rx.Sys, n: nat)
    requires W.Inv(s, n) && Rx.Enabled(s, Rx.Drive)
    ensures var s', e := Rx.Step(s, Rx.Drive), R.Driver(s.ring, s.cfg.repaired, R.Top(s.free)).1;
            if e.Returned? then e.buf < |s.mem| && s'.held == s.held + multiset{e.buf} else s'.held == s.held
  {
    Rx.EffectOperands(s);
  }

  lemma DriveCountsTaken(s: Rx.Sys)
    requires Rx.Enabled(s, Rx.Drive)
    ensures var s' := Rx.Step(s, Rx.Drive);
            s'.ring.taken + |s'.free| + One(R.Borrowed(s'.ring.pc))
              == s.ring.taken + |s.free| + One(R.Borrowed(s.ring.pc))
  {
    R.ControlFlow(s.ring, s.cfg.repaired, R.Top(s.free));
  }

  lemma ReceivedIsLinked(s: Fwd)
    requires D.Linked(s) && HeldInPool(s.rx) && s.app.Receiving? && Enabled(s, Cpu) && W.Inv(s.rx, s.rx.ring.n)
    ensures D.Linked(Step(s, Cpu)) && HeldInPool(Step(s, Cpu).rx)
  {
    DriveTakes(s.rx, s.rx.ring.n);
    D.ReceivingStep(s);
    var e := R.Driver(s.rx.ring, s.rx.cfg.repaired, R.Top(s.rx.free)).1;
    if e.Returned? { BagPickUp(s.rx.held, T.Queue(s.tx), s.lost, e.buf); }
  }

  lemma ReceivingTracks(s: Fwd, n: nat)
    requires Tracked(s, n) && s.app.Receiving? && Enabled(s, Cpu)
    ensures Tracked(Step(s, Cpu), n)
  {
    StepKeeps(s, |s.rx.mem|, Cpu);
    W.StepKeeps(s.rx, n, Rx.Drive);
    ReceivedIsLinked(s);
    DriveCountsTaken(s.rx);
    D.ReceivingStep(s);
  }

  lemma HandOverTracks(s: Fwd, n: nat)
    requires Tracked(s, n) && s.app.Has? && Enabled(s, Cpu)
    ensures Tracked(Step(s, Cpu), n)
  {
    StepKeeps(s, |s.rx.mem|, Cpu);
    T.CallKeeps(s.tx, s.app.buf, Contents(s.rx.mem, s.app.buf));
    D.HandOverIsLinked(s, Step(s, Cpu).tx);
    assert Step(s, Cpu).rx == s.rx;
  }

  lemma ReleaseTracks(rx: Rx.Sys, n: nat, b: nat)
    requires W.Inv(rx, n) && HeldInPool(rx) && rx.ring.pc.Idle? && b in rx.held
    ensures W.Inv(Release(rx, b), n) && HeldInPool(Release(rx, b))
  {
    W.StepKeeps(rx, n, Rx.Free(b));
    assert Release(rx, b) == Rx.Step(rx, Rx.Free(b));
  }

  /** A buffer goes back to the pool only while another packet is in flight. */
  lemma GivesBackTwo(s: Fwd)
    requires Control(s) && s.app.Sending?
    ensures T.Driver(s.tx).1.Freed? || T.Driver(s.tx).1.Rejected? ==> |T.Queue(s.tx)| >= 2
  {
    T.ControlFlow(s.tx);
  }

  lemma SendingTracks(s: Fwd, n: nat)
    requires Tracked(s, n) && s.app.Sending? && Enabled(s, Cpu)
    ensures Tracked(Step(s, Cpu), n)
  {
    var (tx, e) := T.Driver(s.tx);
    StepKeeps(s, |s.rx.mem|, Cpu);
    T.DriverKeeps(s.tx);
    D.SentIsLinked(s, tx, e);
    GivesBackTwo(s);
    if e.Freed? || e.Rejected? { ReleaseTracks(s.rx, n, e.buf); }
  }

  lemma NicTracks(s: Fwd, n: nat, a: Act)
    requires Tracked(s, n) && Enabled(s, a) && (a.TxFetch? || a.TxWriteBack?)
    ensures Tracked(Step(s, a), n)
  {
    StepKeeps(s, |s.rx.mem|, a);
    assert T.Queue(Step(s, a).tx) == T.Queue(s.tx) && Step(s, a).rx == s.rx;
  }

  lemma CallTracks(s: Fwd, n: nat)
    requires Tracked(s, n) && s.app.LoopHead? && Enabled(s, Cpu)
    ensures Tracked(Step(s, Cpu), n)
  {
    StepKeeps(s, |s.rx.mem|, Cpu);
    W.StepKeeps(s.rx, n, Rx.Recv);
  }

  lemma StoreTracks(s: Fwd, n: nat, a: Act)
    requires Tracked(s, n) && Enabled(s, a) && a.RxStore?
    ensures Tracked(Step(s, a), n)
  {
    StepKeeps(s, |s.rx.mem|, a);
    W.StepKeeps(s.rx, n, Rx.NicStore(a.wb, a.data, a.junk));
  }

  lemma StepTracks(s: Fwd, n: nat, a: Act)
    requires Tracked(s, n) && Enabled(s, a)
    ensures Tracked(Step(s, a), n)
  {
    match a
    case RxStore(_, _, _) => StoreTracks(s, n, a);
    case TxFetch => NicTracks(s, n, a);
    case TxWriteBack(_, _) => NicTracks(s, n, a);
    case Cpu =>
      match s.app {
        case LoopHead => CallTracks(s, n);
        case Receiving => ReceivingTracks(s, n);
        case Has(_) => HandOverTracks(s, n);
        case Sending => SendingTracks(s, n);
      }
  }

  lemma {:induction false} RunTracks(s: Fwd, n: nat, acts: seq<Act>)
    requires Tracked(s, n) && ValidRun(s, acts)
    ensures Tracked(Run(s, acts), n) && SameSizes(s, Run(s, acts))
    decreases acts
  {
    if acts != [] {
      StepTracks(s, n, acts[0]);
      StepKeepsSizes(s, acts[0]);
      RunTracks(Step(s, acts[0]), n, acts[1..]);
    }
  }

  lemma BeginTracked(c: Setup, mem: seq<Rx.Buf>)
    requires Sized(c, |mem|) && !c.rx.repaired && Rx.Headers(mem)
    ensures Tracked(Begin(c, mem), c.rx.n)
  {
    BeginOk(c, mem);
    W.BeginOk(c.rx, mem);
    T.StartOk(c.ntx);
  }

  // -- the exact condition -----------------------------------------------------------------------

  ghost predicate WrongRun(s: Fwd, acts: seq<Act>) { ValidRun(s, acts) && !W.RightBuffers(Run(s, acts).rx) }

  lemma SomeRunIsWrong(c: Setup, mem: seq<Rx.Buf>)
    requires Sized(c, |mem|) && !c.rx.repaired && c.rx.mtu >= 1 && Rx.Headers(mem) && |mem| >= c.rx.n + 2
    ensures exists acts :: WrongRun(Begin(c, mem), acts)
  {
    var s0 := Begin(c, mem);
    BeginOk(c, mem);
    BeginTracked(c, mem);
    assert ValidRun(s0, []) && Run(s0, []) == s0;
    // one packet after the other, each sent before the next arrives
    var t := PassOne(s0, s0, |mem|);
    t := SwapMany(s0, t, |mem|, c.rx.n);
    var acts :| ValidRun(s0, acts) && Run(s0, acts) == t;
    RunTracks(s0, c.rx.n, acts);
    W.RightIffFirstLap(t.rx, c.rx.n);
    assert WrongRun(s0, acts);
  }

  /** With the receive function as written, a run is right exactly if it receives at most nrx packets, and some run is
      wrong exactly if the pool has two buffers beside the receive ring. */
  lemma WrongIff(c: Setup, mem: seq<Rx.Buf>)
    requires Sized(c, |mem|) && !c.rx.repaired && c.rx.mtu >= 1 && Rx.Headers(mem)
    ensures forall acts | ValidRun(Begin(c, mem), acts) ::
              WrongRun(Begin(c, mem), acts) <==> |Run(Begin(c, mem), acts).rx.got| > c.rx.n
    ensures (exists acts :: WrongRun(Begin(c, mem), acts)) <==> |mem| >= c.rx.n + 2
  {
    if |mem| >= c.rx.n + 2 { SomeRunIsWrong(c, mem); }
    forall acts | ValidRun(Begin(c, mem), acts)
      ensures WrongRun(Begin(c, mem), acts) <==> |Run(Begin(c, mem), acts).rx.got| > c.rx.n
      ensures |mem| < c.rx.n + 2 ==> !WrongRun(Begin(c, mem), acts)
    {
      BeginTracked(c, mem);
      RunTracks(Begin(c, mem), c.rx.n, acts);
      W.RightIffFirstLap(Run(Begin(c, mem), acts).rx, c.rx.n);
    }
  }

  lemma RepairedIsRight(c: Setup, mem: seq<Rx.Buf>, acts: seq<Act>)
    requires Sized(c, |mem|) && D.AsIntended(c) && Rx.Headers(mem) && ValidRun(Begin(c, mem), acts)
    ensures !WrongRun(Begin(c, mem), acts)
  {
    D.ForwardsWhatItReceives(c, mem, acts);
    var s := Run(Begin(c, mem), acts).rx;
    forall k: nat | k < |s.got| ensures s.ring.filled[k].addr.InPool? && s.ring.filled[k].addr.buf == s.got[k].buf {
      assert Rx.Delivers(s, k);
    }
  }

  /** If the start adds the data offset and packets fit: every run of the forwarder receives every packet in the buffer
      it was stored in exactly if the shadow store is there, or the pool has fewer than two buffers beside the ring. */
  lemma RightIff(c: Setup, mem: seq<Rx.Buf>)
    requires Sized(c, |mem|) && Rx.Headers(mem) && c.rx.off == DATA_OFFSET && 1 <= c.rx.mtu <= c.rx.cap
    ensures (forall acts | ValidRun(Begin(c, mem), acts) :: !WrongRun(Begin(c, mem), acts))
            <==> c.rx.repaired || |mem| < c.rx.n + 2
  {
    if c.rx.repaired {
      forall acts | ValidRun(Begin(c, mem), acts) ensures !WrongRun(Begin(c, mem), acts) {
        RepairedIsRight(c, mem, acts);
      }
    } else {
      WrongIff(c, mem);
    }
  }
}
