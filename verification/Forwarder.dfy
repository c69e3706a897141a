/** ixy-fwd as a whole program: one pool, the receive ring of the first device, the transmit ring of the
    second (or the same) device, and the endless receive/transmit loop, with both NICs acting between
    any two loads and stores. The receive side is that of RxSystem, and both sides share its memory. */
module Forwarder {
  import opened Descriptors
  import opened Ownership
  import R = RxRing
  import Rx = RxSystem
  import T = TxRing

  /** The receive side's sizes and variants, the size of the transmit ring, and whether the loop frees a buffer
      that the transmit function did not take. The source does not. */
  datatype Setup = Setup(rx: Rx.Config, ntx: nat, freeing: bool)

  /** Where the loop is. `Has` holds the buffer that the receive function returned; the two dead states
      are the calls of error() in the receive function. */
  datatype App = LoopHead | Receiving | Has(buf: nat) | Sending | PoolEmpty | MultiSegment

  /** `lost` collects the buffers that were not taken and not freed. History: for each transmit call, whether it took
      the packet. */
  datatype Fwd = Fwd(freeing: bool, rx: Rx.Sys, tx: T.Ring, lost: seq<nat>, app: App, outcomes: seq<bool>)

  datatype Act =
    | Cpu                                        // the next call, load or store of the program
    | RxStore(wb: RxDesc, data: seq<nat>, junk: Rx.Buf)
    | TxFetch
    | TxWriteBack(j: nat, d: TxDesc)

  predicate Enabled(s: Fwd, a: Act) {
    match a
    case Cpu =>
      (match s.app
       case LoopHead => Rx.Enabled(s.rx, Rx.Recv)
       case Receiving => Rx.Enabled(s.rx, Rx.Drive)
       case Has(_) => s.tx.pc.Idle?
       case Sending => T.WellShaped(s.tx) && !s.tx.pc.Idle?
       case _ => false)
    case RxStore(wb, data, junk) => Rx.Enabled(s.rx, Rx.NicStore(wb, data, junk))
    case TxFetch => T.CanFetch(s.tx)
    case TxWriteBack(j, d) => T.CanWriteBack(s.tx, j, d)
  }

  function Step(s: Fwd, a: Act): (s': Fwd)
    requires Enabled(s, a)
    ensures s'.freeing == s.freeing && s'.rx.cfg == s.rx.cfg && |s'.rx.mem| == |s.rx.mem|
  {
    match a
    case Cpu =>
      (match s.app
       case LoopHead => s.(rx := Rx.Step(s.rx, Rx.Recv), app := Receiving)
       case Receiving =>
         s.(rx := Rx.Step(s.rx, Rx.Drive),
            app := Received(s.rx.ring.pc, R.Driver(s.rx.ring, s.rx.cfg.repaired, R.Top(s.rx.free)).1))
       case Has(b) => s.(tx := T.Call(s.tx, b, Contents(s.rx.mem, b)), app := Sending)
       case Sending => Sent(s.(tx := T.Driver(s.tx).0), T.Driver(s.tx).1)
       case _ => s)
    case RxStore(wb, data, junk) => s.(rx := Rx.Step(s.rx, Rx.NicStore(wb, data, junk)))
    case TxFetch => s.(tx := T.Fetch(s.tx))
    case TxWriteBack(j, d) => s.(tx := T.WriteBack(s.tx, j, d))
  }

  function Received(pc: R.Pc, e: R.Effect): App {
    match e
    case NoPacket => LoopHead
    case Returned(b, _) => Has(b)
    case Failed => if pc.Refill? then PoolEmpty else MultiSegment
    case _ => Receiving
  }

  function Sent(s: Fwd, e: T.Effect): (s': Fwd)
    ensures s'.freeing == s.freeing && s'.rx.cfg == s.rx.cfg && s'.rx.mem == s.rx.mem && s'.tx == s.tx
  {
    match e
    case Freed(b) => s.(rx := Release(s.rx, b))
    case Rejected(b) =>
      if s.freeing then s.(rx := Release(s.rx, b), app := LoopHead, outcomes := s.outcomes + [false])
      else s.(lost := s.lost + [b], app := LoopHead, outcomes := s.outcomes + [false])
    case Accepted(_) => s.(app := LoopHead, outcomes := s.outcomes + [true])
    case Quiet => s
  }

  /** pkt_buf_free pushes the index in the header of the buffer. */
  function Release(rx: Rx.Sys, b: nat): Rx.Sys {
    rx.(free := rx.free + [if b < |rx.mem| then rx.mem[b].idx else b], held := rx.held - multiset{b})
  }

  /** What the transmit function is handed. */
  function Contents(mem: seq<Rx.Buf>, b: nat): T.Pkt {
    if b < |mem| then T.Pkt(mem[b].size, mem[b].data) else T.Pkt(0, [])
  }

  predicate ValidRun(s: Fwd, acts: seq<Act>)
    decreases acts
  {
    acts == [] || (Enabled(s, acts[0]) && ValidRun(Step(s, acts[0]), acts[1..]))
  }

  function Run(s: Fwd, acts: seq<Act>): Fwd
    requires ValidRun(s, acts)
    decreases acts
  {
    if acts == [] then s else Run(Step(s, acts[0]), acts[1..])
  }

  predicate Sized(c: Setup, N: nat) { 2 <= c.rx.n <= N && 2 <= c.ntx }

  /** After ixgbe_init: the receive ring holds the first buffers of the pool. */
  function Begin(c: Setup, mem: seq<Rx.Buf>): Fwd
    requires Sized(c, |mem|)
  {
    Fwd(c.freeing, Rx.Begin(c.rx, mem), T.Start(c.ntx), [], LoopHead, [])
  }

  // -- counting: every variant of the driver and of the loop -------------------------------------

  function One(b: bool): nat { if b then 1 else 0 }

  ghost predicate Control(s: Fwd) {
    && R.Inv(s.rx.ring) && T.Inv(s.tx)
    && (s.rx.ring.pc.Idle? <==> s.app.LoopHead? || s.app.Has? || s.app.Sending?)
    && (s.rx.ring.pc.Aborted? <==> s.app.PoolEmpty? || s.app.MultiSegment?)
    && (s.tx.pc.Idle? <==> !s.app.Sending?)
  }

  /** Buffers accounted for: free, one per receive slot, in flight, and lost. */
  ghost function Count(s: Fwd): nat
    requires s.tx.cleaned <= |s.tx.posted|
  {
    |s.rx.free| + s.rx.ring.n + One(R.Borrowed(s.rx.ring.pc)) + One(s.app.Has?) + |T.Queue(s.tx)| + |s.lost|
  }

  /** A full transmit ring and a full receive ring leave this many buffers to lose. */
  function Spare(nrx: nat, ntx: nat, N: nat): nat { if N >= nrx + ntx - 1 then N - nrx - (ntx - 1) else 0 }

  /** No more buffers are lost than that, none at all by a loop that frees, and an empty pool means that this many are
      gone. */
  ghost predicate LossesExplained(s: Fwd, N: nat)
    requires s.tx.n >= 1
  {
    var spare := Spare(s.rx.ring.n, s.tx.n, N);
    && |s.lost| <= spare
    && (s.freeing ==> s.lost == [])
    && (s.app.PoolEmpty? ==> |s.lost| == spare && s.rx.ring.n + (s.tx.n - 1) + |s.lost| >= N)
  }

  ghost predicate Inv(s: Fwd, N: nat) { Control(s) && Count(s) == N && LossesExplained(s, N) }

  lemma DriveCounts(s: Rx.Sys)
    requires Rx.Enabled(s, Rx.Drive)
    ensures var s' := Rx.Step(s, Rx.Drive);
            var (ring, e) := R.Driver(s.ring, s.cfg.repaired, R.Top(s.free));
            && s'.ring == ring
            && |s'.free| + One(R.Borrowed(ring.pc)) + One(Received(s.ring.pc, e).Has?)
               == |s.free| + One(R.Borrowed(s.ring.pc))
  {
    R.ControlFlow(s.ring, s.cfg.repaired, R.Top(s.free));
  }

  lemma ReceivingKeeps(s: Fwd, N: nat)
    requires Inv(s, N) && s.app.Receiving? && Enabled(s, Cpu)
    ensures Inv(Step(s, Cpu), N)
  {
    R.DriverKeeps(s.rx.ring, s.rx.cfg.repaired, R.Top(s.rx.free));
    R.ControlFlow(s.rx.ring, s.rx.cfg.repaired, R.Top(s.rx.free));
    DriveCounts(s.rx);
  }

  lemma SentCounts(s: Fwd, tx: T.Ring, e: T.Effect, N: nat)
    requires s.app.Sending? && s.tx.cleaned <= |s.tx.posted| && tx.cleaned <= |tx.posted| && tx.n == s.tx.n >= 2
    requires T.FifoStep(T.Queue(s.tx), e, T.Queue(tx)) && (e.Rejected? ==> |T.Queue(s.tx)| == s.tx.n)
    requires Count(s) == N && LossesExplained(s, N)
    ensures Count(Sent(s.(tx := tx), e)) == N && LossesExplained(Sent(s.(tx := tx), e), N)
  {
  }

  lemma SendingKeeps(s: Fwd, N: nat)
    requires Inv(s, N) && s.app.Sending? && Enabled(s, Cpu)
    ensures Inv(Step(s, Cpu), N)
  {
    T.DriverKeeps(s.tx);
    T.ControlFlow(s.tx);
    SentCounts(s, T.Driver(s.tx).0, T.Driver(s.tx).1, N);
  }

  lemma CpuKeeps(s: Fwd, N: nat)
    requires Inv(s, N) && Enabled(s, Cpu)
    ensures Inv(Step(s, Cpu), N)
  {
    match s.app {
      case LoopHead => R.CallKeeps(s.rx.ring);
      case Receiving => ReceivingKeeps(s, N);
      case Has(b) => T.CallKeeps(s.tx, b, Contents(s.rx.mem, b));
      case Sending => SendingKeeps(s, N);
    }
  }

  lemma StepKeeps(s: Fwd, N: nat, a: Act)
    requires Inv(s, N) && Enabled(s, a)
    ensures Inv(Step(s, a), N)
  {
    match a
    case Cpu => CpuKeeps(s, N);
    case RxStore(wb, data, _) => R.StoreKeeps(s.rx.ring, wb, data);
    case TxFetch => T.FetchKeeps(s.tx);
    case TxWriteBack(j, d) => T.WriteBackKeeps(s.tx, j, d);
  }

  lemma {:induction false} RunKeeps(s: Fwd, N: nat, acts: seq<Act>)
    requires Inv(s, N) && ValidRun(s, acts)
    ensures Inv(Run(s, acts), N) && SameSizes(s, Run(s, acts))
    decreases acts
  {
    if acts != [] {
      StepKeeps(s, N, acts[0]);
      StepKeepsSizes(s, acts[0]);
      RunKeeps(Step(s, acts[0]), N, acts[1..]);
    }
  }

  predicate SameSizes(s: Fwd, s': Fwd) {
    && s'.rx.ring.n == s.rx.ring.n && s'.tx.n == s.tx.n && s'.freeing == s.freeing
    && s'.rx.cfg == s.rx.cfg && |s'.rx.mem| == |s.rx.mem|
  }

  lemma StepKeepsSizes(s: Fwd, a: Act)
    requires Enabled(s, a)
    ensures SameSizes(s, Step(s, a))
  {
    if a.Cpu? && s.app.Receiving? {
      R.ControlFlow(s.rx.ring, s.rx.cfg.repaired, R.Top(s.rx.free));
    } else if a.Cpu? && s.app.Sending? {
      assert T.Driver(s.tx).0.n == s.tx.n;
    } else {
      assert Step(s, a).tx.n == s.tx.n && Step(s, a).rx.ring.n == s.rx.ring.n;
    }
  }

  lemma BeginOk(c: Setup, mem: seq<Rx.Buf>)
    requires Sized(c, |mem|)
    ensures Inv(Begin(c, mem), |mem|)
  {
    R.StartOk(FirstOut(|mem|, c.rx.n), c.rx.off);
    T.StartOk(c.ntx);
  }

  /** In every run of every variant, at every loop head: free + receive slots + in flight + lost is the pool size.
      When the program dies on an empty pool, it has lost exactly the buffers that the two full rings spare. */
  lemma ForwarderConserves(c: Setup, mem: seq<Rx.Buf>, acts: seq<Act>)
    requires Sized(c, |mem|) && ValidRun(Begin(c, mem), acts)
    ensures var s, spare := Run(Begin(c, mem), acts), Spare(c.rx.n, c.ntx, |mem|);
            && s.tx.cleaned <= |s.tx.posted|
            && (s.app.LoopHead? ==> |s.rx.free| + c.rx.n + |T.Queue(s.tx)| + |s.lost| == |mem|
                                    && |T.Queue(s.tx)| <= c.ntx - 1)
            && |s.lost| <= spare
            && (c.freeing ==> s.lost == [])
            && (s.app.PoolEmpty? ==> |s.lost| == spare)
  {
    BeginOk(c, mem);
    RunKeeps(Begin(c, mem), |mem|, acts);
  }
}
