/** The transmit ring, the packet pool behind it and an application, over whole runs. */
module TxSystem {
  import opened Descriptors
  import opened Ownership
  import T = TxRing

  /** `free` is the pool's stack with its top at the end, `held` what the application holds, and
      `mem` the contents of every buffer of the pool. */
  datatype Sys = Sys(ring: T.Ring, free: seq<nat>, held: multiset<nat>, mem: seq<T.Pkt>)

  datatype Act =
    | Alloc                              // pkt_buf_alloc
    | Free(b: nat)                       // pkt_buf_free
    | Write(b: nat, pkt: T.Pkt)          // the application changes a buffer it holds
    | Send(b: nat)                       // it calls ixgbe_tx_packet
    | Drive                              // the next load or store of that call
    | NicFetch
    | NicWriteBack(j: nat, d: TxDesc)

  /** The application is the driver's caller: it acts only between calls, and only on its own buffers. */
  predicate Enabled(s: Sys, a: Act) {
    match a
    case Alloc => s.ring.pc.Idle? && |s.free| > 0
    case Free(b) => s.ring.pc.Idle? && b in s.held
    case Write(b, _) => s.ring.pc.Idle? && b in s.held && b < |s.mem|
    case Send(b) => s.ring.pc.Idle? && b in s.held && b < |s.mem|
    case Drive => T.WellShaped(s.ring) && !s.ring.pc.Idle?
    case NicFetch => T.CanFetch(s.ring)
    case NicWriteBack(j, d) => T.CanWriteBack(s.ring, j, d)
  }

  function Step(s: Sys, a: Act): (s': Sys)
    requires Enabled(s, a)
    ensures |s'.mem| == |s.mem|
  {
    match a
    case Alloc =>
      s.(free := s.free[..|s.free| - 1], held := s.held + multiset{s.free[|s.free| - 1]})
    case Free(b) => s.(free := s.free + [b], held := s.held - multiset{b})
    case Write(b, pkt) => s.(mem := s.mem[b := pkt])
    case Send(b) => s.(ring := T.Call(s.ring, b, s.mem[b]), held := s.held - multiset{b})
    case Drive => Absorb(s.(ring := T.Driver(s.ring).0), T.Driver(s.ring).1)
    case NicFetch => s.(ring := T.Fetch(s.ring))
    case NicWriteBack(j, d) => s.(ring := T.WriteBack(s.ring, j, d))
  }

  /** A freed buffer goes on the stack of its pool, a rejected one back to the caller. */
  function Absorb(s: Sys, e: T.Effect): Sys {
    match e
    case Freed(b) => s.(free := s.free + [b])
    case Rejected(b) => s.(held := s.held + multiset{b})
    case _ => s
  }

  predicate ValidRun(s: Sys, acts: seq<Act>)
    decreases acts
  {
    acts == [] || (Enabled(s, acts[0]) && ValidRun(Step(s, acts[0]), acts[1..]))
  }

  function Run(s: Sys, acts: seq<Act>): Sys
    requires ValidRun(s, acts)
    decreases acts
  {
    if acts == [] then s else Run(Step(s, acts[0]), acts[1..])
  }

  // -- invariant ---------------------------------------------------------------------------------

  ghost function Total(s: Sys): multiset<nat>
    requires s.ring.cleaned <= |s.ring.posted|
  {
    multiset(s.free) + s.held + multiset(T.Queue(s.ring))
  }

  /** What the NIC may still read is what the caller handed over. */
  ghost predicate Intact(s: Sys) {
    && (forall j | s.ring.cleaned <= j < |s.ring.posted| ::
          s.ring.posted[j].buf < |s.mem| && s.mem[s.ring.posted[j].buf] == s.ring.posted[j].pkt)
    && (!s.ring.pc.Idle? ==> s.ring.pc.buf < |s.mem| && s.mem[s.ring.pc.buf] == s.ring.pc.pkt)
  }

  ghost predicate Inv(s: Sys) {
    && T.Inv(s.ring) && T.Encoded(s.ring)
    && Partitioned(s)
    && Intact(s)
  }

  /** Free, held and queued buffers partition the pool. */
  ghost predicate Partitioned(s: Sys) {
    s.ring.cleaned <= |s.ring.posted| && Total(s) == Universe(|s.mem|)
  }

  lemma AbsorbConserves(s: Sys, q: seq<nat>, e: T.Effect, q': seq<nat>)
    requires T.FifoStep(q, e, q')
    ensures multiset(Absorb(s, e).free) + Absorb(s, e).held + multiset(q') == multiset(s.free) + s.held + multiset(q)
  {
  }

  lemma DriveConserves(s: Sys)
    requires T.Inv(s.ring) && !s.ring.pc.Idle?
    ensures T.Inv(Step(s, Drive).ring)
    ensures Total(Step(s, Drive)) == Total(s)
  {
    T.DriverKeeps(s.ring);
    AbsorbConserves(s, T.Queue(s.ring), T.Driver(s.ring).1, T.Queue(T.Driver(s.ring).0));
  }

  lemma AllocConserves(free: seq<nat>, held: multiset<nat>, q: multiset<nat>)
    requires |free| > 0
    ensures multiset(free[..|free| - 1]) + (held + multiset{free[|free| - 1]}) + q == multiset(free) + held + q
  {
    Popped(free);
  }

  lemma FreeConserves(free: seq<nat>, held: multiset<nat>, q: multiset<nat>, b: nat)
    requires b in held
    ensures multiset(free + [b]) + (held - multiset{b}) + q == multiset(free) + held + q
  {
  }

  lemma SendConserves(free: multiset<nat>, held: multiset<nat>, q: seq<nat>, b: nat)
    requires b in held
    ensures free + (held - multiset{b}) + multiset(q + [b]) == free + held + multiset(q)
  {
  }

  lemma StepConserves(s: Sys, a: Act)
    requires T.Inv(s.ring) && Enabled(s, a)
    ensures T.Inv(Step(s, a).ring)
    ensures Total(Step(s, a)) == Total(s)
  {
    var q := T.Queue(s.ring);
    match a
    case Alloc => AllocConserves(s.free, s.held, multiset(q));
    case Free(b) => FreeConserves(s.free, s.held, multiset(q), b);
    case Write(_, _) =>
    case Send(b) =>
      T.CallKeeps(s.ring, b, s.mem[b]);
      SendConserves(multiset(s.free), s.held, q, b);
    case Drive => DriveConserves(s);
    case NicFetch => T.FetchKeeps(s.ring);
    case NicWriteBack(j, d) => T.WriteBackKeeps(s.ring, j, d);
  }

  lemma StepKeepsEncoded(s: Sys, a: Act)
    requires T.Inv(s.ring) && T.Encoded(s.ring) && Enabled(s, a)
    ensures T.WellShaped(Step(s, a).ring) && T.Encoded(Step(s, a).ring)
  {
    match a
    case Drive => T.DriverEncodes(s.ring);
    case NicWriteBack(j, d) => T.WriteBackEncodes(s.ring, j, d);
    case _ =>
  }

  /** A buffer in the queue is neither held nor free, and is in the queue once. */
  lemma QueuedIsNotHeld(s: Sys, x: nat)
    requires Partitioned(s) && x in T.Queue(s.ring)
    ensures x < |s.mem| && x !in s.held && x !in s.free && multiset(T.Queue(s.ring))[x] == 1
  {
    var q, rest := multiset(T.Queue(s.ring)), multiset(s.free) + s.held;
    assert q + rest == Total(s);
    Exclusive(|s.mem|, q, rest, x);
    assert x !in multiset(s.free);
  }

  lemma InQueue(r: T.Ring, j: nat)
    requires r.cleaned <= j < |r.posted|
    ensures r.posted[j].buf == T.Queue(r)[j - r.cleaned]
    ensures r.posted[j].buf in T.Queue(r)
  {
  }

  lemma WriteKeepsIntact(s: Sys, b: nat, pkt: T.Pkt)
    requires Partitioned(s) && Intact(s) && Enabled(s, Write(b, pkt))
    ensures Intact(Step(s, Write(b, pkt)))
  {
    forall j | s.ring.cleaned <= j < |s.ring.posted| ensures s.ring.posted[j].buf != b {
      InQueue(s.ring, j);
      QueuedIsNotHeld(s, s.ring.posted[j].buf);
    }
  }

  lemma DriveKeepsIntact(s: Sys)
    requires Intact(s) && Enabled(s, Drive)
    ensures Intact(Step(s, Drive))
  {
    var r, r' := s.ring, Step(s, Drive).ring;
    assert r'.cleaned >= r.cleaned;
    assert r'.posted == r.posted || r'.posted == r.posted + [T.Posting(r.pc.buf, r.pc.pkt, r.desc[r.pc.cur])];
  }

  lemma StepKeepsIntact(s: Sys, a: Act)
    requires Partitioned(s) && Intact(s) && Enabled(s, a)
    ensures Intact(Step(s, a))
  {
    if a.Write? {
      WriteKeepsIntact(s, a.b, a.pkt);
    } else if a.Drive? {
      DriveKeepsIntact(s);
    } else {
      assert Step(s, a).ring.posted == s.ring.posted && Step(s, a).mem == s.mem;
    }
  }

  lemma StepKeeps(s: Sys, a: Act)
    requires Inv(s) && Enabled(s, a)
    ensures Inv(Step(s, a))
  {
    StepConserves(s, a);
    StepKeepsEncoded(s, a);
    StepKeepsIntact(s, a);
  }

  lemma {:induction false} RunKeeps(s: Sys, acts: seq<Act>)
    requires Inv(s) && ValidRun(s, acts)
    ensures Inv(Run(s, acts)) && |Run(s, acts).mem| == |s.mem|
    decreases acts
  {
    if acts != [] {
      StepKeeps(s, acts[0]);
      RunKeeps(Step(s, acts[0]), acts[1..]);
    }
  }

  // -- what a run never does ---------------------------------------------------------------------

  /** A full pool, in any order, an empty ring, and nothing handed out. */
  function Begin(n: nat, mem: seq<T.Pkt>, free: seq<nat>): Sys { Sys(T.Start(n), free, multiset{}, mem) }

  ghost predicate FullPool(mem: seq<T.Pkt>, free: seq<nat>) { multiset(free) == Universe(|mem|) }

  lemma BeginOk(n: nat, mem: seq<T.Pkt>, free: seq<nat>)
    requires n >= 2 && FullPool(mem, free)
    ensures Inv(Begin(n, mem, free))
  {
    T.StartOk(n);
  }

  /** The NIC may read the buffer of packet j. */
  ghost predicate NicMayRead(r: T.Ring, j: nat) { j < |r.posted| && j !in r.written }

  /** While the NIC may read a packet's buffer, the buffer is not free, not held by anyone, not used
      for a second unfinished packet, and unchanged since it was handed over. */
  ghost predicate NicReadsOnlyItsOwn(s: Sys) {
    && (forall j: nat | NicMayRead(s.ring, j) ::
          var p := s.ring.posted[j];
          p.buf < |s.mem| && p.buf !in s.free && p.buf !in s.held && s.mem[p.buf] == p.pkt)
    && (forall i: nat, j: nat | i < j && NicMayRead(s.ring, i) && NicMayRead(s.ring, j) ::
          s.ring.posted[i].buf != s.ring.posted[j].buf)
  }

  /** The NIC has fetched a prefix of the accepted packets, in order, each described correctly; and
      only packets it has finished with were returned to the pool. */
  ghost predicate DeliversInOrder(r: T.Ring) {
    && |r.fetched| <= |r.posted|
    && (forall j | 0 <= j < |r.fetched| :: r.fetched[j] == TxEncode(r.posted[j].buf, r.posted[j].pkt.size))
    && (forall j | 0 <= j < r.cleaned :: j in r.written)
    && (forall j | j in r.written :: j < |r.fetched|)
  }

  lemma QueuedAreDistinct(s: Sys, i: nat, j: nat)
    requires Partitioned(s) && s.ring.cleaned <= i < j < |s.ring.posted|
    ensures s.ring.posted[i].buf != s.ring.posted[j].buf
  {
    var r := s.ring;
    InQueue(r, i);
    InQueue(r, j);
    QueuedIsNotHeld(s, r.posted[i].buf);
    OnePlace(T.Queue(r), i - r.cleaned, j - r.cleaned);
  }

  /** Over every interleaving of application, driver and NIC steps. */
  lemma TransmitSafety(n: nat, mem: seq<T.Pkt>, free: seq<nat>, acts: seq<Act>)
    requires n >= 2 && FullPool(mem, free) && ValidRun(Begin(n, mem, free), acts)
    ensures var s := Run(Begin(n, mem, free), acts);
            && Partitioned(s) && |s.mem| == |mem|
            && |s.free| + |s.held| + |T.Queue(s.ring)| == |mem|
            && NicReadsOnlyItsOwn(s)
            && DeliversInOrder(s.ring)
            && (s.ring.pc.Idle? ==> T.WellShaped(s.ring) && T.Window(s.ring) == T.Queue(s.ring))
  {
    BeginOk(n, mem, free);
    RunKeeps(Begin(n, mem, free), acts);
    var s := Run(Begin(n, mem, free), acts);
    UniverseCounts(|mem|);
    forall j: nat | NicMayRead(s.ring, j)
      ensures s.ring.posted[j].buf !in s.free && s.ring.posted[j].buf !in s.held
    {
      InQueue(s.ring, j);
      QueuedIsNotHeld(s, s.ring.posted[j].buf);
    }
    forall i: nat, j: nat | i < j && NicMayRead(s.ring, i) && NicMayRead(s.ring, j)
      ensures s.ring.posted[i].buf != s.ring.posted[j].buf
    {
      QueuedAreDistinct(s, i, j);
    }
    if s.ring.pc.Idle? { T.WindowIsQueue(s.ring); }
  }

  /** Whenever the cleaning loop, in any run, is about to act on a done bit, the NIC has written that bit back for the
      packet that currently occupies the slot: neither the 0xFF fill nor a bit of an earlier lap is ever acted on. */
  lemma CleaningActsOnFreshBits(n: nat, mem: seq<T.Pkt>, free: seq<nat>, acts: seq<Act>)
    requires n >= 2 && FullPool(mem, free) && ValidRun(Begin(n, mem, free), acts)
    ensures var r := Run(Begin(n, mem, free), acts).ring;
            T.WellShaped(r) && (r.pc.Scan? && r.pc.ci != r.pc.cur && TxDone(r.desc[r.pc.ci]) ==>
              && r.cleaned < |r.posted| && r.cleaned in r.written
              && r.shadow[r.pc.ci] == r.posted[r.cleaned].buf)
  {
    BeginOk(n, mem, free);
    RunKeeps(Begin(n, mem, free), acts);
    var r := Run(Begin(n, mem, free), acts).ring;
    if r.pc.Scan? && r.pc.ci != r.pc.cur && TxDone(r.desc[r.pc.ci]) {
      T.DoneIsFresh(r);
      assert T.SlotOk(r, r.cleaned);
    }
  }
}
