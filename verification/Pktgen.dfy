/** ixy-pktgen as a whole program: allocate, retry the transmit call until it takes the packet, repeat;
    with the NIC acting between any two loads and stores. */
module Pktgen {
  import opened Descriptors
  import opened Ownership
  import T = TxRing
  import S = TxSystem

  const PKT_SIZE: nat := 60

  /** The packet that init_mempool writes into every buffer. */
  function Template(): T.Pkt { T.Pkt(PKT_SIZE, seq(PKT_SIZE, _ => 0xFF)) }

  /** `Crashed` is the use of the NULL that pkt_buf_alloc returns for an empty pool. */
  datatype App = LoopHead | Holding(b: nat) | Sending(b: nat) | Crashed

  datatype Gen = Gen(sys: S.Sys, app: App)

  datatype Act = Cpu | NicFetch | NicWriteBack(j: nat, d: TxDesc)

  /** The action of the transmit system that a step of the program amounts to. */
  function SysAct(g: Gen, a: Act): S.Act {
    match a
    case NicFetch => S.NicFetch
    case NicWriteBack(j, d) => S.NicWriteBack(j, d)
    case Cpu => match g.app
                case LoopHead => S.Alloc
                case Holding(b) => S.Send(b)
                case _ => S.Drive
  }

  predicate Enabled(g: Gen, a: Act) {
    if a.Cpu? && g.app.Crashed? then false
    else if a.Cpu? && g.app.LoopHead? then g.sys.ring.pc.Idle?
    else S.Enabled(g.sys, SysAct(g, a))
  }

  function Step(g: Gen, a: Act): Gen
    requires Enabled(g, a)
  {
    if a.Cpu? && g.app.LoopHead? && g.sys.free == [] then g.(app := Crashed)
    else Gen(S.Step(g.sys, SysAct(g, a)), if a.Cpu? then NextApp(g) else g.app)
  }

  /** After an allocation comes the call; a call that returns 0 is repeated with the same buffer. */
  function NextApp(g: Gen): App
    requires Enabled(g, Cpu) && (g.app.LoopHead? ==> g.sys.free != [])
  {
    match g.app
    case LoopHead => Holding(g.sys.free[|g.sys.free| - 1])
    case Holding(b) => Sending(b)
    case Sending(b) =>
      (match T.Driver(g.sys.ring).1
       case Rejected(_) => Holding(b)
       case Accepted(_) => LoopHead
       case _ => Sending(b))
    case Crashed => Crashed
  }

  predicate ValidRun(g: Gen, acts: seq<Act>)
    decreases acts
  {
    acts == [] || (Enabled(g, acts[0]) && ValidRun(Step(g, acts[0]), acts[1..]))
  }

  function Run(g: Gen, acts: seq<Act>): Gen
    requires ValidRun(g, acts)
    decreases acts
  {
    if acts == [] then g else Run(Step(g, acts[0]), acts[1..])
  }

  /** After init_mempool: the template in every buffer, and the stack in reverse order. */
  function Begin(n: nat, N: nat): Gen {
    Gen(S.Begin(n, seq(N, _ => Template()), FirstOut(N, N)), LoopHead)
  }

  // -- invariant ---------------------------------------------------------------------------------

  ghost predicate Control(g: Gen) {
    match g.app
    case LoopHead => g.sys.held == multiset{} && g.sys.ring.pc.Idle?
    case Holding(b) => g.sys.held == multiset{b} && g.sys.ring.pc.Idle?
    case Sending(b) => g.sys.held == multiset{} && !g.sys.ring.pc.Idle? && g.sys.ring.pc.buf == b
    case Crashed => false
  }

  /** Every buffer and every packet ever sent is the template. */
  ghost predicate Templates(s: S.Sys) {
    && (forall b | 0 <= b < |s.mem| :: s.mem[b] == Template())
    && (forall j | 0 <= j < |s.ring.posted| :: s.ring.posted[j].pkt == Template())
    && (!s.ring.pc.Idle? ==> s.ring.pc.pkt == Template())
  }

  ghost predicate Inv(g: Gen, n: nat, N: nat) {
    S.Inv(g.sys) && |g.sys.mem| == N && g.sys.ring.n == n && Templates(g.sys) && Control(g)
  }

  /** With N >= n buffers, at least N - (n - 1) are free whenever the program holds none. */
  lemma FreeAtLoopHead(s: S.Sys)
    requires S.Inv(s) && s.ring.pc.Idle? && s.held == multiset{}
    ensures |s.free| >= |s.mem| - (s.ring.n - 1)
  {
    UniverseCounts(|s.mem|);
    T.WindowIsQueue(s.ring);
    assert |S.Total(s)| == |s.free| + |T.Queue(s.ring)|;
  }

  lemma StepKeepsTemplates(s: S.Sys, a: S.Act)
    requires Templates(s) && S.Enabled(s, a) && !a.Write?
    ensures Templates(S.Step(s, a)) && S.Step(s, a).ring.n == s.ring.n
  {
  }

  /** How the transmit call ends: it gives the buffer back, keeps it, or goes on. */
  lemma CallEnds(r: T.Ring)
    requires T.WellShaped(r) && !r.pc.Idle?
    ensures var (r', e) := T.Driver(r);
            && (e.Rejected? || e.Accepted? <==> r'.pc.Idle?)
            && (e.Rejected? ==> e.buf == r.pc.buf)
            && (!r'.pc.Idle? ==> r'.pc.buf == r.pc.buf)
  {
  }

  lemma CpuKeepsControl(g: Gen)
    requires Control(g) && Enabled(g, Cpu) && (g.app.LoopHead? ==> g.sys.free != [])
    ensures Control(Step(g, Cpu))
  {
    if g.app.Sending? { CallEnds(g.sys.ring); }
  }

  lemma NicKeepsControl(g: Gen, a: Act)
    requires Control(g) && Enabled(g, a) && !a.Cpu?
    ensures Control(Step(g, a))
  {
  }

  /** Every step but the one that crashes. */
  lemma StepKeeps(g: Gen, n: nat, N: nat, a: Act)
    requires Inv(g, n, N) && Enabled(g, a) && !Step(g, a).app.Crashed?
    ensures Inv(Step(g, a), n, N)
  {
    if a.Cpu? { CpuKeepsControl(g); } else { NicKeepsControl(g, a); }
    var act := SysAct(g, a);
    assert S.Enabled(g.sys, act) && Step(g, a).sys == S.Step(g.sys, act);
    S.StepKeeps(g.sys, act);
    StepKeepsTemplates(g.sys, act);
  }

  lemma {:induction false} RunKeeps(g: Gen, n: nat, N: nat, acts: seq<Act>)
    requires 2 <= n <= N && Inv(g, n, N) && ValidRun(g, acts)
    ensures Inv(Run(g, acts), n, N)
    decreases acts
  {
    if acts != [] {
      if g.app.LoopHead? { FreeAtLoopHead(g.sys); }
      StepKeeps(g, n, N, acts[0]);
      RunKeeps(Step(g, acts[0]), n, N, acts[1..]);
    }
  }

  lemma BeginOk(n: nat, N: nat)
    requires 2 <= n
    ensures Inv(Begin(n, N), n, N)
  {
    PoppedAndRest(N, N);
    S.BeginOk(n, seq(N, _ => Template()), FirstOut(N, N));
  }

  /** In every run, whatever the NIC does: the allocation never yields NULL, at least N - (n - 1) buffers
      are free at every loop head, and every descriptor given to the NIC says 60 bytes twice. */
  lemma GeneratorNeverStarves(n: nat, N: nat, acts: seq<Act>)
    requires 2 <= n <= N && ValidRun(Begin(n, N), acts)
    ensures var g := Run(Begin(n, N), acts);
            && !g.app.Crashed?
            && (g.app.LoopHead? ==> |g.sys.free| >= N - (n - 1))
            && (forall j | 0 <= j < |g.sys.ring.posted| :: TellsSize(g.sys.ring.posted[j].desc, PKT_SIZE))
            && (forall j | 0 <= j < |g.sys.ring.fetched| :: TellsSize(g.sys.ring.fetched[j], PKT_SIZE))
  {
    BeginOk(n, N);
    RunKeeps(Begin(n, N), n, N, acts);
    var g := Run(Begin(n, N), acts);
    if g.app.LoopHead? { FreeAtLoopHead(g.sys); }
    forall j | 0 <= j < |g.sys.ring.posted| ensures TellsSize(g.sys.ring.posted[j].desc, PKT_SIZE) {
      PostedLengthExact(g.sys.ring.posted[j].buf, PKT_SIZE);
    }
  }

  // -- pools that are too small ------------------------------------------------------------------

  ghost predicate Reaches(g: Gen, g': Gen) { exists acts :: ValidRun(g, acts) && Run(g, acts) == g' }

  lemma {:induction false} RunSnoc(g: Gen, acts: seq<Act>, a: Act)
    requires ValidRun(g, acts) && Enabled(Run(g, acts), a)
    ensures ValidRun(g, acts + [a]) && Run(g, acts + [a]) == Step(Run(g, acts), a)
    decreases acts
  {
    if acts == [] {
      assert [a][1..] == [];
      assert ValidRun(Step(g, a), []) && Run(Step(g, a), []) == Step(g, a);
      assert acts + [a] == [a];
    } else {
      RunSnoc(Step(g, acts[0]), acts[1..], a);
      assert (acts + [a])[1..] == acts[1..] + [a];
    }
  }

  lemma ReachStep(g: Gen, g': Gen, a: Act)
    requires Reaches(g, g') && Enabled(g', a)
    ensures Reaches(g, Step(g', a))
  {
    var acts :| ValidRun(g, acts) && Run(g, acts) == g';
    RunSnoc(g, acts, a);
  }

  /** A state of a run from g0 in which the NIC has not acted. */
  ghost predicate Quiet(g0: Gen, g: Gen, n: nat, N: nat) { Reaches(g0, g) && Inv(g, n, N) && T.Still(g.sys.ring) }

  /** Fewer buffers than descriptors never fill the ring. */
  lemma NeverFull(g: Gen, n: nat, N: nat)
    requires Inv(g, n, N) && N < n && g.app.Sending?
    ensures !T.Driver(g.sys.ring).1.Rejected?
  {
    UniverseCounts(N);
    T.ControlFlow(g.sys.ring);
    assert |S.Total(g.sys)| == |g.sys.free| + |T.Queue(g.sys.ring)|;
  }

  /** The transmit call takes the packet. */
  lemma {:induction false} SendOn(g0: Gen, g: Gen, n: nat, N: nat) returns (h: Gen)
    requires Quiet(g0, g, n, N) && N < n && g.app.Sending?
    ensures Quiet(g0, h, n, N) && h.app.LoopHead? && h.sys.free == g.sys.free
    decreases T.Rank(g.sys.ring.pc)
  {
    NeverFull(g, n, N);
    T.StillStep(g.sys.ring);
    CallEnds(g.sys.ring);
    h := Step(g, Cpu);
    ReachStep(g0, g, Cpu);
    StepKeeps(g, n, N, Cpu);
    if h.app.Sending? { h := SendOn(g0, h, n, N); }
  }

  /** Every round takes a buffer and none comes back. */
  lemma {:induction false} Starve(g0: Gen, g: Gen, n: nat, N: nat) returns (h: Gen)
    requires Quiet(g0, g, n, N) && N < n && g.app.LoopHead?
    ensures Reaches(g0, h) && h.app.Crashed?
    decreases |g.sys.free|
  {
    h := Step(g, Cpu);
    ReachStep(g0, g, Cpu);
    if g.sys.free != [] {
      StepKeeps(g, n, N, Cpu);
      h := SendOne(g0, h, n, N);
      h := Starve(g0, h, n, N);
    }
  }

  lemma SendOne(g0: Gen, g: Gen, n: nat, N: nat) returns (h: Gen)
    requires Quiet(g0, g, n, N) && N < n && g.app.Holding?
    ensures Quiet(g0, h, n, N) && h.app.LoopHead? && h.sys.free == g.sys.free
  {
    HeldInPool(g, n, N);
    h := Step(g, Cpu);
    ReachStep(g0, g, Cpu);
    StepKeeps(g, n, N, Cpu);
    h := SendOn(g0, h, n, N);
  }

  lemma HeldInPool(g: Gen, n: nat, N: nat)
    requires Inv(g, n, N) && g.app.Holding?
    ensures g.app.b in g.sys.held && g.app.b < N
  {
    var rest := multiset(g.sys.free) + multiset(T.Queue(g.sys.ring));
    assert g.sys.held + rest == S.Total(g.sys);
    Exclusive(N, g.sys.held, rest, g.app.b);
  }

  ghost predicate CrashingRun(g: Gen, acts: seq<Act>) { ValidRun(g, acts) && Run(g, acts).app.Crashed? }

  /** Some run uses the NULL of an empty pool exactly if the pool has fewer buffers than the ring has descriptors. */
  lemma StarvesIff(n: nat, N: nat)
    requires 2 <= n
    ensures (exists acts :: CrashingRun(Begin(n, N), acts)) <==> N < n
  {
    var g := Begin(n, N);
    if N < n {
      BeginOk(n, N);
      assert ValidRun(g, []) && Run(g, []) == g;
      var h := Starve(g, g, n, N);
      var acts :| ValidRun(g, acts) && Run(g, acts) == h;
      assert CrashingRun(g, acts);
    } else {
      forall acts | ValidRun(g, acts) ensures !CrashingRun(g, acts) { GeneratorNeverStarves(n, N, acts); }
    }
  }
}
