/** The forwarder with the receive function as written returns the buffers of the first lap again and again. When this
    puts a buffer in the hands of both NICs, or into the transmit ring twice. */
module ForwarderSharing {
  import opened RingIndex
  import opened Descriptors
  import opened Forwarder
  import opened ForwarderRuns
  import A = ForwarderAsWritten
  import D = ForwarderData
  import R = RxRing
  import Rx = RxSystem
  import T = TxRing
  import Tx = TxSystem
  import W = RxAsWritten

  // -- which received packet is which posted one -------------------------------------------------

  /** The buffers of the packets that were taken. */
  function PassedBufs(got: seq<Rx.Delivery>, outcomes: seq<bool>): seq<nat>
    requires |outcomes| <= |got|
  {
    if outcomes == [] then [] else
    var k := |outcomes| - 1;
    PassedBufs(got, outcomes[..k]) + if outcomes[k] then [got[k].buf] else []
  }

  /** How many were not. */
  function Rejections(outcomes: seq<bool>): nat {
    if outcomes == [] then 0
    else Rejections(outcomes[..|outcomes| - 1]) + One(!outcomes[|outcomes| - 1])
  }

  ghost predicate Told(s: Fwd) {
    && |s.outcomes| + One(D.Busy(s.app)) == |s.rx.got|
    && T.Bufs(s.tx.posted) == PassedBufs(s.rx.got, s.outcomes)
    && (s.app.Has? ==> s.app.buf == s.rx.got[|s.outcomes|].buf)
    && (s.app.Sending? ==> !s.tx.pc.Idle? && s.tx.pc.buf == s.rx.got[|s.outcomes|].buf)
  }

  /** Nothing is left to lose: the loop is on its way to its death. */
  ghost predicate Spent(s: Fwd) {
    && s.outcomes != [] && !s.outcomes[|s.outcomes| - 1]
    && s.rx.free == [] && !R.Borrowed(s.rx.ring.pc) && !D.Busy(s.app)
  }

  ghost predicate Losses(s: Fwd, N: nat)
    requires s.tx.n >= 1
  {
    && (!s.freeing ==> |s.lost| == Rejections(s.outcomes))
    && (!s.freeing && |s.lost| == Spare(s.rx.ring.n, s.tx.n, N) > 0 ==> Spent(s))
    && (s.freeing && N < s.rx.ring.n + s.tx.n ==> Rejections(s.outcomes) == 0)
  }

  ghost predicate Full(s: Fwd, n: nat) { A.Tracked(s, n) && Told(s) && Losses(s, |s.rx.mem|) }

  lemma {:induction false} PassedPrefix(got: seq<Rx.Delivery>, more: seq<Rx.Delivery>, outcomes: seq<bool>)
    requires |outcomes| <= |got|
    ensures PassedBufs(got + more, outcomes) == PassedBufs(got, outcomes)
    decreases outcomes
  {
    if outcomes != [] { PassedPrefix(got, more, outcomes[..|outcomes| - 1]); }
  }

  lemma OneMore(got: seq<Rx.Delivery>, outcomes: seq<bool>, took: bool)
    requires |outcomes| < |got|
    ensures PassedBufs(got, outcomes + [took]) == PassedBufs(got, outcomes) + if took then [got[|outcomes|].buf] else []
    ensures Rejections(outcomes + [took]) == Rejections(outcomes) + One(!took)
  {
    assert (outcomes + [took])[..|outcomes|] == outcomes;
  }

  lemma DriveGives(s: Rx.Sys, n: nat)
    requires W.Inv(s, n) && Rx.Enabled(s, Rx.Drive)
    ensures var s', e := Rx.Step(s, Rx.Drive), R.Driver(s.ring, s.cfg.repaired, R.Top(s.free)).1;
            if e.Returned? then
              |s'.got| == |s.got| + 1 && s'.got == s.got + [s'.got[|s.got|]] && s'.got[|s.got|].buf == e.buf
            else
              s'.got == s.got
  {
    Rx.EffectOperands(s);
  }

  lemma ReceivingTells(s: Fwd, n: nat)
    requires W.Inv(s.rx, n) && Told(s) && s.app.Receiving? && Enabled(s, Cpu)
    ensures Told(Step(s, Cpu))
  {
    DriveGives(s.rx, n);
    D.ReceivingStep(s);
    var got, got' := s.rx.got, Step(s, Cpu).rx.got;
    if got' != got { PassedPrefix(got, [got'[|got|]], s.outcomes); }
  }

  lemma ReceivingLoses(s: Fwd, N: nat)
    requires s.tx.n >= 1 && Losses(s, N) && s.app.Receiving? && Enabled(s, Cpu)
    ensures Losses(Step(s, Cpu), N)
  {
    DriveCounts(s.rx);
    R.ControlFlow(s.rx.ring, s.rx.cfg.repaired, R.Top(s.rx.free));
    D.ReceivingStep(s);
  }

  lemma ReceivingFull(s: Fwd, n: nat)
    requires Full(s, n) && s.app.Receiving? && Enabled(s, Cpu)
    ensures Full(Step(s, Cpu), n)
  {
    A.StepTracks(s, n, Cpu);
    ReceivingTells(s, n);
    ReceivingLoses(s, |s.rx.mem|);
  }

  lemma SendingTells(s: Fwd)
    requires T.WellShaped(s.tx) && Told(s) && s.app.Sending?
    ensures Told(Step(s, Cpu))
  {
    if s.tx.pc.PutTail? {
      TailTells(s);
    } else {
      assert T.Driver(s.tx).0.posted == s.tx.posted;
      OneMore(s.rx.got, s.outcomes, false);
    }
  }

  lemma TailTells(s: Fwd)
    requires T.WellShaped(s.tx) && Told(s) && s.app.Sending? && s.tx.pc.PutTail?
    ensures Told(Step(s, Cpu))
  {
    OneMore(s.rx.got, s.outcomes, true);
    assert T.Bufs(T.Driver(s.tx).0.posted) == T.Bufs(s.tx.posted) + [s.tx.pc.buf];
  }

  lemma SendingLoses(s: Fwd, N: nat)
    requires Inv(s, N) && Losses(s, N) && Told(s) && s.app.Sending?
    ensures Losses(Step(s, Cpu), N)
  {
    T.ControlFlow(s.tx);
    StepKeeps(s, N, Cpu);
    OneMore(s.rx.got, s.outcomes, true);
    OneMore(s.rx.got, s.outcomes, false);
  }

  lemma SendingFull(s: Fwd, n: nat)
    requires Full(s, n) && s.app.Sending? && Enabled(s, Cpu)
    ensures Full(Step(s, Cpu), n)
  {
    A.StepTracks(s, n, Cpu);
    SendingTells(s);
    SendingLoses(s, |s.rx.mem|);
  }

  /** What Told and Losses read. */
  ghost predicate SameTale(s: Fwd, s': Fwd) {
    && s'.outcomes == s.outcomes && s'.lost == s.lost && s'.freeing == s.freeing && s'.rx.got == s.rx.got
    && s'.rx.free == s.rx.free && s'.rx.ring.n == s.rx.ring.n && s'.tx.n == s.tx.n && s'.tx.posted == s.tx.posted
  }

  lemma NicFull(s: Fwd, n: nat, a: Act)
    requires Full(s, n) && Enabled(s, a) && !a.Cpu?
    ensures Full(Step(s, a), n)
  {
    A.StepTracks(s, n, a);
    NicTale(s, a);
    TaleFrame(s, Step(s, a), |s.rx.mem|);
  }

  lemma NicTale(s: Fwd, a: Act)
    requires Enabled(s, a) && !a.Cpu?
    ensures var s' := Step(s, a);
            SameTale(s, s') && s'.app == s.app && s'.tx.pc == s.tx.pc && s'.rx.ring.pc == s.rx.ring.pc
  {
  }

  lemma TaleFrame(s: Fwd, s': Fwd, N: nat)
    requires s.tx.n >= 1 && Told(s) && Losses(s, N) && SameTale(s, s')
    requires s'.app == s.app && s'.tx.pc == s.tx.pc && s'.rx.ring.pc == s.rx.ring.pc
    requires s.app.Has? ==> |s.outcomes| < |s'.rx.got|
    ensures Told(s') && Losses(s', N)
  {
  }

  lemma CallFull(s: Fwd, n: nat)
    requires Full(s, n) && s.app.LoopHead? && Enabled(s, Cpu)
    ensures Full(Step(s, Cpu), n)
  {
    A.StepTracks(s, n, Cpu);
    assert SameTale(s, Step(s, Cpu)) && Step(s, Cpu).tx == s.tx;
  }

  lemma HandOverFull(s: Fwd, n: nat)
    requires Full(s, n) && s.app.Has? && Enabled(s, Cpu)
    ensures Full(Step(s, Cpu), n)
  {
    A.StepTracks(s, n, Cpu);
    assert SameTale(s, Step(s, Cpu)) && Step(s, Cpu).rx == s.rx;
  }

  lemma StepFull(s: Fwd, n: nat, a: Act)
    requires Full(s, n) && Enabled(s, a)
    ensures Full(Step(s, a), n)
  {
    if !a.Cpu? {
      NicFull(s, n, a);
    } else {
      match s.app {
        case LoopHead => CallFull(s, n);
        case Receiving => ReceivingFull(s, n);
        case Has(_) => HandOverFull(s, n);
        case Sending => SendingFull(s, n);
      }
    }
  }

  lemma {:induction false} RunFull(s: Fwd, n: nat, acts: seq<Act>)
    requires Full(s, n) && ValidRun(s, acts)
    ensures Full(Run(s, acts), n) && SameSizes(s, Run(s, acts))
    decreases acts
  {
    if acts != [] {
      StepFull(s, n, acts[0]);
      StepKeepsSizes(s, acts[0]);
      RunFull(Step(s, acts[0]), n, acts[1..]);
    }
  }

  predicate AsShipped(c: Setup, mem: seq<Rx.Buf>) { Sized(c, |mem|) && !c.rx.repaired && 1 <= c.rx.mtu }

  lemma BeginFull(c: Setup, mem: seq<Rx.Buf>)
    requires AsShipped(c, mem) && Rx.Headers(mem)
    ensures Full(Begin(c, mem), c.rx.n)
  {
    A.BeginTracked(c, mem);
  }

  lemma OnFull(s0: Fwd, s: Fwd, n: nat)
    requires Full(s0, n) && Reaches(s0, s)
    ensures Full(s, n) && SameSizes(s0, s)
  {
    var acts :| ValidRun(s0, acts) && Run(s0, acts) == s;
    RunFull(s0, n, acts);
  }

  // -- a buffer open to both NICs ----------------------------------------------------------------

  ghost predicate SharedRun(s: Fwd, acts: seq<Act>) { ValidRun(s, acts) && !D.NicsApart(Run(s, acts)) }

  /** The packet accepted last is the one received last. */
  lemma LastPosted(s: Fwd)
    requires Told(s) && !D.Busy(s.app) && s.outcomes != [] && s.outcomes[|s.outcomes| - 1]
    ensures |s.tx.posted| >= 1 && s.tx.posted[|s.tx.posted| - 1].buf == s.rx.got[|s.rx.got| - 1].buf
  {
    var q := T.Bufs(s.tx.posted);
    assert q[|q| - 1] == s.tx.posted[|q| - 1].buf;
  }

  /** With one buffer beside the receive ring only one packet gets through, in a buffer of its own. */
  lemma ScarceIsApart(s: Fwd, n: nat)
    requires Full(s, n) && |s.rx.mem| <= n + 1
    ensures D.NicsApart(s)
  {
    forall j: nat, i: nat | D.NicMayWrite(s.rx.ring, j) && Tx.NicMayRead(s.tx, i)
      ensures s.rx.ring.posted[j].InPool? && s.rx.ring.posted[j].buf != s.tx.posted[i].buf
    {
      ScarcePair(s, n, j, i);
    }
  }

  lemma ScarcePair(s: Fwd, n: nat, j: nat, i: nat)
    requires Full(s, n) && |s.rx.mem| <= n + 1 && D.NicMayWrite(s.rx.ring, j) && Tx.NicMayRead(s.tx, i)
    ensures s.rx.ring.posted[j].InPool? && s.rx.ring.posted[j].buf != s.tx.posted[i].buf
  {
    var k := ReceivedAs(s, i);
    assert |s.rx.got| == s.rx.ring.taken <= 1;
    GotBuf(s, n, 0);
    SecondPosting(s.rx, n, j);
  }

  /** After one packet, the addresses still open are those of other buffers. */
  lemma SecondPosting(s: Rx.Sys, n: nat, j: nat)
    requires W.Inv(s, n) && s.ring.taken == 1 && D.NicMayWrite(s.ring, j)
    ensures s.ring.posted[j].InPool? && s.ring.posted[j].buf != |s.mem| - 1
  {
  }

  /** Posted packet i is received packet k, and i others before it were taken. */
  lemma ReceivedAs(s: Fwd, i: nat) returns (k: nat)
    requires Told(s) && i < |s.tx.posted|
    ensures k < |s.outcomes| <= |s.rx.got| && s.outcomes[k] && s.tx.posted[i].buf == s.rx.got[k].buf
    ensures k == i + Rejections(s.outcomes[..k])
  {
    assert T.Bufs(s.tx.posted)[i] == s.tx.posted[i].buf;
    k := PassedAt(s.rx.got, s.outcomes, i);
  }

  lemma {:induction false} PassedCount(got: seq<Rx.Delivery>, outcomes: seq<bool>)
    requires |outcomes| <= |got|
    ensures |PassedBufs(got, outcomes)| + Rejections(outcomes) == |outcomes|
    decreases outcomes
  {
    if outcomes != [] { PassedCount(got, outcomes[..|outcomes| - 1]); }
  }

  lemma {:induction false} PassedAt(got: seq<Rx.Delivery>, outcomes: seq<bool>, i: nat) returns (k: nat)
    requires |outcomes| <= |got| && i < |PassedBufs(got, outcomes)|
    ensures k < |outcomes| && outcomes[k] && PassedBufs(got, outcomes)[i] == got[k].buf
    ensures k == i + Rejections(outcomes[..k])
    decreases outcomes
  {
    var l := |outcomes| - 1;
    if i < |PassedBufs(got, outcomes[..l])| {
      k := PassedAt(got, outcomes[..l], i);
      assert outcomes[..l][..k] == outcomes[..k];
    } else {
      k := l;
      PassedCount(got, outcomes[..l]);
    }
  }

  /** Received packet k of the first two laps is in the buffer of slot k mod n. */
  lemma GotBuf(s: Fwd, n: nat, k: nat)
    requires Full(s, n) && k < |s.rx.got| && k < 2 * n
    ensures s.rx.got[k].buf == |s.rx.mem| - 1 - (if k < n then k else k - n)
  {
    assert s.rx.got[k].buf == W.FirstLap(|s.rx.mem|, n, k);
    if k < n {
      SlotSmall(k, n);
    } else {
      SlotPeriod(k - n, n);
      SlotSmall(k - n, n);
    }
  }

  /** A fresh forwarder that may get packets of one byte. */
  ghost predicate Fresh(s: Fwd, N: nat, n: nat) {
    && Waiting(s) && T.Still(s.tx) && s.tx.posted == [] && s.rx.ring.taken == 0 && s.tx.cleaned == 0
    && s.rx.cfg.mtu >= 1 && N == |s.rx.mem| && s.rx.ring.n == n && |s.rx.free| == N - n
  }

  /** The packet accepted last, of the first two laps, by its number. */
  lemma AcceptedBuf(s0: Fwd, s: Fwd, n: nat, k: nat)
    requires Full(s0, n) && Reaches(s0, s) && Waiting(s) && s.rx.ring.taken == k + 1 <= 2 * n
    requires s.outcomes != [] && s.outcomes[|s.outcomes| - 1]
    ensures |s.tx.posted| >= 1
    ensures s.tx.posted[|s.tx.posted| - 1].buf == |s0.rx.mem| - 1 - (if k < n then k else k - n)
  {
    OnFull(s0, s, n);
    LastPosted(s);
    GotBuf(s, n, k);
  }

  /** Three packets, each sent before the next arrives. The first buffer comes back with the second packet and is posted
      for receiving with the third. */
  lemma FirstThree(s0: Fwd, N: nat, n: nat) returns (t: Fwd)
    requires On(s0, s0, N) && Full(s0, n) && Fresh(s0, N, n) && Benign(s0.rx) && N >= n + 2
    ensures On(s0, t, N) && Waiting(t) && T.Still(t.tx) && t.rx.ring.taken == 3 && t.tx.cleaned < |t.tx.posted|
    ensures t.outcomes != [] && t.outcomes[|t.outcomes| - 1] && t.rx.free != []
    ensures |t.rx.ring.posted| == n + 3 && t.rx.ring.posted[n + 2] == InPool(N - 1, DATA_OFFSET)
  {
    t := FirstOne(s0, N, n);
    t := SwapOne(s0, t, N);
    t := SwapOne(s0, t, N);
  }

  lemma FirstOne(s0: Fwd, N: nat, n: nat) returns (t: Fwd)
    requires On(s0, s0, N) && Full(s0, n) && Fresh(s0, N, n) && N >= n + 2
    ensures On(s0, t, N) && Waiting(t) && T.Still(t.tx) && t.rx.ring.taken == 1 && t.rx.free != []
    ensures t.tx.cleaned == 0 && |t.tx.posted| == 1 && t.tx.posted[0].buf == N - 1 && |t.rx.ring.posted| == n + 1
    ensures Benign(s0.rx) ==> Benign(t.rx)
  {
    t := PassOne(s0, s0, N);
    AcceptedBuf(s0, t, n, 0);
  }

  /** Between packets, with the packet received last, number k, accepted. */
  ghost predicate Accepted(s0: Fwd, s: Fwd, N: nat, k: nat) {
    && On(s0, s, N) && Waiting(s) && T.Still(s.tx) && s.rx.ring.taken == k + 1
    && s.outcomes != [] && s.outcomes[|s.outcomes| - 1]
  }

  /** Then more, until packet n is returned in the same buffer. */
  lemma SecondLap(s0: Fwd, N: nat, n: nat) returns (t: Fwd)
    requires On(s0, s0, N) && Full(s0, n) && Fresh(s0, N, n) && Benign(s0.rx) && N >= n + 2
    ensures Accepted(s0, t, N, n) && t.tx.cleaned < |t.tx.posted|
    ensures |t.rx.ring.posted| > n + 2 && t.rx.ring.posted[n + 2] == InPool(N - 1, DATA_OFFSET)
  {
    t := FirstThree(s0, N, n);
    t := SwapMany(s0, t, N, n - 2);
  }

  lemma SharingRun(c: Setup, mem: seq<Rx.Buf>)
    requires AsShipped(c, mem) && Rx.Headers(mem) && c.rx.mtu <= c.rx.cap && (c.rx.off == 0 || c.rx.off == DATA_OFFSET)
    requires |mem| >= c.rx.n + 2
    ensures exists acts :: SharedRun(Begin(c, mem), acts)
  {
    var s0, N, n := Begin(c, mem), |mem|, c.rx.n;
    BeginOk(c, mem);
    BeginFull(c, mem);
    assert ValidRun(s0, []) && Run(s0, []) == s0;
    var t := SecondLap(s0, N, n);
    LapShares(s0, t, N, n);
    var acts :| ValidRun(s0, acts) && Run(s0, acts) == t;
    assert SharedRun(s0, acts);
  }

  lemma LapShares(s0: Fwd, t: Fwd, N: nat, n: nat)
    requires Full(s0, n) && N == |s0.rx.mem| && Accepted(s0, t, N, n) && t.tx.cleaned < |t.tx.posted|
    requires |t.rx.ring.posted| > n + 2 && t.rx.ring.posted[n + 2] == InPool(N - 1, DATA_OFFSET)
    ensures !D.NicsApart(t)
  {
    var i := |t.tx.posted| - 1;
    AcceptedBuf(s0, t, n, n);
    Unread(s0, t, N, i);
    assert D.NicMayWrite(t.rx.ring, n + 2) && Tx.NicMayRead(t.tx, i);
  }

  /** What has not been cleaned has not been finished either. */
  lemma Unread(s0: Fwd, s: Fwd, N: nat, i: nat)
    requires On(s0, s, N) && T.Still(s.tx) && s.tx.cleaned <= i < |s.tx.posted|
    ensures Tx.NicMayRead(s.tx, i)
  {
  }

  /** As written: some run gives a buffer to both NICs exactly if the pool has two buffers beside the receive ring. */
  lemma SharedIff(c: Setup, mem: seq<Rx.Buf>)
    requires AsShipped(c, mem) && Rx.Headers(mem) && c.rx.mtu <= c.rx.cap && (c.rx.off == 0 || c.rx.off == DATA_OFFSET)
    ensures (exists acts :: SharedRun(Begin(c, mem), acts)) <==> |mem| >= c.rx.n + 2
  {
    if |mem| >= c.rx.n + 2 {
      SharingRun(c, mem);
    } else {
      forall acts | ValidRun(Begin(c, mem), acts) ensures !SharedRun(Begin(c, mem), acts) {
        BeginFull(c, mem);
        RunFull(Begin(c, mem), c.rx.n, acts);
        ScarceIsApart(Run(Begin(c, mem), acts), c.rx.n);
      }
    }
  }

  // -- a buffer in the transmit ring twice -------------------------------------------------------

  /** Two packets that the NIC may read are in one buffer. */
  ghost predicate Doubled(r: T.Ring, i: nat, j: nat) {
    i < j && Tx.NicMayRead(r, i) && Tx.NicMayRead(r, j) && r.posted[i].buf == r.posted[j].buf
  }

  ghost predicate DoubledRun(s: Fwd, acts: seq<Act>) {
    ValidRun(s, acts) && exists i: nat, j: nat :: Doubled(Run(s, acts).tx, i, j)
  }

  /** The smallest pool with such a run: a transmit ring that holds n + 1 packets needs no rejections; a smaller one
      needs some, and the loop must survive them. */
  function Enough(n: nat, ntx: nat, freeing: bool): nat {
    if ntx >= n + 2 then 2 * n + 1 else if freeing then n + ntx else 2 * n + 2
  }

  lemma {:induction false} RejectionsGrow(outcomes: seq<bool>, k: nat)
    requires k < |outcomes|
    ensures Rejections(outcomes[..k]) <= Rejections(outcomes)
    ensures outcomes[k] && !outcomes[|outcomes| - 1] ==> Rejections(outcomes[..k]) < Rejections(outcomes)
    decreases outcomes
  {
    var l := |outcomes| - 1;
    if k < l {
      RejectionsGrow(outcomes[..l], k);
      assert outcomes[..l][..k] == outcomes[..k];
    }
  }

  /** Two packets in one buffer were received at least n apart. */
  lemma LapApart(s: Fwd, n: nat, i: nat, j: nat) returns (ki: nat, kj: nat)
    requires Full(s, n) && i < j < |s.tx.posted| && s.tx.posted[i].buf == s.tx.posted[j].buf
    ensures kj < |s.outcomes| && s.outcomes[kj] && ki + n <= kj
    ensures ki >= i && kj == j + Rejections(s.outcomes[..kj])
    ensures Rejections(s.outcomes[..kj]) >= n - (j - i)
  {
    ki := ReceivedAs(s, i);
    kj := ReceivedAs(s, j);
    OrderKept(s.outcomes, ki, kj, i, j);
    assert s.rx.got[ki].buf == W.FirstLap(|s.rx.mem|, n, ki) && s.rx.got[kj].buf == W.FirstLap(|s.rx.mem|, n, kj);
    if kj < ki + n { SlotInjective(ki, kj, n); }
  }

  /** Packets are posted in the order in which they were received. */
  lemma OrderKept(outcomes: seq<bool>, ki: nat, kj: nat, i: nat, j: nat)
    requires ki < |outcomes| && kj < |outcomes| && i < j
    requires ki == i + Rejections(outcomes[..ki]) && kj == j + Rejections(outcomes[..kj])
    ensures ki < kj
  {
    if kj < ki {
      TakenBetween(outcomes, kj, ki);
    }
  }

  lemma {:induction false} TakenBetween(outcomes: seq<bool>, a: nat, b: nat)
    requires a <= b <= |outcomes|
    ensures Rejections(outcomes[..b]) - Rejections(outcomes[..a]) <= b - a
    decreases b
  {
    if a < b {
      TakenBetween(outcomes, a, b - 1);
      assert outcomes[..b][..b - 1] == outcomes[..b - 1];
    }
  }

  /** Then the pool has room for the transmit window, the losses between the two, and the receive ring. */
  lemma DoubledNeeds(s: Fwd, n: nat, i: nat, j: nat)
    requires Full(s, n) && Doubled(s.tx, i, j)
    ensures s.tx.n >= 3 && |s.rx.mem| >= Enough(n, s.tx.n, s.freeing)
  {
    var ki, kj := LapApart(s, n, i, j);
    CountDoubled(s, |s.rx.mem|, i, j, kj);
  }

  lemma CountDoubled(s: Fwd, N: nat, i: nat, j: nat, kj: nat)
    requires Inv(s, N) && Losses(s, N) && Doubled(s.tx, i, j) && kj < |s.outcomes| && s.outcomes[kj]
    requires Rejections(s.outcomes[..kj]) >= s.rx.ring.n - (j - i)
    ensures s.tx.n >= 3 && N >= Enough(s.rx.ring.n, s.tx.n, s.freeing)
  {
    RejectionsGrow(s.outcomes, kj);
    WindowFits(s, N, i, j);
    Tally(s.rx.ring.n, s.tx.n, N, s.freeing, j - i, |s.tx.posted| - s.tx.cleaned, |s.lost|,
          Rejections(s.outcomes[..kj]));
  }

  lemma WindowFits(s: Fwd, N: nat, i: nat, j: nat)
    requires Inv(s, N) && Doubled(s.tx, i, j)
    ensures s.tx.cleaned <= i && j - i + 1 <= |s.tx.posted| - s.tx.cleaned <= s.tx.n - 1
    ensures s.rx.ring.n + (|s.tx.posted| - s.tx.cleaned) + |s.lost| <= N
  {
    assert |T.Queue(s.tx)| >= |s.tx.posted| - s.tx.cleaned;
  }

  /** d packets apart in a window of q, with `away` packets turned away before the second. */
  lemma Tally(n: nat, ntx: nat, N: nat, freeing: bool, d: nat, q: nat, lost: nat, away: nat)
    requires 1 <= d < q <= ntx - 1 && n + q + lost <= N && away >= n - d
    requires !freeing ==> away <= lost <= Spare(n, ntx, N) && (lost == Spare(n, ntx, N) > 0 ==> away < lost)
    requires freeing && N < n + ntx ==> away == 0
    ensures ntx >= 3 && N >= Enough(n, ntx, freeing)
  {
  }

  /** n + 1 packets into a transmit ring that holds them. */
  lemma LongRing(s0: Fwd, N: nat, n: nat) returns (u: Fwd, t: Fwd)
    requires On(s0, s0, N) && Fresh(s0, N, n) && s0.tx.n >= n + 2 && N >= 2 * n + 1
    ensures Accepted(s0, u, N, 0) && |u.tx.posted| == 1
    ensures Accepted(s0, t, N, n) && u.tx.posted <= t.tx.posted && |t.tx.posted| == n + 1 && t.tx.cleaned == 0
  {
    u := PassMany(s0, s0, N, 1);
    t := PassMany(s0, u, N, n);
  }

  /** Fill the transmit ring, up to packet ntx - 2; have n + 2 - ntx packets turned away; then let the NIC send the
      older packets one by one, each making room for one of the next ntx - 2. */
  lemma ShortRing(s0: Fwd, N: nat, n: nat) returns (u: Fwd, t: Fwd)
    requires On(s0, s0, N) && Fresh(s0, N, n) && 3 <= s0.tx.n <= n + 1 && N >= Enough(n, s0.tx.n, s0.freeing)
    ensures var m := s0.tx.n - 2;
            && Accepted(s0, u, N, m) && |u.tx.posted| == m + 1
            && Accepted(s0, t, N, m + n) && u.tx.posted <= t.tx.posted
            && |t.tx.posted| == 2 * m + 1 && t.tx.cleaned == m
  {
    var m := s0.tx.n - 2;
    u := PassMany(s0, s0, N, m + 1);
    t := TurnAway(s0, u, N, n - m);
    t := SwapMany(s0, t, N, m);
  }

  /** Packets m and m + n are accepted and not yet sent: they are in one buffer. */
  lemma LapDoubles(s0: Fwd, u: Fwd, t: Fwd, N: nat, n: nat, m: nat)
    requires Full(s0, n) && m < n && Accepted(s0, u, N, m) && Accepted(s0, t, N, m + n)
    requires u.tx.posted <= t.tx.posted && |u.tx.posted| == m + 1 < |t.tx.posted| && t.tx.cleaned <= m
    ensures Doubled(t.tx, m, |t.tx.posted| - 1)
  {
    AcceptedBuf(s0, u, n, m);
    AcceptedBuf(s0, t, n, m + n);
    Unread(s0, t, N, m);
    Unread(s0, t, N, |t.tx.posted| - 1);
  }

  lemma SomeRunDoubles(c: Setup, mem: seq<Rx.Buf>)
    requires AsShipped(c, mem) && Rx.Headers(mem) && c.ntx >= 3 && |mem| >= Enough(c.rx.n, c.ntx, c.freeing)
    ensures exists acts :: DoubledRun(Begin(c, mem), acts)
  {
    var s0, N, n := Begin(c, mem), |mem|, c.rx.n;
    BeginOk(c, mem);
    BeginFull(c, mem);
    assert ValidRun(s0, []) && Run(s0, []) == s0;
    var u, t;
    if c.ntx >= n + 2 {
      u, t := LongRing(s0, N, n);
      LapDoubles(s0, u, t, N, n, 0);
    } else {
      u, t := ShortRing(s0, N, n);
      LapDoubles(s0, u, t, N, n, c.ntx - 2);
    }
    var acts :| ValidRun(s0, acts) && Run(s0, acts) == t;
    assert DoubledRun(s0, acts);
  }

  /** As written, for every offset: some run has one buffer in the transmit ring for two packets at once exactly if the
      ring holds two packets and the pool has enough buffers. */
  lemma DoubledIff(c: Setup, mem: seq<Rx.Buf>)
    requires AsShipped(c, mem) && Rx.Headers(mem)
    ensures (exists acts :: DoubledRun(Begin(c, mem), acts))
            <==> c.ntx >= 3 && |mem| >= Enough(c.rx.n, c.ntx, c.freeing)
  {
    if c.ntx >= 3 && |mem| >= Enough(c.rx.n, c.ntx, c.freeing) { SomeRunDoubles(c, mem); }
    forall acts | DoubledRun(Begin(c, mem), acts)
      ensures c.ntx >= 3 && |mem| >= Enough(c.rx.n, c.ntx, c.freeing)
    {
      BeginFull(c, mem);
      RunFull(Begin(c, mem), c.rx.n, acts);
      var s := Run(Begin(c, mem), acts);
      var i: nat, j: nat :| Doubled(s.tx, i, j);
      DoubledNeeds(s, c.rx.n, i, j);
    }
  }
}
