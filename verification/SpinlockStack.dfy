/** The spinlock stack allocator under any number of threads and any interleaving of their single atomic steps, in
    sequentially consistent memory. */
module SpinlockStack {
  import opened Wrappers
  import opened StackAllocator
  import opened Ownership
  import Memory

  /** Control state of one thread. `k` numbers the operation by the order in which the lock was taken; `ids` is the
      entry that an allocation is about to read, or nothing if it will return NULL. */
  datatype Thread =
    | Idle
    | ASpin(size: nat)                                       // test-and-set of the lock word
    | AWait(size: nat)                                       // reads the lock word until it is 0
    | ACheck(size: nat, k: nat, ids: seq<nat>)               // holds the lock: empty stack or size too large?
    | ADec(size: nat, k: nat, ids: seq<nat>)                 // --free_stack_top
    | ARead(size: nat, k: nat, ids: seq<nat>)                // free_stack[free_stack_top]
    | AUnlock(size: nat, blk: Blk, k: nat)
    | ADone(size: nat, blk: Blk, k: nat)                     // about to return
    | DCheck(blk: Blk)                                       // size and range checks, without the lock
    | DSpin(id: nat)
    | DWait(id: nat)
    | DInc(id: nat, k: nat)                                  // holds the lock: free_stack_top++
    | DStore(id: nat, at: nat, k: nat)                       // free_stack[at] = id
    | DUnlock(id: nat, k: nat)

  datatype Op = LockedAlloc(t: nat, size: nat) | LockedFree(t: nat, id: nat)

  /** Thread t's allocation of `size` bytes, number k in lock order, returned blk. */
  datatype Ret = Ret(t: nat, size: nat, k: nat, blk: Blk)

  /** Shared memory and threads; `held` are the blocks in clients' hands. History: the operations in the order in
      which they took the lock, what the allocations returned, and who holds the lock. */
  datatype State = State(
    g: Geometry, locked: bool, top: nat, mem: seq<nat>, threads: seq<Thread>, aborted: bool,
    held: seq<Blk>, lin: seq<Op>, rets: seq<Ret>, holder: Option<nat>)

  /** A client gives back the i-th block it holds, or a thread takes its next step. */
  datatype Act = CallAlloc(t: nat, size: nat) | CallFree(t: nat, i: nat) | Go(t: nat)

  // -- the sequential allocator, run in lock order -----------------------------------------------

  function SeqStep(g: Geometry, stack: seq<nat>, op: Op): (seq<nat>, Blk)
    requires g.entry > 0
  {
    match op
    case LockedAlloc(_, size) => Alloc(g, stack, size)
    case LockedFree(_, id) =>
      (match Dealloc(g, stack, BlockOf(g, id)) case None => stack case Some(s) => s, NULL)
  }

  function Replay(g: Geometry, lin: seq<Op>): seq<nat>
    requires g.entry > 0
  {
    if lin == [] then FullStack(g.num)
    else SeqStep(g, Replay(g, lin[..|lin| - 1]), lin[|lin| - 1]).0
  }

  /** What operation k returns in the sequential run. */
  function SeqResult(g: Geometry, lin: seq<Op>, k: nat): Blk
    requires g.entry > 0 && k < |lin|
  {
    SeqStep(g, Replay(g, lin[..k]), lin[k]).1
  }

  // -- steps -------------------------------------------------------------------------------------

  predicate InCrit(th: Thread) {
    th.ACheck? || th.ADec? || th.ARead? || th.AUnlock? || th.DInc? || th.DStore? || th.DUnlock?
  }

  predicate Enabled(s: State, a: Act) {
    && !s.aborted && a.t < |s.threads|
    && match a
       case CallAlloc(t, _) => s.threads[t].Idle?
       case CallFree(t, i) => s.threads[t].Idle? && i < |s.held|
       case Go(t) => !s.threads[t].Idle? && Bounds(s, s.threads[t])
  }

  /** Array accesses the C code makes without a check. */
  predicate Bounds(s: State, th: Thread) {
    && s.g.entry > 0
    && (th.ADec? ==> s.top > 0)
    && (th.ARead? ==> s.top < |s.mem|)
    && (th.DStore? ==> th.at < |s.mem|)
  }

  function Set(s: State, t: nat, th: Thread): State
    requires t < |s.threads|
  {
    s.(threads := s.threads[t := th])
  }

  /** The entry that an allocation of this size will get from the stack, if any. */
  function Entries(g: Geometry, stack: seq<nat>, size: nat): seq<nat> {
    if stack == [] || size > g.entry then [] else [stack[|stack| - 1]]
  }

  function Step(s: State, a: Act): (s': State)
    requires Enabled(s, a)
    ensures s'.g == s.g && |s'.threads| == |s.threads|
  {
    match a
    case CallAlloc(t, size) => Set(s, t, ASpin(size))
    case CallFree(t, i) => Set(s, t, DCheck(s.held[i])).(held := s.held[..i] + s.held[i + 1..])
    case Go(t) => StepThread(s, t)
  }

  function Acquire(s: State, t: nat, op: Op, th: Thread): State
    requires t < |s.threads|
  {
    Set(s, t, th).(locked := true, holder := Some(t), lin := s.lin + [op])
  }

  function Unlock(s: State, t: nat, th: Thread): State
    requires t < |s.threads|
  {
    Set(s, t, th).(locked := false, holder := None)
  }

  function StepThread(s: State, t: nat): (s': State)
    requires Enabled(s, Go(t))
    ensures s'.g == s.g && |s'.threads| == |s.threads|
  {
    match s.threads[t]
    case ASpin(size) =>
      if s.locked then Set(s, t, AWait(size))
      else Acquire(s, t, LockedAlloc(t, size), ACheck(size, |s.lin|, Entries(s.g, Replay(s.g, s.lin), size)))
    case AWait(size) => if s.locked then s else Set(s, t, ASpin(size))
    case ACheck(size, k, ids) =>
      if s.top == 0 || size > s.g.entry then Set(s, t, AUnlock(size, NULL, k)) else Set(s, t, ADec(size, k, ids))
    case ADec(size, k, ids) => Set(s, t, ARead(size, k, ids)).(top := s.top - 1)
    case ARead(size, k, ids) => Set(s, t, AUnlock(size, BlockOf(s.g, s.mem[s.top]), k))
    case AUnlock(size, blk, k) => Unlock(s, t, ADone(size, blk, k))
    case ADone(size, blk, k) =>
      Set(s, t, Idle).(rets := s.rets + [Ret(t, size, k, blk)], held := if blk == NULL then s.held else s.held + [blk])
    case DCheck(blk) =>
      if blk.size != s.g.entry || !RangeCheck(s.g, blk.ptr) then s.(aborted := true)
      else Set(s, t, DSpin(EntryId(s.g, blk.ptr)))
    case DSpin(id) =>
      if s.locked then Set(s, t, DWait(id)) else Acquire(s, t, LockedFree(t, id), DInc(id, |s.lin|))
    case DWait(id) => if s.locked then s else Set(s, t, DSpin(id))
    case DInc(id, k) => Set(s, t, DStore(id, s.top, k)).(top := s.top + 1)
    case DStore(id, at, k) => Set(s, t, DUnlock(id, k)).(mem := s.mem[at := id])
    case DUnlock(id, k) => Unlock(s, t, Idle)
  }

  // -- invariant ---------------------------------------------------------------------------------

  ghost predicate Locking(s: State) {
    && (s.locked <==> s.holder.Some?)
    && (forall t: nat | t < |s.threads| :: InCrit(s.threads[t]) <==> s.holder == Some(t))
    && (s.holder.Some? ==> s.holder.value < |s.threads|)
  }

  /** The free stack seen through the critical section of the holder; unlocked, it is the sequential one. */
  ghost predicate Stacked(s: State)
    requires s.g.entry > 0
  {
    s.top <= |s.mem| == s.g.num &&
    match s.holder
    case None => s.mem[..s.top] == Replay(s.g, s.lin)
    case Some(h) =>
      h < |s.threads| && |s.lin| > 0 && InSection(s, h, |s.lin| - 1, Replay(s.g, s.lin[..|s.lin| - 1]))
  }

  /** `before` is the sequential stack before the holder's operation, which is number n. */
  ghost predicate InSection(s: State, h: nat, n: nat, before: seq<nat>)
    requires s.g.entry > 0 && s.top <= |s.mem| && n < |s.lin| && h < |s.threads|
  {
    match s.threads[h]
    case ACheck(size, k, ids) =>
      k == n && s.lin[n] == LockedAlloc(h, size) && s.mem[..s.top] == before && ids == Entries(s.g, before, size)
    case ADec(size, k, ids) =>
      k == n && s.lin[n] == LockedAlloc(h, size) && s.mem[..s.top] == before && ids == Entries(s.g, before, size)
      && s.top > 0 && size <= s.g.entry
    case ARead(size, k, ids) =>
      k == n && s.lin[n] == LockedAlloc(h, size) && s.top < |s.mem| && s.mem[..s.top + 1] == before
      && ids == Entries(s.g, before, size) && size <= s.g.entry
    case AUnlock(size, blk, k) =>
      k == n && s.lin[n] == LockedAlloc(h, size) && s.mem[..s.top] == Replay(s.g, s.lin)
      && blk == SeqResult(s.g, s.lin, k)
    case DInc(id, k) => k == n && s.lin[n] == LockedFree(h, id) && s.mem[..s.top] == before
    case DStore(id, at, k) =>
      k == n && s.lin[n] == LockedFree(h, id) && at + 1 == s.top && s.mem[..at] == before
    case DUnlock(id, k) => k == n && s.mem[..s.top] == Replay(s.g, s.lin)
    case _ => false
  }

  /** Operation k is an allocation of `size` bytes by thread t, and blk is its result in the sequential run. */
  predicate ResultOk(s: State, r: Ret)
    requires s.g.entry > 0
  {
    r.k < |s.lin| && s.lin[r.k] == LockedAlloc(r.t, r.size) && r.blk == SeqResult(s.g, s.lin, r.k)
  }

  function Pending(t: nat, th: Thread): Ret
    requires th.AUnlock? || th.ADone?
  {
    Ret(t, th.size, th.k, th.blk)
  }

  /** Finished allocations, returned or about to return, have the sequential results. */
  ghost predicate Results(s: State)
    requires s.g.entry > 0
  {
    && (forall i | 0 <= i < |s.rets| :: ResultOk(s, s.rets[i]))
    && (forall t | 0 <= t < |s.threads| && s.threads[t].ADone? :: ResultOk(s, Pending(t, s.threads[t])))
  }

  /** The entry that a block starts at. */
  function IdOf(g: Geometry, b: Blk): nat { if g.entry > 0 && EntryId(g, b.ptr) >= 0 then EntryId(g, b.ptr) else 0 }

  function Ids(g: Geometry, bs: seq<Blk>): seq<nat> { seq(|bs|, i requires 0 <= i < |bs| => IdOf(g, bs[i])) }

  /** The block of an entry. */
  predicate Genuine(g: Geometry, b: Blk) { IdOf(g, b) < g.num && b == BlockOf(g, IdOf(g, b)) }

  /** Entries in the hands of a thread: promised by a taken lock, read from the stack, or not yet given back under the
      lock. */
  function Held(g: Geometry, th: Thread): seq<nat> {
    match th
    case ACheck(_, _, ids) => ids
    case ADec(_, _, ids) => ids
    case ARead(_, _, ids) => ids
    case AUnlock(_, blk, _) => if blk == NULL then [] else [IdOf(g, blk)]
    case ADone(_, blk, _) => if blk == NULL then [] else [IdOf(g, blk)]
    case DCheck(blk) => [IdOf(g, blk)]
    case DSpin(id) => [id]
    case DWait(id) => [id]
    case _ => []
  }

  ghost function AllHeld(g: Geometry, threads: seq<Thread>): multiset<nat> {
    if threads == [] then multiset{} else multiset(Held(g, threads[0])) + AllHeld(g, threads[1..])
  }

  /** Free entries, the entries of the blocks in clients' hands and those in threads' hands are all entries. */
  ghost predicate Partitioned(s: State)
    requires s.g.entry > 0
  {
    multiset(Replay(s.g, s.lin)) + multiset(Ids(s.g, s.held)) + AllHeld(s.g, s.threads) == Universe(s.g.num)
  }

  /** Blocks in hand or on their way are blocks of entries. */
  ghost predicate Returning(s: State) {
    && (forall t | 0 <= t < |s.threads| :: ReturnOk(s.g, s.threads[t]))
    && (forall i | 0 <= i < |s.held| :: Genuine(s.g, s.held[i]))
  }

  predicate ReturnOk(g: Geometry, th: Thread) {
    match th
    case AUnlock(_, blk, _) => blk == NULL || Genuine(g, blk)
    case ADone(_, blk, _) => blk == NULL || Genuine(g, blk)
    case DCheck(blk) => Genuine(g, blk)
    case DSpin(id) => id < g.num
    case DWait(id) => id < g.num
    case DInc(id, _) => id < g.num
    case DStore(id, _, _) => id < g.num
    case _ => true
  }

  ghost predicate Inv(s: State) {
    s.g.Fits() && !s.aborted && Locking(s) && Stacked(s) && Results(s) && Partitioned(s) && Returning(s)
  }

  // -- the lock ----------------------------------------------------------------------------------

  lemma GoMovesOne(s: State, t: nat)
    requires Enabled(s, Go(t))
    ensures var s' := StepThread(s, t);
            |s'.threads| == |s.threads| && s'.g == s.g && s'.threads == s.threads[t := s'.threads[t]]
  {
    assert s.threads == s.threads[t := s.threads[t]];
  }

  lemma OneThreadMoves(s: State, a: Act)
    requires Enabled(s, a)
    ensures |Step(s, a).threads| == |s.threads| && Step(s, a).g == s.g
    ensures Step(s, a).threads == s.threads[a.t := Step(s, a).threads[a.t]]
  {
    if a.Go? { GoMovesOne(s, a.t); }
  }

  /** A step takes the lock, releases it or leaves it alone. */
  lemma LockMoves(s: State, t: nat)
    requires Enabled(s, Go(t))
    ensures var s' := StepThread(s, t);
            && |s'.threads| == |s.threads|
            && (InCrit(s.threads[t]) == InCrit(s'.threads[t]) ==> s'.locked == s.locked && s'.holder == s.holder)
            && (!InCrit(s.threads[t]) && InCrit(s'.threads[t]) ==> !s.locked && s'.locked && s'.holder == Some(t))
            && (InCrit(s.threads[t]) && !InCrit(s'.threads[t]) ==> !s'.locked && s'.holder == None)
  {
  }

  lemma StepKeepsLocking(s: State, a: Act)
    requires Locking(s) && Enabled(s, a)
    ensures Locking(Step(s, a))
  {
    OneThreadMoves(s, a);
    if a.Go? { LockMoves(s, a.t); }
  }

  // -- the stack ---------------------------------------------------------------------------------

  lemma ReplayAppend(g: Geometry, lin: seq<Op>, op: Op)
    requires g.entry > 0
    ensures (lin + [op])[..|lin|] == lin
    ensures Replay(g, lin + [op]) == SeqStep(g, Replay(g, lin), op).0
  {
    assert (lin + [op])[..|lin + [op]| - 1] == lin;
  }

  /** The last operation of the history, replayed. */
  lemma ReplayLast(g: Geometry, lin: seq<Op>)
    requires g.entry > 0 && |lin| > 0
    ensures Replay(g, lin) == SeqStep(g, Replay(g, lin[..|lin| - 1]), lin[|lin| - 1]).0
    ensures SeqResult(g, lin, |lin| - 1) == SeqStep(g, Replay(g, lin[..|lin| - 1]), lin[|lin| - 1]).1
  {
  }

  /** Taking the lock starts the operation on the sequential stack. */
  lemma AcquireStacks(s: State, t: nat)
    requires s.g.entry > 0 && Locking(s) && Stacked(s) && Enabled(s, Go(t)) && !s.locked
    requires s.threads[t].ASpin? || s.threads[t].DSpin?
    ensures Stacked(StepThread(s, t))
  {
    var s' := StepThread(s, t);
    ReplayAppend(s.g, s.lin, s'.lin[|s.lin|]);
    assert s'.lin == s.lin + [s'.lin[|s.lin|]];
  }

  lemma StackedFrame(s: State, s': State)
    requires s.g.entry > 0 && Stacked(s)
    requires s'.g == s.g && s'.mem == s.mem && s'.top == s.top && s'.lin == s.lin && s'.holder == s.holder
    requires s.holder.Some? ==> s.holder.value < |s'.threads| && s'.threads[s.holder.value] == s.threads[s.holder.value]
    ensures Stacked(s')
  {
  }

  /** What a thread that neither holds nor takes the lock leaves alone. */
  lemma BystanderFrame(s: State, a: Act)
    requires Enabled(s, a) && (a.Go? ==> !InCrit(s.threads[a.t]))
    requires a.Go? ==> (s.threads[a.t].ASpin? || s.threads[a.t].DSpin? ==> s.locked)
    ensures var s' := Step(s, a);
            s'.g == s.g && s'.mem == s.mem && s'.top == s.top && s'.lin == s.lin && s'.holder == s.holder
  {
  }

  lemma OthersStack(s: State, a: Act)
    requires s.g.entry > 0 && Locking(s) && Stacked(s) && Enabled(s, a) && !InCrit(s.threads[a.t])
    requires a.Go? ==> (s.threads[a.t].ASpin? || s.threads[a.t].DSpin? ==> s.locked)
    ensures Stacked(Step(s, a)) && Step(s, a).lin == s.lin
  {
    OneThreadMoves(s, a);
    BystanderFrame(s, a);
    StackedFrame(s, Step(s, a));
  }

  lemma CheckStacks(s: State, t: nat)
    requires s.g.entry > 0 && Stacked(s) && Enabled(s, Go(t)) && s.holder == Some(t)
    requires s.threads[t].ACheck? || s.threads[t].ADec?
    ensures Stacked(StepThread(s, t))
  {
    ReplayLast(s.g, s.lin);
  }

  lemma ReadStacks(s: State, t: nat)
    requires s.g.entry > 0 && Stacked(s) && Enabled(s, Go(t)) && s.holder == Some(t) && s.threads[t].ARead?
    ensures Stacked(StepThread(s, t))
  {
    ReplayLast(s.g, s.lin);
    var before := Replay(s.g, s.lin[..|s.lin| - 1]);
    assert before[|before| - 1] == s.mem[s.top];
    assert before[..|before| - 1] == s.mem[..s.top];
  }

  lemma FreeStacks(s: State, t: nat)
    requires s.g.Fits() && Stacked(s) && Enabled(s, Go(t)) && s.holder == Some(t)
    requires s.threads[t].DInc? || s.threads[t].DStore? || s.threads[t].DUnlock? || s.threads[t].AUnlock?
    requires s.threads[t].DInc? || s.threads[t].DStore? ==> s.threads[t].id < s.g.num && s.top <= s.g.num
    requires s.threads[t].DInc? ==> s.top < s.g.num
    ensures Stacked(StepThread(s, t))
  {
    if s.threads[t].DStore? {
      var before, id := Replay(s.g, s.lin[..|s.lin| - 1]), s.threads[t].id;
      ReplayLast(s.g, s.lin);
      DeallocPushesId(s.g, before, id);
      assert s.mem[s.threads[t].at := id][..s.top] == before + [id];
    }
  }

  lemma PartFits(a: multiset<nat>, b: multiset<nat>, c: multiset<nat>, N: nat)
    requires a + b + c == Universe(N)
    ensures |a| <= N
  {
    UniverseCounts(N);
    assert |a + b + c| == |a| + |b| + |c|;
  }

  /** There is room for an entry whose deallocation has taken the lock. */
  lemma RoomToFree(s: State, t: nat)
    requires s.g.Fits() && Stacked(s) && Partitioned(s) && t < |s.threads| && s.holder == Some(t)
    requires s.threads[t].DInc? && s.threads[t].id < s.g.num
    ensures s.top < s.g.num
  {
    ReplayFree(s.g, s.lin);
    PartFits(multiset(Replay(s.g, s.lin)), multiset(Ids(s.g, s.held)), AllHeld(s.g, s.threads), s.g.num);
  }

  /** A deallocation that is last in the history has pushed its entry. */
  lemma ReplayFree(g: Geometry, lin: seq<Op>)
    requires g.Fits() && |lin| > 0 && lin[|lin| - 1].LockedFree? && lin[|lin| - 1].id < g.num
    ensures Replay(g, lin) == Replay(g, lin[..|lin| - 1]) + [lin[|lin| - 1].id]
    ensures |multiset(Replay(g, lin))| == |Replay(g, lin[..|lin| - 1])| + 1
  {
    DeallocPushesId(g, Replay(g, lin[..|lin| - 1]), lin[|lin| - 1].id);
  }

  lemma StepKeepsStacked(s: State, a: Act)
    requires Inv(s) && Enabled(s, a)
    ensures Stacked(Step(s, a))
  {
    var th := s.threads[a.t];
    if !InCrit(th) {
      if a.Go? && (th.ASpin? || th.DSpin?) && !s.locked { AcquireStacks(s, a.t); } else { OthersStack(s, a); }
    } else if th.ACheck? || th.ADec? {
      CheckStacks(s, a.t);
    } else if th.ARead? {
      ReadStacks(s, a.t);
    } else {
      assert ReturnOk(s.g, th);
      if th.DInc? { RoomToFree(s, a.t); }
      FreeStacks(s, a.t);
    }
  }

  // -- results -----------------------------------------------------------------------------------

  /** Later operations do not change earlier results. */
  lemma ResultStable(g: Geometry, lin: seq<Op>, op: Op, k: nat)
    requires g.entry > 0 && k < |lin|
    ensures SeqResult(g, lin + [op], k) == SeqResult(g, lin, k)
  {
    assert (lin + [op])[..k] == lin[..k];
  }

  lemma GoGrows(s: State, t: nat)
    requires Enabled(s, Go(t))
    ensures var s', th := StepThread(s, t), s.threads[t];
            && |s'.threads| == |s.threads|
            && (s'.lin == s.lin || (|s'.lin| == |s.lin| + 1 && s'.lin == s.lin + [s'.lin[|s.lin|]]))
            && s'.rets == (if th.ADone? then s.rets + [Pending(t, th)] else s.rets)
            && (s'.threads[t].ADone? ==> th.AUnlock? && Pending(t, th) == Pending(t, s'.threads[t]) && s'.lin == s.lin)
  {
  }

  lemma LinGrows(s: State, a: Act)
    requires Enabled(s, a)
    ensures Step(s, a).lin == s.lin || exists op :: Step(s, a).lin == s.lin + [op]
    ensures Step(s, a).rets == s.rets
            || (a.Go? && s.threads[a.t].ADone? && Step(s, a).rets == s.rets + [Pending(a.t, s.threads[a.t])])
    ensures Step(s, a).threads[a.t].ADone? ==>
              a.Go? && s.threads[a.t].AUnlock? && Pending(a.t, s.threads[a.t]) == Pending(a.t, Step(s, a).threads[a.t])
              && Step(s, a).lin == s.lin
  {
    if a.Go? { GoGrows(s, a.t); }
  }

  lemma StepKeepsResults(s: State, a: Act)
    requires s.g.Fits() && Locking(s) && Stacked(s) && Results(s) && Enabled(s, a)
    ensures Step(s, a).g == s.g && Results(Step(s, a))
  {
    var s' := Step(s, a);
    OneThreadMoves(s, a);
    LinGrows(s, a);
    forall r: Ret | ResultOk(s, r) ensures ResultOk(s', r) {
      if s'.lin != s.lin {
        var op :| s'.lin == s.lin + [op];
        ResultStable(s.g, s.lin, op, r.k);
      }
    }
    forall i | 0 <= i < |s'.rets| ensures ResultOk(s', s'.rets[i]) {
      if i < |s.rets| { assert ResultOk(s, s.rets[i]); } else { assert ResultOk(s, Pending(a.t, s.threads[a.t])); }
    }
    forall t | 0 <= t < |s'.threads| && s'.threads[t].ADone? ensures ResultOk(s', Pending(t, s'.threads[t])) {
      assert ResultOk(s, Pending(t, s'.threads[t]));
    }
  }

  // -- ownership ---------------------------------------------------------------------------------

  lemma Exchange(a: multiset<nat>, b: multiset<nat>, c: multiset<nat>, b': multiset<nat>, c': multiset<nat>)
    requires b + c == b' + c'
    ensures (a + b) + c == (a + b') + c'
  {
    assert (a + b) + c == a + (b + c) && (a + b') + c' == a + (b' + c');
  }

  lemma {:induction false} HeldUpdate(g: Geometry, threads: seq<Thread>, t: nat, th: Thread)
    requires t < |threads|
    ensures AllHeld(g, threads[t := th]) + multiset(Held(g, threads[t])) == AllHeld(g, threads) + multiset(Held(g, th))
    decreases t
  {
    var rest := threads[1..];
    if t == 0 {
      assert threads[0 := th][1..] == rest;
      Swap(multiset(Held(g, th)), AllHeld(g, rest), multiset(Held(g, threads[0])));
    } else {
      HeldUpdate(g, rest, t - 1, th);
      assert threads[t := th][1..] == rest[t - 1 := th];
      Exchange(multiset(Held(g, threads[0])), AllHeld(g, rest[t - 1 := th]), multiset(Held(g, threads[t])),
               AllHeld(g, rest), multiset(Held(g, th)));
    }
  }

  lemma Swap(a: multiset<nat>, b: multiset<nat>, c: multiset<nat>)
    ensures (a + b) + c == (c + b) + a
  {
  }

  /** Stack and clients on one side, the acting thread on the other: what leaves one enters the other. */
  ghost predicate Conserved(s: State, a: Act)
    requires s.g.entry > 0 && Enabled(s, a)
  {
    var s' := Step(s, a);
    && s'.g == s.g && |s'.threads| == |s.threads|
    && Bag(Replay(s.g, s'.lin), Ids(s.g, s'.held), Held(s.g, s'.threads[a.t]))
       == Bag(Replay(s.g, s.lin), Ids(s.g, s.held), Held(s.g, s.threads[a.t]))
  }

  lemma IdsWithout(g: Geometry, bs: seq<Blk>, i: nat)
    requires i < |bs|
    ensures Ids(g, bs[..i] + bs[i + 1..]) == Ids(g, bs)[..i] + Ids(g, bs)[i + 1..]
  {
  }

  lemma CallConserves(s: State, a: Act)
    requires s.g.Fits() && Enabled(s, a) && !a.Go?
    ensures Conserved(s, a)
  {
    if a.CallFree? {
      IdsWithout(s.g, s.held, a.i);
      BagTake(Replay(s.g, s.lin), Ids(s.g, s.held), Ids(s.g, Step(s, a).held), a.i);
    }
  }

  lemma AllocConserves(s: State, t: nat)
    requires s.g.Fits() && Enabled(s, Go(t)) && s.threads[t].ASpin? && !s.locked
    ensures Conserved(s, Go(t))
  {
    AllocMoves(s, t);
    var s' := StepThread(s, t);
    var ids := Held(s.g, s'.threads[t]);
    if ids != [] { BagPush(Replay(s.g, s'.lin), Replay(s.g, s.lin), Ids(s.g, s.held), ids[0]); }
  }

  lemma FreeConserves(s: State, t: nat)
    requires s.g.Fits() && Enabled(s, Go(t)) && s.threads[t].DSpin? && !s.locked && s.threads[t].id < s.g.num
    ensures Conserved(s, Go(t))
  {
    FreeMoves(s, t);
    var id, s' := s.threads[t].id, StepThread(s, t);
    var before, after, out := Replay(s.g, s.lin), Replay(s.g, s'.lin), Ids(s.g, s.held);
    BagPush(before, after, out, id);
    FreeHands(s, t);
    assert Bag(after, out, Held(s.g, s'.threads[t])) == Bag(before, out, Held(s.g, s.threads[t]));
  }

  lemma FreeHands(s: State, t: nat)
    requires Enabled(s, Go(t)) && s.threads[t].DSpin? && !s.locked
    ensures var s' := StepThread(s, t);
            && s'.g == s.g && |s'.threads| == |s.threads| && s'.held == s.held
            && Held(s.g, s.threads[t]) == [s.threads[t].id] && Held(s.g, s'.threads[t]) == []
  {
  }

  lemma DoneConserves(s: State, t: nat)
    requires s.g.Fits() && Enabled(s, Go(t)) && s.threads[t].ADone?
    ensures Conserved(s, Go(t))
  {
    var blk := s.threads[t].blk;
    if blk != NULL {
      assert Ids(s.g, s.held + [blk]) == Ids(s.g, s.held) + [IdOf(s.g, blk)];
      BagGive(Replay(s.g, s.lin), Ids(s.g, s.held), Ids(s.g, s.held + [blk]), IdOf(s.g, blk));
    }
    var s' := StepThread(s, t);
    assert Held(s.g, s.threads[t]) == if blk == NULL then [] else [IdOf(s.g, blk)];
    assert Held(s.g, s'.threads[t]) == [] && s'.held == if blk == NULL then s.held else s.held + [blk];
  }

  /** The block that an allocation reads from the stack is that of the entry it was promised. */
  lemma ReadKeepsPromise(s: State, t: nat)
    requires s.g.Fits() && Locking(s) && Stacked(s) && Partitioned(s) && Enabled(s, Go(t)) && s.threads[t].ARead?
    ensures s.mem[s.top] < s.g.num && s.threads[t].ids == [s.mem[s.top]]
    ensures var blk := StepThread(s, t).threads[t].blk;
            blk == BlockOf(s.g, s.mem[s.top]) && IdOf(s.g, blk) == s.mem[s.top] && Genuine(s.g, blk) && blk != NULL
  {
    ReadsTop(s, t);
    HeldIsEntry(s, t, s.mem[s.top]);
    EntryIsGenuine(s.g, s.mem[s.top]);
  }

  lemma ReadsTop(s: State, t: nat)
    requires s.g.entry > 0 && Locking(s) && Stacked(s) && t < |s.threads| && s.threads[t].ARead?
    ensures s.top < |s.mem| && s.threads[t].ids == [s.mem[s.top]]
  {
    assert s.holder == Some(t);
    var before := Replay(s.g, s.lin[..|s.lin| - 1]);
    assert before[|before| - 1] == s.mem[s.top];
  }

  lemma EntryIsGenuine(g: Geometry, id: nat)
    requires g.Fits() && id < g.num
    ensures var blk := BlockOf(g, id); IdOf(g, blk) == id && Genuine(g, blk) && blk != NULL
  {
    IdRecovered(g, id);
  }

  /** An entry in a thread's hand is an entry of the region. */
  lemma HeldIsEntry(s: State, t: nat, x: nat)
    requires s.g.entry > 0 && Partitioned(s) && t < |s.threads| && x in Held(s.g, s.threads[t])
    ensures x < s.g.num
  {
    var rest := multiset(Replay(s.g, s.lin)) + multiset(Ids(s.g, s.held));
    HeldPart(s.g, s.threads, t, x);
    assert AllHeld(s.g, s.threads) + rest == Universe(s.g.num);
    Exclusive(s.g.num, AllHeld(s.g, s.threads), rest, x);
  }

  lemma {:induction false} HeldPart(g: Geometry, threads: seq<Thread>, t: nat, x: nat)
    requires t < |threads| && x in Held(g, threads[t])
    ensures x in AllHeld(g, threads)
    decreases t
  {
    if t > 0 { HeldPart(g, threads[1..], t - 1, x); } else { assert x in multiset(Held(g, threads[0])); }
  }

  /** The checks before the lock pass, and the division recovers the entry: they read only what is fixed at
      construction. */
  lemma ChecksPass(s: State, t: nat)
    requires s.g.Fits() && Enabled(s, Go(t)) && s.threads[t].DCheck? && ReturnOk(s.g, s.threads[t])
    ensures StepThread(s, t) == Set(s, t, DSpin(IdOf(s.g, s.threads[t].blk)))
  {
    IdRecovered(s.g, IdOf(s.g, s.threads[t].blk));
  }

  lemma CheckConserves(s: State, t: nat)
    requires s.g.Fits() && Enabled(s, Go(t)) && s.threads[t].DCheck? && ReturnOk(s.g, s.threads[t])
    ensures Conserved(s, Go(t))
  {
    ChecksPass(s, t);
  }

  /** The other steps move no entry. */
  lemma QuietConserves(s: State, t: nat)
    requires s.g.Fits() && Locking(s) && Stacked(s) && Partitioned(s) && Enabled(s, Go(t))
    requires !s.threads[t].ADone? && !s.threads[t].DCheck?
    requires s.threads[t].ASpin? || s.threads[t].DSpin? ==> s.locked
    ensures Conserved(s, Go(t))
  {
    if s.threads[t].ARead? { ReadKeepsPromise(s, t); }
    QuietHands(s, t);
  }

  lemma QuietHands(s: State, t: nat)
    requires s.g.Fits() && Locking(s) && Stacked(s) && Enabled(s, Go(t))
    requires !s.threads[t].ADone? && !s.threads[t].DCheck?
    requires s.threads[t].ASpin? || s.threads[t].DSpin? ==> s.locked
    requires s.threads[t].ARead? ==>
               s.threads[t].ids == [s.mem[s.top]] && BlockOf(s.g, s.mem[s.top]) != NULL
               && IdOf(s.g, BlockOf(s.g, s.mem[s.top])) == s.mem[s.top]
    ensures var s' := StepThread(s, t);
            && s'.g == s.g && |s'.threads| == |s.threads| && s'.lin == s.lin && s'.held == s.held
            && Held(s.g, s'.threads[t]) == Held(s.g, s.threads[t])
  {
    if s.threads[t].ACheck? { assert s.holder == Some(t); }
  }

  lemma EntriesMove(s: State, a: Act)
    requires s.g.Fits() && Locking(s) && Stacked(s) && Partitioned(s) && Returning(s) && Enabled(s, a)
    ensures Conserved(s, a)
  {
    var th := s.threads[a.t];
    assert ReturnOk(s.g, th);
    if !a.Go? {
      CallConserves(s, a);
    } else if th.ASpin? && !s.locked {
      AllocConserves(s, a.t);
    } else if th.DSpin? && !s.locked {
      FreeConserves(s, a.t);
    } else if th.ADone? {
      DoneConserves(s, a.t);
    } else if th.DCheck? {
      CheckConserves(s, a.t);
    } else {
      QuietConserves(s, a.t);
    }
  }

  lemma AllocMoves(s: State, t: nat)
    requires s.g.Fits() && Enabled(s, Go(t)) && s.threads[t].ASpin? && !s.locked
    ensures Replay(s.g, s.lin) == Replay(s.g, StepThread(s, t).lin) + Held(s.g, StepThread(s, t).threads[t])
    ensures |Held(s.g, StepThread(s, t).threads[t])| <= 1 && StepThread(s, t).held == s.held
  {
    ReplayAppend(s.g, s.lin, LockedAlloc(t, s.threads[t].size));
  }

  lemma FreeMoves(s: State, t: nat)
    requires s.g.Fits() && Enabled(s, Go(t)) && s.threads[t].DSpin? && !s.locked && s.threads[t].id < s.g.num
    ensures Replay(s.g, StepThread(s, t).lin) == Replay(s.g, s.lin) + [s.threads[t].id]
  {
    var stack, id := Replay(s.g, s.lin), s.threads[t].id;
    ReplayAppend(s.g, s.lin, LockedFree(t, id));
    DeallocPushesId(s.g, stack, id);
  }

  /** If c goes out of the whole h and c' comes in, and r changes the other way, r + h stays. */
  lemma Balance(r: multiset<nat>, c: multiset<nat>, h: multiset<nat>,
                r': multiset<nat>, c': multiset<nat>, h': multiset<nat>)
    requires r' + c' == r + c && h' + c == h + c'
    ensures r' + h' == r + h
  {
    forall x ensures (r' + h')[x] == (r + h)[x] {
      assert (r' + c')[x] == (r + c)[x] && (h' + c)[x] == (h + c')[x];
    }
  }

  lemma StepKeepsPartition(s: State, a: Act)
    requires s.g.Fits() && Locking(s) && Stacked(s) && Returning(s) && Partitioned(s) && Enabled(s, a)
    ensures Step(s, a).g == s.g && Partitioned(Step(s, a))
  {
    var s' := Step(s, a);
    EntriesMove(s, a);
    OneThreadMoves(s, a);
    HeldUpdate(s.g, s.threads, a.t, s'.threads[a.t]);
    Balance(multiset(Replay(s.g, s.lin)) + multiset(Ids(s.g, s.held)), multiset(Held(s.g, s.threads[a.t])),
            AllHeld(s.g, s.threads), multiset(Replay(s.g, s'.lin)) + multiset(Ids(s.g, s'.held)),
            multiset(Held(s.g, s'.threads[a.t])), AllHeld(s.g, s'.threads));
  }

  lemma GoReturns(s: State, t: nat)
    requires Enabled(s, Go(t)) && ReturnOk(s.g, s.threads[t]) && !s.threads[t].DCheck?
    requires s.threads[t].ARead? ==> Genuine(s.g, BlockOf(s.g, s.mem[s.top]))
    ensures var s' := StepThread(s, t);
            && |s'.threads| == |s.threads| && ReturnOk(s.g, s'.threads[t]) && !s'.aborted
            && (s'.held == s.held || (s'.held == s.held + [s.threads[t].blk] && Genuine(s.g, s.threads[t].blk)))
  {
  }

  lemma StepReturns(s: State, a: Act)
    requires s.g.Fits() && Locking(s) && Stacked(s) && Partitioned(s) && Returning(s) && Enabled(s, a)
    ensures |Step(s, a).threads| == |s.threads| && ReturnOk(s.g, Step(s, a).threads[a.t]) && !Step(s, a).aborted
    ensures forall i | 0 <= i < |Step(s, a).held| :: Genuine(s.g, Step(s, a).held[i])
  {
    assert ReturnOk(s.g, s.threads[a.t]);
    if a.Go? {
      if s.threads[a.t].ARead? { ReadKeepsPromise(s, a.t); }
      ThreadReturns(s, a.t);
    }
  }

  lemma ThreadReturns(s: State, t: nat)
    requires s.g.Fits() && Returning(s) && Enabled(s, Go(t))
    requires s.threads[t].ARead? ==> Genuine(s.g, BlockOf(s.g, s.mem[s.top]))
    ensures var s' := StepThread(s, t);
            && |s'.threads| == |s.threads| && ReturnOk(s.g, s'.threads[t]) && !s'.aborted
            && forall i | 0 <= i < |s'.held| :: Genuine(s.g, s'.held[i])
  {
    assert ReturnOk(s.g, s.threads[t]);
    if s.threads[t].DCheck? { ChecksPass(s, t); } else { GoReturns(s, t); }
  }

  lemma StepKeepsReturning(s: State, a: Act)
    requires s.g.Fits() && Locking(s) && Stacked(s) && Partitioned(s) && Returning(s) && Enabled(s, a)
    ensures Returning(Step(s, a)) && !Step(s, a).aborted
  {
    OneThreadMoves(s, a);
    StepReturns(s, a);
    forall t | 0 <= t < |s.threads| && t != a.t ensures ReturnOk(s.g, Step(s, a).threads[t]) {
      assert ReturnOk(s.g, s.threads[t]);
    }
  }

  lemma StepKeeps(s: State, a: Act)
    requires Inv(s) && Enabled(s, a)
    ensures Inv(Step(s, a))
  {
    StepKeepsLocking(s, a);
    StepKeepsStacked(s, a);
    StepKeepsResults(s, a);
    StepKeepsPartition(s, a);
    StepKeepsReturning(s, a);
  }

  // -- runs --------------------------------------------------------------------------------------

  ghost predicate ValidRun(s: State, acts: seq<Act>)
    decreases acts
  {
    acts == [] || (Enabled(s, acts[0]) && ValidRun(Step(s, acts[0]), acts[1..]))
  }

  ghost function Run(s: State, acts: seq<Act>): State
    requires ValidRun(s, acts)
    decreases acts
  {
    if acts == [] then s else Run(Step(s, acts[0]), acts[1..])
  }

  /** spinlock_stack_allocator_new, with n threads about to use it. */
  function Begin(g: Geometry, n: nat): State {
    State(g, false, g.num, FullStack(g.num), seq(n, _ => Idle), false, [], [], [], None)
  }

  lemma {:induction false} IdleHold(g: Geometry, threads: seq<Thread>)
    requires forall t | 0 <= t < |threads| :: threads[t].Idle?
    ensures AllHeld(g, threads) == multiset{}
  {
    if threads != [] { IdleHold(g, threads[1..]); }
  }

  lemma BeginOk(g: Geometry, n: nat)
    requires g.Fits()
    ensures Inv(Begin(g, n))
  {
    var s := Begin(g, n);
    IdentityStack(g.num);
    IdleHold(g, s.threads);
    assert s.mem[..s.top] == s.mem;
  }

  lemma {:induction false} RunKeeps(s: State, acts: seq<Act>)
    requires Inv(s) && ValidRun(s, acts)
    ensures Inv(Run(s, acts)) && Run(s, acts).g == s.g
    decreases acts
  {
    if acts != [] {
      StepKeeps(s, acts[0]);
      OneThreadMoves(s, acts[0]);
      RunKeeps(Step(s, acts[0]), acts[1..]);
    }
  }

  /** No unchecked array access is ever out of bounds: a thread that has something to do can always go on. */
  lemma NeverOutOfBounds(s: State, t: nat)
    requires Inv(s) && t < |s.threads| && !s.threads[t].Idle?
    ensures Enabled(s, Go(t))
  {
  }

  // -- the blocks that are out -------------------------------------------------------------------

  /** The block that thread t is about to return, if any. */
  predicate Delivering(s: State, t: nat) { t < |s.threads| && s.threads[t].ADone? && s.threads[t].blk != NULL }

  /** Blocks in clients' hands and blocks about to be returned lie in the region and are pairwise disjoint. */
  ghost predicate BlocksApart(s: State) {
    && (forall i | 0 <= i < |s.held| :: Inside(s.g, s.held[i]))
    && (forall i, j | 0 <= i < j < |s.held| :: DisjointBlocks(s.held[i], s.held[j]))
    && (forall t: nat | Delivering(s, t) :: Inside(s.g, s.threads[t].blk))
    && (forall t: nat, i | Delivering(s, t) && 0 <= i < |s.held| :: DisjointBlocks(s.threads[t].blk, s.held[i]))
    && (forall t: nat, u: nat | t < u && Delivering(s, t) && Delivering(s, u) ::
          DisjointBlocks(s.threads[t].blk, s.threads[u].blk))
  }

  lemma GenuineApart(g: Geometry, a: Blk, b: Blk)
    requires g.Fits() && Genuine(g, a) && Genuine(g, b) && IdOf(g, a) != IdOf(g, b)
    ensures DisjointBlocks(a, b)
  {
    BlocksDisjoint(g, IdOf(g, a), IdOf(g, b));
  }

  lemma GenuineInside(g: Geometry, a: Blk)
    requires g.Fits() && Genuine(g, a)
    ensures Inside(g, a)
  {
    IdRecovered(g, IdOf(g, a));
    Memory.Products(IdOf(g, a), g.num, g.entry);
  }

  lemma HandsApart(s: State, i: nat, j: nat)
    requires Inv(s) && i < j < |s.held|
    ensures DisjointBlocks(s.held[i], s.held[j])
  {
    var ids := Ids(s.g, s.held);
    var rest := multiset(Replay(s.g, s.lin)) + AllHeld(s.g, s.threads);
    assert multiset(ids) + rest == Universe(s.g.num);
    assert ids[i] in multiset(ids);
    Exclusive(s.g.num, multiset(ids), rest, ids[i]);
    OnePlace(ids, i, j);
    GenuineApart(s.g, s.held[i], s.held[j]);
  }

  lemma DeliveryApart(s: State, t: nat, i: nat)
    requires Inv(s) && Delivering(s, t) && i < |s.held|
    ensures DisjointBlocks(s.threads[t].blk, s.held[i])
  {
    var ids, x := Ids(s.g, s.held), IdOf(s.g, s.threads[t].blk);
    var rest := multiset(Replay(s.g, s.lin)) + multiset(ids);
    assert ReturnOk(s.g, s.threads[t]);
    HeldPart(s.g, s.threads, t, x);
    assert AllHeld(s.g, s.threads) + rest == Universe(s.g.num);
    Exclusive(s.g.num, AllHeld(s.g, s.threads), rest, x);
    assert ids[i] in multiset(ids);
    GenuineApart(s.g, s.threads[t].blk, s.held[i]);
  }

  /** Two threads with the same entry count it twice. */
  lemma {:induction false} TwoHolders(g: Geometry, threads: seq<Thread>, t: nat, u: nat, x: nat)
    requires t < u < |threads| && x in Held(g, threads[t]) && x in Held(g, threads[u])
    ensures AllHeld(g, threads)[x] >= 2
    decreases t
  {
    if t == 0 {
      HeldPart(g, threads[1..], u - 1, x);
      assert x in multiset(Held(g, threads[0]));
    } else {
      TwoHolders(g, threads[1..], t - 1, u - 1, x);
    }
  }

  lemma DeliveriesApart(s: State, t: nat, u: nat)
    requires Inv(s) && t < u && Delivering(s, t) && Delivering(s, u)
    ensures DisjointBlocks(s.threads[t].blk, s.threads[u].blk)
  {
    var x := IdOf(s.g, s.threads[t].blk);
    var rest := multiset(Replay(s.g, s.lin)) + multiset(Ids(s.g, s.held));
    assert ReturnOk(s.g, s.threads[t]) && ReturnOk(s.g, s.threads[u]);
    HeldPart(s.g, s.threads, t, x);
    assert AllHeld(s.g, s.threads) + rest == Universe(s.g.num);
    Exclusive(s.g.num, AllHeld(s.g, s.threads), rest, x);
    if x == IdOf(s.g, s.threads[u].blk) { TwoHolders(s.g, s.threads, t, u, x); }
    GenuineApart(s.g, s.threads[t].blk, s.threads[u].blk);
  }

  lemma OutApart(s: State)
    requires Inv(s)
    ensures BlocksApart(s)
  {
    forall i | 0 <= i < |s.held| ensures Inside(s.g, s.held[i]) { GenuineInside(s.g, s.held[i]); }
    forall i, j | 0 <= i < j < |s.held| ensures DisjointBlocks(s.held[i], s.held[j]) { HandsApart(s, i, j); }
    forall t: nat | Delivering(s, t) ensures Inside(s.g, s.threads[t].blk) {
      assert ReturnOk(s.g, s.threads[t]);
      GenuineInside(s.g, s.threads[t].blk);
    }
    forall t: nat, i | Delivering(s, t) && 0 <= i < |s.held| ensures DisjointBlocks(s.threads[t].blk, s.held[i]) {
      DeliveryApart(s, t, i);
    }
    forall t: nat, u: nat | t < u && Delivering(s, t) && Delivering(s, u)
      ensures DisjointBlocks(s.threads[t].blk, s.threads[u].blk)
    {
      DeliveriesApart(s, t, u);
    }
  }

  /** For any number of threads and any interleaving: at most one thread is in the critical section, exactly while the
      lock word is set; no check fails; every allocation returns what the sequential allocator returns when the
      operations run in the order in which they took the lock, and whenever the lock is free the stack is the
      sequential one; free entries, the entries of the blocks in clients' hands and travelling entries are all entries,
      each once; and the blocks that are out are pairwise disjoint and inside the region. */
  lemma Linearizable(g: Geometry, n: nat, acts: seq<Act>)
    requires g.Fits() && ValidRun(Begin(g, n), acts)
    ensures var s := Run(Begin(g, n), acts);
            && s.g == g && !s.aborted
            && (forall t, u | 0 <= t < |s.threads| && 0 <= u < |s.threads|
                              && InCrit(s.threads[t]) && InCrit(s.threads[u]) :: t == u)
            && (s.locked <==> exists t :: 0 <= t < |s.threads| && InCrit(s.threads[t]))
            && (!s.locked ==> s.top <= |s.mem| && s.mem[..s.top] == Replay(g, s.lin))
            && (forall i | 0 <= i < |s.rets| :: ResultOk(s, s.rets[i]))
            && Partitioned(s)
            && (forall i | 0 <= i < |s.held| :: Genuine(g, s.held[i]))
            && BlocksApart(s)
            && (forall t: nat | t < |s.threads| && !s.threads[t].Idle? :: Enabled(s, Go(t)))
  {
    BeginOk(g, n);
    RunKeeps(Begin(g, n), acts);
    var s := Run(Begin(g, n), acts);
    OutApart(s);
    if s.holder.Some? { assert InCrit(s.threads[s.holder.value]); }
    forall t: nat | t < |s.threads| && !s.threads[t].Idle? ensures Enabled(s, Go(t)) { NeverOutOfBounds(s, t); }
  }
}
