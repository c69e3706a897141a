/** The recursive spinlock under any number of threads and any interleaving of their single atomic steps, in
    sequentially consistent memory. Thread ids are the thread numbers: distinct and never -1. */
module RecursiveLock {
  import opened Wrappers

  const INT_MAX: nat := 0x7FFF_FFFF

  /** Control state inside rte_spinlock_recursive_lock and _trylock (`trying`) and _unlock. The increments and the
      decrement of `count` are a load and a store. */
  datatype Pc =
    | Outside
    | ReadUser(trying: bool)
    | TestAndSet(trying: bool)
    | Spin                             // reads the lock word until it is 0
    | SetUser(trying: bool)
    | LoadInc(trying: bool)
    | StoreInc(trying: bool, c: int)
    | LoadDec
    | StoreDec(c: int)
    | ClearUser
    | Release

  /** The three words of the lock; per thread its control state and how many locks it has taken and not given back.
      History: who owns the inner lock, and the results of trylock. */
  datatype State = State(
    locked: bool, user: int, count: int, pcs: seq<Pc>, depth: seq<nat>, owner: Option<nat>, tries: seq<(nat, bool)>)

  datatype Act = Lock(t: nat) | TryLock(t: nat) | Unlock(t: nat) | Go(t: nat)

  predicate Shape(s: State) { |s.pcs| == |s.depth| }

  /** Only holders unlock; nesting stays below the range of int. */
  predicate Enabled(s: State, a: Act) {
    && Shape(s) && a.t < |s.pcs|
    && match a
       case Lock(t) => s.pcs[t].Outside? && s.depth[t] < INT_MAX
       case TryLock(t) => s.pcs[t].Outside? && s.depth[t] < INT_MAX
       case Unlock(t) => s.pcs[t].Outside? && s.depth[t] > 0
       case Go(t) => !s.pcs[t].Outside?
  }

  function Set(s: State, t: nat, pc: Pc): State
    requires t < |s.pcs|
  {
    s.(pcs := s.pcs[t := pc])
  }

  function Step(s: State, a: Act): (s': State)
    requires Enabled(s, a)
    ensures |s'.pcs| == |s'.depth| == |s.pcs|
  {
    match a
    case Lock(t) => Set(s, t, ReadUser(false))
    case TryLock(t) => Set(s, t, ReadUser(true))
    case Unlock(t) => Set(s, t, LoadDec)
    case Go(t) => StepThread(s, t)
  }

  function StepThread(s: State, t: nat): (s': State)
    requires Enabled(s, Go(t))
    ensures |s'.pcs| == |s'.depth| == |s.pcs|
  {
    match s.pcs[t]
    case Outside => s
    case ReadUser(trying) => Set(s, t, if s.user != t then TestAndSet(trying) else LoadInc(trying))
    case TestAndSet(trying) =>
      if !s.locked then Set(s, t, SetUser(trying)).(locked := true, owner := Some(t))
      else if trying then Set(s, t, Outside).(tries := s.tries + [(t, false)])
      else Set(s, t, Spin)
    case Spin => if s.locked then s else Set(s, t, TestAndSet(false))
    case SetUser(trying) => Set(s, t, LoadInc(trying)).(user := t)
    case LoadInc(trying) => Set(s, t, StoreInc(trying, s.count))
    case StoreInc(trying, c) =>
      Set(s, t, Outside).(count := c + 1, depth := s.depth[t := s.depth[t] + 1],
                          tries := if trying then s.tries + [(t, true)] else s.tries)
    case LoadDec => Set(s, t, StoreDec(s.count))
    case StoreDec(c) =>
      if c - 1 == 0 then Set(s, t, ClearUser).(count := c - 1)
      else Set(s, t, Outside).(count := c - 1, depth := s.depth[t := if s.depth[t] > 0 then s.depth[t] - 1 else 0])
    case ClearUser => Set(s, t, Release).(user := -1)
    case Release =>
      Set(s, t, Outside).(locked := false, owner := None,
                          depth := s.depth[t := if s.depth[t] > 0 then s.depth[t] - 1 else 0])
  }

  // -- invariant ---------------------------------------------------------------------------------

  predicate Acquiring(pc: Pc) { pc.SetUser? || pc.LoadInc? || pc.StoreInc? }

  predicate Releasing(pc: Pc) { pc.LoadDec? || pc.StoreDec? || pc.ClearUser? || pc.Release? }

  /** The thread has the inner lock: from the test-and-set to the store that clears it. */
  predicate Holds(s: State, t: nat)
    requires Shape(s) && t < |s.pcs|
  {
    s.depth[t] > 0 || Acquiring(s.pcs[t])
  }

  /** What thread t is entitled to expect of its own control state. */
  predicate ThreadOk(s: State, t: nat)
    requires Shape(s) && t < |s.pcs|
  {
    && (s.pcs[t].TestAndSet? || s.pcs[t].Spin? || s.pcs[t].SetUser? ==> s.depth[t] == 0)
    && (Releasing(s.pcs[t]) ==> s.depth[t] > 0)
    && (s.pcs[t].ClearUser? || s.pcs[t].Release? ==> s.depth[t] == 1)
  }

  ghost predicate Owned(s: State)
    requires Shape(s)
  {
    && (s.locked <==> s.owner.Some?)
    && (s.owner.Some? ==> s.owner.value < |s.pcs|)
    && (forall t: nat | t < |s.pcs| :: ThreadOk(s, t) && (Holds(s, t) <==> s.owner == Some(t)))
  }

  /** The words `user` and `count`, given who owns the lock and where it is. */
  predicate Words(s: State)
    requires Shape(s)
  {
    match s.owner
    case None => s.user == -1 && s.count == 0
    case Some(h) =>
      h < |s.pcs| &&
      match s.pcs[h]
      case SetUser(_) => s.user == -1 && s.count == 0
      case StoreInc(_, c) => s.user == h && s.count == s.depth[h] == c
      case StoreDec(c) => s.user == h && s.count == s.depth[h] == c
      case ClearUser => s.user == h && s.count == 0
      case Release => s.user == -1 && s.count == 0
      case _ => s.user == h && s.count == s.depth[h]
  }

  ghost predicate Inv(s: State) { Shape(s) && Owned(s) && Words(s) }

  lemma StepKeepsWords(s: State, t: nat)
    requires Inv(s) && Enabled(s, Go(t))
    ensures Words(StepThread(s, t))
  {
    assert ThreadOk(s, t) && (Holds(s, t) <==> s.owner == Some(t));
  }

  lemma StepKeepsOwned(s: State, t: nat)
    requires Inv(s) && Enabled(s, Go(t))
    ensures Owned(StepThread(s, t))
  {
    assert ThreadOk(s, t) && (Holds(s, t) <==> s.owner == Some(t));
    var s' := StepThread(s, t);
    forall u: nat | u < |s.pcs| && u != t ensures ThreadOk(s', u) && (Holds(s', u) <==> s'.owner == Some(u)) {
      assert ThreadOk(s, u) && (Holds(s, u) <==> s.owner == Some(u));
    }
  }

  lemma CallKeeps(s: State, a: Act)
    requires Inv(s) && Enabled(s, a) && !a.Go?
    ensures Inv(Step(s, a))
  {
    var s' := Step(s, a);
    assert ThreadOk(s, a.t);
    forall u: nat | u < |s.pcs| ensures ThreadOk(s', u) && (Holds(s', u) <==> s'.owner == Some(u)) {
      assert ThreadOk(s, u) && (Holds(s, u) <==> s.owner == Some(u));
    }
  }

  lemma StepKeeps(s: State, a: Act)
    requires Inv(s) && Enabled(s, a)
    ensures Inv(Step(s, a))
  {
    if a.Go? {
      StepKeepsWords(s, a.t);
      StepKeepsOwned(s, a.t);
    } else {
      CallKeeps(s, a);
    }
  }

  // -- runs --------------------------------------------------------------------------------------

  ghost predicate ValidRun(s: State, acts: seq<Act>)
    decreases acts
  {
    acts == [] || (Enabled(s, acts[0]) && ValidRun(Step(s, acts[0]), acts[1..]))
  }

  ghost function Run(s: State, acts: seq<Act>): State
    requires ValidRun(s, acts)
    decreases acts
  {
    if acts == [] then s else Run(Step(s, acts[0]), acts[1..])
  }

  /** rte_spinlock_recursive_init, with n threads. */
  function Begin(n: nat): State { State(false, -1, 0, seq(n, _ => Outside), seq(n, _ => 0), None, []) }

  lemma {:induction false} RunKeeps(s: State, acts: seq<Act>)
    requires Inv(s) && ValidRun(s, acts)
    ensures Inv(Run(s, acts))
    decreases acts
  {
    if acts != [] {
      StepKeeps(s, acts[0]);
      RunKeeps(Step(s, acts[0]), acts[1..]);
    }
  }

  /** For any number of threads and any interleaving: at most one thread has locks outstanding; `user` names a thread
      only if that thread has the inner lock; the lock word is set exactly while some thread has it; and whenever the
      holder is between operations, `count` is its nesting depth. */
  lemma MutualExclusion(n: nat, acts: seq<Act>)
    requires ValidRun(Begin(n), acts)
    ensures var s := Run(Begin(n), acts);
            && Shape(s)
            && (forall t, u | 0 <= t < |s.pcs| && 0 <= u < |s.pcs| && s.depth[t] > 0 && s.depth[u] > 0 :: t == u)
            && (s.user == -1 || (0 <= s.user < |s.pcs| && Holds(s, s.user)))
            && (s.locked <==> exists t: nat :: t < |s.pcs| && Holds(s, t))
            && (forall t: nat | t < |s.pcs| && s.depth[t] > 0 && s.pcs[t].Outside? ::
                  s.user == t && s.count == s.depth[t])
  {
    RunKeeps(Begin(n), acts);
    var s := Run(Begin(n), acts);
    forall t, u | 0 <= t < |s.pcs| && 0 <= u < |s.pcs| && s.depth[t] > 0 && s.depth[u] > 0 ensures t == u {
      assert Holds(s, t) && Holds(s, u);
    }
    if s.owner.Some? { assert Holds(s, s.owner.value); }
    forall t: nat | t < |s.pcs| && s.depth[t] > 0 && s.pcs[t].Outside? ensures s.user == t && s.count == s.depth[t] {
      assert Holds(s, t);
    }
  }

  /** The unlocked reads of `user` are safe: a thread sees its own id exactly if it has the inner lock. */
  lemma UserReadIsSafe(s: State, t: nat)
    requires Inv(s) && t < |s.pcs| && s.pcs[t].ReadUser?
    ensures s.user == t <==> s.depth[t] > 0
  {
    assert Holds(s, t) <==> s.owner == Some(t);
    if s.user == t { assert s.owner.Some?; }
  }

  /** The unlock that gives up the inner lock is exactly the outermost one: a decrement goes on to clear `user` and
      the lock word if and only if one lock is outstanding. */
  lemma ReleasesAtOutermost(s: State, t: nat)
    requires Inv(s) && t < |s.pcs| && s.pcs[t].StoreDec?
    ensures var s' := StepThread(s, t);
            && (s'.pcs[t].ClearUser? <==> s.depth[t] == 1)
            && (s.depth[t] > 1 ==> s'.pcs[t].Outside? && s'.depth[t] == s.depth[t] - 1 && s'.locked && s'.user == t)
  {
    assert ThreadOk(s, t) && (Holds(s, t) <==> s.owner == Some(t));
  }

  /** trylock fails only if another thread has the inner lock, and then changes nothing. */
  lemma TryLockFailsOnlyForOthers(s: State, t: nat)
    requires Inv(s) && t < |s.pcs| && s.pcs[t] == TestAndSet(true) && StepThread(s, t).pcs[t].Outside?
    ensures s.owner.Some? && s.owner.value != t
    ensures var s' := StepThread(s, t);
            s'.locked == s.locked && s'.user == s.user && s'.count == s.count && s'.depth == s.depth
  {
    assert ThreadOk(s, t) && (Holds(s, t) <==> s.owner == Some(t));
  }
}
