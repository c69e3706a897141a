/** Trees of fallback allocators, and the flat list of leaves they amount to. */
module Fallback {
  import opened Wrappers
  import opened StackAllocator
  import opened Ownership
  import Memory
  import Dma = DmaAllocator

  datatype Leaf = NullLeaf | MallocLeaf | DmaLeaf | StackLeaf(g: Geometry, stack: seq<nat>)

  datatype Tree = One(leaf: Leaf) | Fallback(primary: Tree, secondary: Tree)

  // -- leaves ------------------------------------------------------------------------------------

  predicate ClaimsAll(l: Leaf) { l.MallocLeaf? || l.DmaLeaf? }

  predicate LeafOwns(l: Leaf, blk: Blk) { ClaimsAll(l) || (l.StackLeaf? && Owns(l.g, blk)) }

  /** `addr` is what malloc or mmap returns, if asked. */
  function LeafAlloc(l: Leaf, size: nat, addr: nat): (Leaf, Blk) {
    match l
    case NullLeaf => (l, NULL)
    case MallocLeaf => (l, Blk(addr, size))
    case DmaLeaf => (l, Blk(addr, Dma.RoundUp(size)))
    case StackLeaf(g, stack) => (StackLeaf(g, Alloc(g, stack, size).0), Alloc(g, stack, size).1)
  }

  /** None is a call of error(). A stack allocator's entry size is never 0. */
  function LeafDealloc(l: Leaf, blk: Blk): Option<Leaf> {
    match l
    case NullLeaf => if blk != NULL then None else Some(l)
    case MallocLeaf => Some(l)
    case DmaLeaf => Some(l)
    case StackLeaf(g, stack) =>
      if g.entry == 0 then None
      else match Dealloc(g, stack, blk)
           case None => None
           case Some(s) => Some(StackLeaf(g, s))
  }

  // -- trees -------------------------------------------------------------------------------------

  // The functions of a struct allocator, as its children see them: owns and deallocate with the block fixed, and
  // allocate with the size fixed. A leaf's number selects the address that malloc or mmap would give it.
  type OwnsFn = Leaf -> bool
  type FreeFn = Leaf -> Option<Leaf>
  type AskFn = (Leaf, nat) -> (Leaf, Blk)

  function OwnsOf(blk: Blk): OwnsFn { l => LeafOwns(l, blk) }

  function FreeOf(blk: Blk): FreeFn { l => LeafDealloc(l, blk) }

  function AskOf(size: nat, env: nat -> nat): AskFn {
    (l: Leaf, k: nat) => LeafAlloc(l, size, env(k))
  }

  function Leaves(t: Tree): (ls: seq<Leaf>)
    ensures |ls| >= 1
  {
    match t
    case One(l) => [l]
    case Fallback(p, s) => Leaves(p) + Leaves(s)
  }

  predicate TreeOwns(t: Tree, owns: OwnsFn) {
    match t
    case One(l) => owns(l)
    case Fallback(p, s) => TreeOwns(p, owns) || TreeOwns(s, owns)
  }

  /** Allocation; leaves are numbered from k on. The third result is the number of the leaf that answered. */
  function TreeAlloc(t: Tree, ask: AskFn, k: nat): (Tree, Blk, nat) {
    match t
    case One(l) => (One(ask(l, k).0), ask(l, k).1, k)
    case Fallback(p, s) =>
      var (p', b, i) := TreeAlloc(p, ask, k);
      if b.ptr != 0 then (Fallback(p', s), b, i)
      else
        var (s', b', i') := TreeAlloc(s, ask, k + |Leaves(p)|);
        (Fallback(p', s'), b', i')
  }

  /** A tree with the left subtree replaced, if that is defined. */
  function WithLeft(p': Option<Tree>, s: Tree): Option<Tree> {
    match p' case None => None case Some(q) => Some(Fallback(q, s))
  }

  function WithRight(p: Tree, s': Option<Tree>): Option<Tree> {
    match s' case None => None case Some(q) => Some(Fallback(p, q))
  }

  /** Deallocation, with the number of the leaf it reaches. */
  function TreeDealloc(t: Tree, owns: OwnsFn, free: FreeFn, k: nat): (Option<Tree>, nat) {
    match t
    case One(l) => ((match free(l) case None => None case Some(l') => Some(One(l'))), k)
    case Fallback(p, s) =>
      if TreeOwns(p, owns) then
        var (p', i) := TreeDealloc(p, owns, free, k);
        (WithLeft(p', s), i)
      else
        var (s', i) := TreeDealloc(s, owns, free, k + |Leaves(p)|);
        (WithRight(p, s'), i)
  }

  // -- the flat form -----------------------------------------------------------------------------

  /** The first leaf that gives a block answers; if none does, the last one's answer stands. */
  function ListAlloc(ls: seq<Leaf>, ask: AskFn, k: nat): (r: (seq<Leaf>, Blk, nat))
    requires |ls| >= 1
    ensures |r.0| == |ls| && k <= r.2 < k + |ls|
    decreases |ls|
  {
    var (l, b) := ask(ls[0], k);
    if |ls| == 1 || b.ptr != 0 then ([l] + ls[1..], b, k)
    else
      var (rest, b', i) := ListAlloc(ls[1..], ask, k + 1);
      ([l] + rest, b', i)
  }

  /** The first leaf that owns the block, or the last leaf. */
  function FirstOwner(ls: seq<Leaf>, owns: OwnsFn): (i: nat)
    requires |ls| >= 1
    ensures i < |ls|
    ensures forall j | 0 <= j < i :: !owns(ls[j])
    ensures owns(ls[i]) || i == |ls| - 1
  {
    if |ls| == 1 || owns(ls[0]) then 0 else 1 + FirstOwner(ls[1..], owns)
  }

  lemma {:induction false} ListAllocConcat(a: seq<Leaf>, b: seq<Leaf>, ask: AskFn, k: nat)
    requires |a| >= 1 && |b| >= 1
    ensures var (a', x, i) := ListAlloc(a, ask, k);
            var (b', y, j) := ListAlloc(b, ask, k + |a|);
            ListAlloc(a + b, ask, k) == if x.ptr != 0 then (a' + b, x, i) else (a' + b', y, j)
    decreases |a|
  {
    var (l, x) := ask(a[0], k);
    if |a| == 1 {
      assert (a + b)[1..] == b && [l] + a[1..] == [l];
    } else {
      assert (a + b)[1..] == a[1..] + b;
      if x.ptr == 0 {
        ListAllocConcat(a[1..], b, ask, k + 1);
        var (a', x', i) := ListAlloc(a[1..], ask, k + 1);
        var (b', y, j) := ListAlloc(b, ask, k + |a|);
        assert [l] + (a' + b) == ([l] + a') + b;
        assert [l] + (a' + b') == ([l] + a') + b';
      } else {
        assert [l] + (a[1..] + b) == ([l] + a[1..]) + b;
      }
    }
  }

  /** Allocation in a tree is allocation in its list of leaves. */
  lemma {:induction false} TreeAllocIsListAlloc(t: Tree, ask: AskFn, k: nat)
    ensures var (t', b, i) := TreeAlloc(t, ask, k);
            (Leaves(t'), b, i) == ListAlloc(Leaves(t), ask, k)
  {
    match t
    case One(l) =>
      assert [ask(l, k).0] + Leaves(t)[1..] == [ask(l, k).0];
    case Fallback(p, s) =>
      TreeAllocIsListAlloc(p, ask, k);
      TreeAllocIsListAlloc(s, ask, k + |Leaves(p)|);
      ListAllocConcat(Leaves(p), Leaves(s), ask, k);
  }

  ghost predicate SomeOwner(ls: seq<Leaf>, owns: OwnsFn) { exists i :: 0 <= i < |ls| && owns(ls[i]) }

  lemma SomeOwnerConcat(a: seq<Leaf>, b: seq<Leaf>, owns: OwnsFn)
    ensures SomeOwner(a + b, owns) <==> SomeOwner(a, owns) || SomeOwner(b, owns)
  {
    var n := |a|;
    if i :| 0 <= i < n && owns(a[i]) { assert owns((a + b)[i]); }
    if i :| 0 <= i < |b| && owns(b[i]) { assert owns((a + b)[n + i]); }
    if i :| 0 <= i < |a + b| && owns((a + b)[i]) {
      assert if i < n then owns(a[i]) else owns(b[i - n]);
    }
  }

  lemma {:induction false} TreeOwnsIff(t: Tree, owns: OwnsFn)
    ensures TreeOwns(t, owns) <==> SomeOwner(Leaves(t), owns)
  {
    match t
    case One(l) =>
      assert Leaves(t)[0] == l;
    case Fallback(p, s) =>
      TreeOwnsIff(p, owns);
      TreeOwnsIff(s, owns);
      SomeOwnerConcat(Leaves(p), Leaves(s), owns);
  }

  lemma {:induction false} FirstOwnerConcat(a: seq<Leaf>, b: seq<Leaf>, owns: OwnsFn)
    requires |a| >= 1 && |b| >= 1
    ensures FirstOwner(a + b, owns) == if SomeOwner(a, owns) then FirstOwner(a, owns) else |a| + FirstOwner(b, owns)
    decreases |a|
  {
    assert (a + b)[0] == a[0] && (a + b)[1..] == a[1..] + b;
    if |a| == 1 {
      assert a[1..] + b == b;
    } else if !owns(a[0]) {
      FirstOwnerConcat(a[1..], b, owns);
      assert a == [a[0]] + a[1..];
      SomeOwnerConcat([a[0]], a[1..], owns);
    }
  }

  /** Only leaf f of the list ls changes, and as `free` says; error() there is error() here. */
  ghost predicate Reaches(ls: seq<Leaf>, free: FreeFn, f: nat, t': Option<Tree>)
    requires f < |ls|
  {
    match free(ls[f])
    case None => t'.None?
    case Some(l) => t'.Some? && Leaves(t'.value) == ls[f := l]
  }

  lemma UpdateConcat(a: seq<Leaf>, b: seq<Leaf>, k: nat, l: Leaf)
    requires k < |a| + |b|
    ensures (a + b)[k := l] == if k < |a| then a[k := l] + b else a + b[k - |a| := l]
  {
  }

  lemma LeftReaches(p: Tree, s: Tree, free: FreeFn, f: nat, p': Option<Tree>)
    requires f < |Leaves(p)| && Reaches(Leaves(p), free, f, p')
    ensures Reaches(Leaves(p) + Leaves(s), free, f, WithLeft(p', s))
  {
    var a, b := Leaves(p), Leaves(s);
    assert (a + b)[f] == a[f];
    if p'.Some? { UpdateConcat(a, b, f, free(a[f]).value); }
  }

  lemma RightReaches(p: Tree, s: Tree, free: FreeFn, f: nat, s': Option<Tree>)
    requires f < |Leaves(s)| && Reaches(Leaves(s), free, f, s')
    ensures Reaches(Leaves(p) + Leaves(s), free, |Leaves(p)| + f, WithRight(p, s'))
  {
    var a, b, k := Leaves(p), Leaves(s), |Leaves(p)| + f;
    assert (a + b)[k] == b[f];
    if s'.Some? { UpdateConcat(a, b, k, free(b[f]).value); }
  }

  /** Deallocation in a tree reaches the first leaf that owns the block, or else the last leaf; only that leaf
      changes. */
  lemma {:induction false} TreeDeallocReaches(t: Tree, owns: OwnsFn, free: FreeFn, k: nat)
    ensures TreeDealloc(t, owns, free, k).1 == k + FirstOwner(Leaves(t), owns)
    ensures Reaches(Leaves(t), free, FirstOwner(Leaves(t), owns), TreeDealloc(t, owns, free, k).0)
  {
    match t
    case One(l) =>
    case Fallback(p, s) =>
      TreeOwnsIff(p, owns);
      FirstOwnerConcat(Leaves(p), Leaves(s), owns);
      if TreeOwns(p, owns) {
        TreeDeallocReaches(p, owns, free, k);
        LeftReaches(p, s, free, FirstOwner(Leaves(p), owns), TreeDealloc(p, owns, free, k).0);
      } else {
        TreeDeallocReaches(s, owns, free, k + |Leaves(p)|);
        RightReaches(p, s, free, FirstOwner(Leaves(s), owns), TreeDealloc(s, owns, free, k + |Leaves(p)|).0);
      }
  }

  // -- routing -----------------------------------------------------------------------------------

  predicate InRegion(g: Geometry, ptr: nat) { g.base <= ptr < g.base + g.num * g.entry }

  /** Stack regions do not wrap and do not overlap. */
  ghost predicate Separate(ls: seq<Leaf>) {
    && (forall i | 0 <= i < |ls| && ls[i].StackLeaf? :: ls[i].g.Fits())
    && (forall i, j | 0 <= i < j < |ls| && ls[i].StackLeaf? && ls[j].StackLeaf? ::
          Apart(ls[i].g, ls[j].g))
  }

  predicate Apart(a: Geometry, b: Geometry) {
    a.base + a.num * a.entry <= b.base || b.base + b.num * b.entry <= a.base
  }

  ghost predicate OutsideStacks(ls: seq<Leaf>, ptr: nat) {
    forall i | 0 <= i < |ls| && ls[i].StackLeaf? :: !InRegion(ls[i].g, ptr)
  }

  /** Blocks that leaf j may hand out: one of its entries, or memory outside every stack region. */
  ghost predicate CanIssue(ls: seq<Leaf>, j: nat, blk: Blk)
    requires j < |ls|
  {
    match ls[j]
    case NullLeaf => false
    case StackLeaf(g, _) => exists id: nat :: id < g.num && blk == BlockOf(g, id)
    case _ => blk.ptr != 0 && OutsideStacks(ls, blk.ptr)
  }

  /** Whether the leaf hands out blocks at all. */
  predicate Issues(l: Leaf) { ClaimsAll(l) || (l.StackLeaf? && l.g.num > 0) }

  /** A leaf that claims everything has no leaf behind it that hands out blocks. */
  ghost predicate ClaimsLast(ls: seq<Leaf>) {
    forall i, j | 0 <= i < j < |ls| && ClaimsAll(ls[i]) :: !Issues(ls[j])
  }

  lemma StackBlock(g: Geometry, id: nat)
    requires g.Fits() && id < g.num
    ensures Owns(g, BlockOf(g, id)) && InRegion(g, BlockOf(g, id).ptr) && BlockOf(g, id).ptr != 0
  {
    IdRecovered(g, id);
    OwnsIsRegion(g, BlockOf(g, id));
  }

  lemma OwnsIsRegion(g: Geometry, blk: Blk)
    requires g.Fits()
    ensures Owns(g, blk) <==> InRegion(g, blk.ptr)
  {
    Memory.SmallMod(g.num * g.entry);
  }

  lemma IssuerOwns(ls: seq<Leaf>, j: nat, blk: Blk)
    requires Separate(ls) && j < |ls| && CanIssue(ls, j, blk)
    ensures LeafOwns(ls[j], blk) && blk.ptr != 0 && Issues(ls[j])
    ensures ls[j].StackLeaf? ==> InRegion(ls[j].g, blk.ptr)
  {
    if ls[j].StackLeaf? {
      var id: nat :| id < ls[j].g.num && blk == BlockOf(ls[j].g, id);
      StackBlock(ls[j].g, id);
    }
  }

  /** No other stack leaf owns a block of leaf j. */
  lemma StrangersDoNotOwn(ls: seq<Leaf>, i: nat, j: nat, blk: Blk)
    requires Separate(ls) && i < |ls| && j < |ls| && i != j && CanIssue(ls, j, blk) && !ClaimsAll(ls[i])
    ensures !LeafOwns(ls[i], blk)
  {
    IssuerOwns(ls, j, blk);
    if ls[i].StackLeaf? {
      OwnsIsRegion(ls[i].g, blk);
      if ls[j].StackLeaf? { assert i < j ==> Apart(ls[i].g, ls[j].g); }
    }
  }

  lemma IssuedIsRouted(ls: seq<Leaf>, j: nat, blk: Blk)
    requires Separate(ls) && j < |ls| && CanIssue(ls, j, blk) && forall i | 0 <= i < j :: !ClaimsAll(ls[i])
    ensures FirstOwner(ls, OwnsOf(blk)) == j
  {
    IssuerOwns(ls, j, blk);
    var f := FirstOwner(ls, OwnsOf(blk));
    assert OwnsOf(blk)(ls[j]);
    if f < j {
      assert OwnsOf(blk)(ls[f]);
      StrangersDoNotOwn(ls, f, j, blk);
    }
  }

  /** An address behind every stack region. */
  function Beyond(ls: seq<Leaf>): (p: nat)
    ensures p > 0
    ensures forall i | 0 <= i < |ls| && ls[i].StackLeaf? :: ls[i].g.base + ls[i].g.num * ls[i].g.entry <= p
  {
    if ls == [] then 1
    else Beyond(ls[1..]) + if ls[0].StackLeaf? then ls[0].g.base + ls[0].g.num * ls[0].g.entry else 0
  }

  lemma SomethingToIssue(ls: seq<Leaf>, j: nat) returns (blk: Blk)
    requires j < |ls| && Issues(ls[j])
    ensures CanIssue(ls, j, blk)
  {
    if ls[j].StackLeaf? {
      blk := BlockOf(ls[j].g, 0);
    } else {
      blk := Blk(Beyond(ls), 0);
      forall i | 0 <= i < |ls| && ls[i].StackLeaf? ensures !InRegion(ls[i].g, blk.ptr) {}
    }
  }

  /** In a tree with separate stack regions, every block that can be issued is deallocated by the leaf that issued it,
      exactly if no leaf that claims everything stands before a leaf that hands out blocks. */
  lemma RoutesHomeIff(t: Tree)
    requires Separate(Leaves(t))
    ensures (forall j: nat, blk | j < |Leaves(t)| && CanIssue(Leaves(t), j, blk) ::
               TreeDealloc(t, OwnsOf(blk), FreeOf(blk), 0).1 == j)
            <==> ClaimsLast(Leaves(t))
  {
    var ls := Leaves(t);
    if ClaimsLast(ls) {
      forall j: nat, blk | j < |ls| && CanIssue(ls, j, blk)
        ensures TreeDealloc(t, OwnsOf(blk), FreeOf(blk), 0).1 == j
      {
        TreeDeallocReaches(t, OwnsOf(blk), FreeOf(blk), 0);
        IssuerOwns(ls, j, blk);
        IssuedIsRouted(ls, j, blk);
      }
    } else {
      var i: nat, j: nat :| i < j < |ls| && ClaimsAll(ls[i]) && Issues(ls[j]);
      var blk := SomethingToIssue(ls, j);
      TreeDeallocReaches(t, OwnsOf(blk), FreeOf(blk), 0);
      assert OwnsOf(blk)(ls[i]);
      assert FirstOwner(ls, OwnsOf(blk)) <= i;
      assert TreeDealloc(t, OwnsOf(blk), FreeOf(blk), 0).1 != j;
    }
  }

  // -- runs --------------------------------------------------------------------------------------

  /** A block in the client's hands, with the number of the leaf that issued it. */
  datatype Live = Live(leaf: nat, blk: Blk)

  datatype Sys = Sys(t: Tree, live: seq<Live>)

  datatype Op = AllocOp(size: nat, env: nat -> nat) | DeallocOp(i: nat)

  /** None if error() is called. A deallocation names one of the live blocks. */
  function Step(s: Sys, op: Op): Option<Sys>
    requires op.DeallocOp? ==> op.i < |s.live|
  {
    match op
    case AllocOp(size, env) =>
      var (t, blk, leaf) := TreeAlloc(s.t, AskOf(size, env), 0);
      Some(Sys(t, if blk.ptr == 0 then s.live else s.live + [Live(leaf, blk)]))
    case DeallocOp(i) =>
      var blk := s.live[i].blk;
      match TreeDealloc(s.t, OwnsOf(blk), FreeOf(blk), 0).0
      case None => None
      case Some(t) => Some(Sys(t, s.live[..i] + s.live[i + 1..]))
  }

  /** malloc returns NULL or memory outside the stack regions. The DMA allocator never returns NULL: it returns such
      memory, or the program exits and the run is over. */
  ghost predicate EnvOk(ls: seq<Leaf>, env: nat -> nat) {
    && (forall k: nat :: env(k) == 0 || OutsideStacks(ls, env(k)))
    && (forall k: nat | k < |ls| && ls[k].DmaLeaf? :: env(k) != 0)
  }

  ghost predicate Permitted(s: Sys, op: Op) {
    match op
    case AllocOp(_, env) => EnvOk(Leaves(s.t), env)
    case DeallocOp(i) => i < |s.live|
  }

  /** The entries of leaf j that are live. */
  ghost function LiveIds(g: Geometry, live: seq<Live>, j: nat): multiset<nat>
    requires g.entry > 0
  {
    if live == [] then multiset{}
    else (if live[0].leaf == j && EntryId(g, live[0].blk.ptr) >= 0 then multiset{EntryId(g, live[0].blk.ptr) as nat}
          else multiset{})
         + LiveIds(g, live[1..], j)
  }

  /** Free and live entries of leaf j are all its entries, each once. */
  ghost predicate Balanced(ls: seq<Leaf>, live: seq<Live>, j: nat)
    requires j < |ls|
  {
    ls[j].StackLeaf? ==>
      ls[j].g.Fits() && multiset(ls[j].stack) + LiveIds(ls[j].g, live, j) == Universe(ls[j].g.num)
  }

  /** No DMA allocator stands before leaf j and answers every request. */
  predicate CanBeAsked(ls: seq<Leaf>, j: nat)
    requires j <= |ls|
  {
    forall i | 0 <= i < j :: !ls[i].DmaLeaf?
  }

  /** A malloc leaf has no leaf behind it that is ever asked and hands out blocks. */
  ghost predicate NoneBehindMalloc(ls: seq<Leaf>) {
    forall i, j | 0 <= i < j < |ls| && ls[i].MallocLeaf? && CanBeAsked(ls, j) :: !Issues(ls[j])
  }

  /** The block is one that its leaf may hand out, and the leaf may have been asked. */
  ghost predicate LiveOk(ls: seq<Leaf>, l: Live) {
    l.leaf < |ls| && CanIssue(ls, l.leaf, l.blk) && CanBeAsked(ls, l.leaf)
  }

  ghost predicate Inv(ls: seq<Leaf>, live: seq<Live>) {
    && Separate(ls) && NoneBehindMalloc(ls)
    && (forall k | 0 <= k < |live| :: LiveOk(ls, live[k]))
    && (forall j: nat | j < |ls| :: Balanced(ls, live, j))
  }

  lemma {:induction false} LiveIdsConcat(g: Geometry, a: seq<Live>, b: seq<Live>, j: nat)
    requires g.entry > 0
    ensures LiveIds(g, a + b, j) == LiveIds(g, a, j) + LiveIds(g, b, j)
    decreases |a|
  {
    if a == [] {
      assert a + b == b;
    } else {
      assert (a + b)[1..] == a[1..] + b;
      LiveIdsConcat(g, a[1..], b, j);
    }
  }

  lemma LiveIdsOne(g: Geometry, l: Live, j: nat)
    requires g.entry > 0
    ensures LiveIds(g, [l], j) == if l.leaf == j && EntryId(g, l.blk.ptr) >= 0
                                  then multiset{EntryId(g, l.blk.ptr) as nat} else multiset{}
  {
    assert [l][1..] == [];
  }

  /** A list in which only the stack of leaf f has changed. */
  ghost predicate SameBut(ls: seq<Leaf>, ls': seq<Leaf>, f: nat) {
    && f < |ls| == |ls'|
    && (forall i | 0 <= i < |ls| && i != f :: ls'[i] == ls[i])
    && (if ls[f].StackLeaf? then ls'[f].StackLeaf? && ls'[f].g == ls[f].g else ls'[f] == ls[f])
  }

  lemma SameButAsked(ls: seq<Leaf>, ls': seq<Leaf>, f: nat)
    requires SameBut(ls, ls', f)
    ensures forall j: nat | j < |ls| :: CanBeAsked(ls', j) <==> CanBeAsked(ls, j)
    ensures forall j | 0 <= j < |ls| :: Issues(ls'[j]) == Issues(ls[j]) && ls'[j].MallocLeaf? == ls[j].MallocLeaf?
  {
    assert forall j | 0 <= j < |ls| :: ls'[j].DmaLeaf? == ls[j].DmaLeaf?;
  }

  lemma SameButIssues(ls: seq<Leaf>, ls': seq<Leaf>, f: nat)
    requires SameBut(ls, ls', f)
    ensures Separate(ls) ==> Separate(ls')
    ensures NoneBehindMalloc(ls) ==> NoneBehindMalloc(ls')
    ensures forall j: nat | j < |ls| && CanBeAsked(ls, j) :: CanBeAsked(ls', j)
    ensures forall l | LiveOk(ls, l) :: LiveOk(ls', l)
  {
    assert forall i | 0 <= i < |ls| && ls[i].StackLeaf? :: ls'[i].StackLeaf? && ls'[i].g == ls[i].g;
    SameButAsked(ls, ls', f);
    forall ptr: nat | OutsideStacks(ls, ptr) ensures OutsideStacks(ls', ptr) {
      forall i | 0 <= i < |ls'| && ls'[i].StackLeaf? ensures !InRegion(ls'[i].g, ptr) { assert ls[i].StackLeaf?; }
    }
  }

  // -- allocation keeps the invariant

  ghost predicate FailureKeeps(ls: seq<Leaf>, ask: AskFn) {
    forall i, k: nat | 0 <= i < |ls| && ask(ls[i], k).1.ptr == 0 :: ask(ls[i], k).0 == ls[i]
  }

  /** Allocation changes at most the leaf that answers. */
  lemma {:induction false} ListAllocTouchesOne(ls: seq<Leaf>, ask: AskFn, k: nat)
    requires |ls| >= 1 && FailureKeeps(ls, ask)
    ensures var (ls', b, i) := ListAlloc(ls, ask, k);
            && b == ask(ls[i - k], i).1
            && ls' == ls[i - k := ask(ls[i - k], i).0]
            && (b.ptr == 0 ==> ls' == ls)
    decreases |ls|
  {
    var (l, b) := ask(ls[0], k);
    assert ls == [ls[0]] + ls[1..];
    if |ls| > 1 && b.ptr == 0 {
      FailureKeepsRest(ls, ask);
      ListAllocTouchesOne(ls[1..], ask, k + 1);
      var i := ListAlloc(ls[1..], ask, k + 1).2;
      UpdateConcat([ls[0]], ls[1..], i - k, ask(ls[i - k], i).0);
    }
  }

  lemma FailureKeepsRest(ls: seq<Leaf>, ask: AskFn)
    requires |ls| >= 1 && FailureKeeps(ls, ask)
    ensures FailureKeeps(ls[1..], ask)
  {
    forall i, k: nat | 0 <= i < |ls[1..]| && ask(ls[1..][i], k).1.ptr == 0 ensures ask(ls[1..][i], k).0 == ls[1..][i] {
      assert ask(ls[i + 1], k).0 == ls[i + 1];
    }
  }

  /** What the answering leaf hands out, it may issue; and the change is confined to its stack. */
  lemma AnswerIsIssued(ls: seq<Leaf>, live: seq<Live>, f: nat, size: nat, addr: nat)
    requires Separate(ls) && f < |ls| && Balanced(ls, live, f) && (addr == 0 || OutsideStacks(ls, addr))
    ensures LeafAlloc(ls[f], size, addr).1.ptr == 0 ==> LeafAlloc(ls[f], size, addr).0 == ls[f]
    ensures LeafAlloc(ls[f], size, addr).1.ptr != 0 ==>
              && CanIssue(ls, f, LeafAlloc(ls[f], size, addr).1)
              && SameBut(ls, ls[f := LeafAlloc(ls[f], size, addr).0], f)
  {
    if ls[f].StackLeaf? && ls[f].stack != [] && size <= ls[f].g.entry {
      TopIsEntry(ls[f].g, ls[f].stack, LiveIds(ls[f].g, live, f));
    }
  }

  lemma TopIsEntry(g: Geometry, stack: seq<nat>, rest: multiset<nat>)
    requires stack != [] && multiset(stack) + rest == Universe(g.num)
    ensures stack[|stack| - 1] < g.num
  {
    assert stack[|stack| - 1] in multiset(stack);
    Exclusive(g.num, multiset(stack), rest, stack[|stack| - 1]);
  }

  lemma AllocBalances(ls: seq<Leaf>, live: seq<Live>, f: nat, size: nat, addr: nat, j: nat)
    requires f < |ls| && j < |ls| && Balanced(ls, live, j) && LeafAlloc(ls[f], size, addr).1.ptr != 0
    ensures Balanced(ls[f := LeafAlloc(ls[f], size, addr).0], live + [Live(f, LeafAlloc(ls[f], size, addr).1)], j)
  {
    var (l, b) := LeafAlloc(ls[f], size, addr);
    if ls[j].StackLeaf? {
      var g, stack := ls[j].g, ls[j].stack;
      LiveIdsConcat(g, live, [Live(f, b)], j);
      LiveIdsOne(g, Live(f, b), j);
      if j == f {
        TopIsEntry(g, stack, LiveIds(g, live, j));
        IdRecovered(g, stack[|stack| - 1]);
        TopMoves(stack, LiveIds(g, live, j));
      }
    }
  }

  lemma TopMoves(stack: seq<nat>, live: multiset<nat>)
    requires stack != []
    ensures multiset(stack[..|stack| - 1]) + (live + multiset{stack[|stack| - 1]}) == multiset(stack) + live
  {
    Popped(stack);
  }

  lemma AskFailureKeeps(ls: seq<Leaf>, live: seq<Live>, size: nat, env: nat -> nat)
    requires Inv(ls, live) && EnvOk(ls, env)
    ensures FailureKeeps(ls, AskOf(size, env))
  {
    var ask := AskOf(size, env);
    forall i, k: nat | 0 <= i < |ls| && ask(ls[i], k).1.ptr == 0 ensures ask(ls[i], k).0 == ls[i] {
      assert Balanced(ls, live, i);
      AnswerIsIssued(ls, live, i, size, env(k));
    }
  }

  lemma AnswerKeeps(ls: seq<Leaf>, live: seq<Live>, f: nat, size: nat, addr: nat)
    requires Inv(ls, live) && f < |ls| && CanBeAsked(ls, f) && (addr == 0 || OutsideStacks(ls, addr))
    requires LeafAlloc(ls[f], size, addr).1.ptr != 0
    ensures Inv(ls[f := LeafAlloc(ls[f], size, addr).0], live + [Live(f, LeafAlloc(ls[f], size, addr).1)])
  {
    var (l, b) := LeafAlloc(ls[f], size, addr);
    var ls' := ls[f := l];
    assert Balanced(ls, live, f);
    AnswerIsIssued(ls, live, f, size, addr);
    SameButIssues(ls, ls', f);
    forall j: nat | j < |ls'| ensures Balanced(ls', live + [Live(f, b)], j) {
      assert Balanced(ls, live, j);
      AllocBalances(ls, live, f, size, addr, j);
    }
  }

  lemma AllocKeeps(ls: seq<Leaf>, live: seq<Live>, size: nat, env: nat -> nat)
    requires |ls| >= 1 && Inv(ls, live) && EnvOk(ls, env)
    ensures var (ls', b, f) := ListAlloc(ls, AskOf(size, env), 0);
            Inv(ls', if b.ptr == 0 then live else live + [Live(f, b)])
  {
    AskFailureKeeps(ls, live, size, env);
    var f := AnswerOf(ls, size, env);
    if LeafAlloc(ls[f], size, env(f)).1.ptr != 0 { AnswerKeeps(ls, live, f, size, env(f)); }
  }

  /** The leaf that answers: only it changes, and it was asked because no leaf before it had anything. */
  lemma AnswerOf(ls: seq<Leaf>, size: nat, env: nat -> nat) returns (f: nat)
    requires |ls| >= 1 && FailureKeeps(ls, AskOf(size, env)) && EnvOk(ls, env)
    ensures f < |ls| && CanBeAsked(ls, f)
    ensures var (l, b) := LeafAlloc(ls[f], size, env(f));
            && ListAlloc(ls, AskOf(size, env), 0) == (ls[f := l], b, f)
            && (b.ptr == 0 ==> ls[f := l] == ls)
  {
    var ask := AskOf(size, env);
    ListAllocTouchesOne(ls, ask, 0);
    f := ListAlloc(ls, ask, 0).2;
    AskedInTurn(ls, size, env, f);
  }

  lemma AskedInTurn(ls: seq<Leaf>, size: nat, env: nat -> nat, f: nat)
    requires |ls| >= 1 && EnvOk(ls, env) && f == ListAlloc(ls, AskOf(size, env), 0).2
    ensures f < |ls| && CanBeAsked(ls, f)
  {
    EarlierFailed(ls, AskOf(size, env), 0);
    forall d: nat | d < f ensures !ls[d].DmaLeaf? { assert AskOf(size, env)(ls[d], d).1.ptr == 0; }
  }

  lemma {:induction false} EarlierFailed(ls: seq<Leaf>, ask: AskFn, k: nat)
    requires |ls| >= 1
    ensures forall d: nat | d < ListAlloc(ls, ask, k).2 - k :: ask(ls[d], k + d).1.ptr == 0
    decreases |ls|
  {
    if |ls| > 1 && ask(ls[0], k).1.ptr == 0 {
      EarlierFailed(ls[1..], ask, k + 1);
      var f := ListAlloc(ls[1..], ask, k + 1).2;
      forall d: nat | d < f - k ensures ask(ls[d], k + d).1.ptr == 0 {
        if d > 0 { assert ask(ls[1..][d - 1], k + 1 + (d - 1)).1.ptr == 0; }
      }
    }
  }

  // -- deallocation keeps the invariant

  ghost predicate Removed(live: seq<Live>, i: nat, live': seq<Live>) {
    i < |live| && live' == live[..i] + live[i + 1..]
  }

  lemma LiveIdsRemove(g: Geometry, live: seq<Live>, i: nat, live': seq<Live>, j: nat)
    requires g.entry > 0 && Removed(live, i, live')
    ensures LiveIds(g, live, j) == LiveIds(g, live', j) + LiveIds(g, [live[i]], j)
  {
    assert live == live[..i] + ([live[i]] + live[i + 1..]);
    LiveIdsConcat(g, live[..i], [live[i]] + live[i + 1..], j);
    LiveIdsConcat(g, [live[i]], live[i + 1..], j);
    LiveIdsConcat(g, live[..i], live[i + 1..], j);
  }

  /** The issuing leaf accepts its block and, if it is a stack, pushes the entry. */
  lemma IssuerAccepts(ls: seq<Leaf>, f: nat, blk: Blk)
    requires Separate(ls) && f < |ls| && CanIssue(ls, f, blk)
    ensures LeafDealloc(ls[f], blk).Some? && SameBut(ls, ls[f := LeafDealloc(ls[f], blk).value], f)
    ensures ls[f].StackLeaf? ==>
              && EntryId(ls[f].g, blk.ptr) >= 0
              && LeafDealloc(ls[f], blk).value.stack == ls[f].stack + [EntryId(ls[f].g, blk.ptr)]
  {
    if ls[f].StackLeaf? {
      var id: nat :| id < ls[f].g.num && blk == BlockOf(ls[f].g, id);
      IdRecovered(ls[f].g, id);
      DeallocPushesId(ls[f].g, ls[f].stack, id);
    }
  }

  lemma DeallocBalances(ls: seq<Leaf>, live: seq<Live>, i: nat, live': seq<Live>, j: nat)
    requires Separate(ls) && Removed(live, i, live') && live[i].leaf < |ls| && CanIssue(ls, live[i].leaf, live[i].blk)
    requires j < |ls| && Balanced(ls, live, j) && LeafDealloc(ls[live[i].leaf], live[i].blk).Some?
    ensures Balanced(ls[live[i].leaf := LeafDealloc(ls[live[i].leaf], live[i].blk).value], live', j)
  {
    var f, blk := live[i].leaf, live[i].blk;
    IssuerAccepts(ls, f, blk);
    if ls[j].StackLeaf? {
      LiveIdsRemove(ls[j].g, live, i, live', j);
      LiveIdsOne(ls[j].g, live[i], j);
    }
  }

  lemma LiveIsRouted(ls: seq<Leaf>, l: Live)
    requires |ls| >= 1 && Separate(ls) && NoneBehindMalloc(ls) && LiveOk(ls, l)
    ensures FirstOwner(ls, OwnsOf(l.blk)) == l.leaf
  {
    IssuerOwns(ls, l.leaf, l.blk);
    IssuedIsRouted(ls, l.leaf, l.blk);
  }

  lemma DeallocKeeps(ls: seq<Leaf>, live: seq<Live>, i: nat, live': seq<Live>)
    requires |ls| >= 1 && Inv(ls, live) && Removed(live, i, live')
    ensures var f := FirstOwner(ls, OwnsOf(live[i].blk));
            && f == live[i].leaf
            && LeafDealloc(ls[f], live[i].blk).Some?
            && Inv(ls[f := LeafDealloc(ls[f], live[i].blk).value], live')
  {
    var f, blk := live[i].leaf, live[i].blk;
    assert LiveOk(ls, live[i]);
    LiveIsRouted(ls, live[i]);
    IssuerAccepts(ls, f, blk);
    var ls' := ls[f := LeafDealloc(ls[f], blk).value];
    SameButIssues(ls, ls', f);
    forall k | 0 <= k < |live'| ensures LiveOk(ls', live'[k]) { assert LiveOk(ls, live[if k < i then k else k + 1]); }
    forall j: nat | j < |ls'| ensures Balanced(ls', live', j) {
      assert Balanced(ls, live, j);
      DeallocBalances(ls, live, i, live', j);
    }
  }

  // -- whole runs

  lemma StepKeeps(s: Sys, op: Op)
    requires Inv(Leaves(s.t), s.live) && Permitted(s, op)
    ensures Step(s, op).Some? && Inv(Leaves(Step(s, op).value.t), Step(s, op).value.live)
    ensures op.DeallocOp? ==>
              TreeDealloc(s.t, OwnsOf(s.live[op.i].blk), FreeOf(s.live[op.i].blk), 0).1 == s.live[op.i].leaf
  {
    match op
    case AllocOp(size, env) =>
      TreeAllocIsListAlloc(s.t, AskOf(size, env), 0);
      AllocKeeps(Leaves(s.t), s.live, size, env);
    case DeallocOp(i) =>
      var blk := s.live[i].blk;
      TreeDeallocReaches(s.t, OwnsOf(blk), FreeOf(blk), 0);
      DeallocKeeps(Leaves(s.t), s.live, i, s.live[..i] + s.live[i + 1..]);
  }

  ghost predicate PermittedRun(s: Sys, ops: seq<Op>)
    decreases ops
  {
    ops == [] ||
    (Permitted(s, ops[0]) && (Step(s, ops[0]).Some? ==> PermittedRun(Step(s, ops[0]).value, ops[1..])))
  }

  /** The state after a run, and whether every deallocation reached the leaf that had issued the block. */
  ghost function Run(s: Sys, ops: seq<Op>): (Option<Sys>, bool)
    requires PermittedRun(s, ops)
    decreases ops
  {
    if ops == [] then (Some(s), true)
    else
      var home := ops[0].DeallocOp? ==>
        TreeDealloc(s.t, OwnsOf(s.live[ops[0].i].blk), FreeOf(s.live[ops[0].i].blk), 0).1 == s.live[ops[0].i].leaf;
      match Step(s, ops[0])
      case None => (None, home)
      case Some(u) => var (r, h) := Run(u, ops[1..]); (r, home && h)
  }

  /** Every run over a tree with separate stack regions in which no leaf that is ever asked hands out blocks behind a
      malloc leaf: no error() but the DMA allocator's own exit, every block goes back to its issuer, and free and live
      entries of every stack leaf stay a partition of its entries. */
  lemma {:induction false} RunsReturnHome(s: Sys, ops: seq<Op>)
    requires Inv(Leaves(s.t), s.live) && PermittedRun(s, ops)
    ensures var (r, home) := Run(s, ops);
            home && r.Some? && Inv(Leaves(r.value.t), r.value.live)
    decreases ops
  {
    if ops != [] {
      StepKeeps(s, ops[0]);
      RunsReturnHome(Step(s, ops[0]).value, ops[1..]);
    }
  }

  // -- runs on a new tree

  /** Every stack leaf is as stack_allocator_new leaves it. */
  ghost predicate New(ls: seq<Leaf>) {
    forall j | 0 <= j < |ls| && ls[j].StackLeaf? :: ls[j].stack == FullStack(ls[j].g.num)
  }

  lemma NewIsBalanced(ls: seq<Leaf>)
    requires Separate(ls) && NoneBehindMalloc(ls) && New(ls)
    ensures Inv(ls, [])
  {
    forall j: nat | j < |ls| ensures Balanced(ls, [], j) {
      if ls[j].StackLeaf? { IdentityStack(ls[j].g.num); }
    }
  }

  /** The leaf gives a block of 1 byte if `addr` is not 0. */
  predicate Ready(l: Leaf) { ClaimsAll(l) || (l.StackLeaf? && l.stack != []) }

  /** Free entries in front of leaf i. */
  ghost function FreeBefore(ls: seq<Leaf>, i: nat): nat
    requires i <= |ls|
  {
    if i == 0 then 0 else FreeBefore(ls, i - 1) + if ls[i - 1].StackLeaf? then |ls[i - 1].stack| else 0
  }

  lemma {:induction false} FreeShrinks(ls: seq<Leaf>, f: nat, l: Leaf, i: nat)
    requires f < |ls| && i <= |ls| && ls[f].StackLeaf? && l.StackLeaf? && |l.stack| < |ls[f].stack|
    ensures FreeBefore(ls[f := l], i) <= FreeBefore(ls, i)
    ensures f < i ==> FreeBefore(ls[f := l], i) < FreeBefore(ls, i)
  {
    if i > 0 { FreeShrinks(ls, f, l, i - 1); }
  }

  /** If leaf j has something to give, the list gives something. */
  lemma {:induction false} ReadyLeafAnswers(ls: seq<Leaf>, ask: AskFn, k: nat, j: nat)
    requires |ls| >= 1 && j < |ls| && ask(ls[j], k + j).1.ptr != 0
    ensures ListAlloc(ls, ask, k).1.ptr != 0
    decreases |ls|
  {
    if ask(ls[0], k).1.ptr == 0 { ReadyLeafAnswers(ls[1..], ask, k + 1, j - 1); }
  }

  lemma FailureChangesNothing(l: Leaf, size: nat, addr: nat)
    requires l.StackLeaf? ==> l.g.Fits()
    ensures LeafAlloc(l, size, addr).1.ptr == 0 ==> LeafAlloc(l, size, addr).0 == l
  {
  }

  /** Of the malloc leaves, only leaf j gets memory. */
  function OnlyAt(ls: seq<Leaf>, j: nat): nat -> nat {
    (k: nat) => if k == j || (k < |ls| && ls[k].DmaLeaf?) then Beyond(ls) else 0
  }

  lemma OnlyAtOk(ls: seq<Leaf>, j: nat)
    ensures EnvOk(ls, OnlyAt(ls, j))
  {
    forall k: nat ensures OnlyAt(ls, j)(k) == 0 || OutsideStacks(ls, OnlyAt(ls, j)(k)) {
      forall i | 0 <= i < |ls| && ls[i].StackLeaf? ensures !InRegion(ls[i].g, Beyond(ls)) {}
    }
  }

  /** What leaf f then answers to a request for 1 byte. */
  lemma AnswerAt(ls: seq<Leaf>, j: nat, f: nat)
    requires Separate(ls) && f < |ls|
    ensures var (l, b) := LeafAlloc(ls[f], 1, OnlyAt(ls, j)(f));
            && (b.ptr == 0 ==> l == ls[f])
            && (f == j && Ready(ls[f]) ==> b.ptr != 0)
            && (f != j && !ls[f].DmaLeaf? && b.ptr != 0 ==>
                  ls[f].StackLeaf? && l.StackLeaf? && l.g == ls[f].g && |l.stack| < |ls[f].stack|)
  {
  }

  /** Ask for 1 byte: some leaf answers, and only it changes. */
  lemma Asked(ls: seq<Leaf>, j: nat) returns (f: nat)
    requires Separate(ls) && j < |ls| && Ready(ls[j])
    ensures f < |ls| && CanBeAsked(ls, f)
    ensures var (l, b) := LeafAlloc(ls[f], 1, OnlyAt(ls, j)(f));
            b.ptr != 0 && ListAlloc(ls, AskOf(1, OnlyAt(ls, j)), 0) == (ls[f := l], b, f)
  {
    var ask := AskOf(1, OnlyAt(ls, j));
    forall i, k: nat | 0 <= i < |ls| && ask(ls[i], k).1.ptr == 0 ensures ask(ls[i], k).0 == ls[i] {
      FailureChangesNothing(ls[i], 1, OnlyAt(ls, j)(k));
    }
    OnlyAtOk(ls, j);
    f := AnswerOf(ls, 1, OnlyAt(ls, j));
    AnswerAt(ls, j, j);
    ReadyLeafAnswers(ls, ask, 0, j);
  }

  /** A leaf that claims everything in front of the last block's issuer takes the block. */
  lemma LastStrays(s: Sys, i: nat)
    requires s.live != [] && i < s.live[|s.live| - 1].leaf < |Leaves(s.t)| && ClaimsAll(Leaves(s.t)[i])
    ensures PermittedRun(s, [Op.DeallocOp(|s.live| - 1)]) && !Run(s, [Op.DeallocOp(|s.live| - 1)]).1
  {
    var k := |s.live| - 1;
    var blk := s.live[k].blk;
    TreeDeallocReaches(s.t, OwnsOf(blk), FreeOf(blk), 0);
    assert OwnsOf(blk)(Leaves(s.t)[i]);
    assert FirstOwner(Leaves(s.t), OwnsOf(blk)) <= i;
    assert [Op.DeallocOp(k)][1..] == [];
  }

  lemma Prepend(s: Sys, op: Op, u: Sys, ops: seq<Op>)
    requires Permitted(s, op) && op.AllocOp? && Step(s, op) == Some(u) && PermittedRun(u, ops)
    ensures PermittedRun(s, [op] + ops) && Run(s, [op] + ops) == Run(u, ops)
  {
    assert ([op] + ops)[1..] == ops;
  }

  /** If leaf i is malloc and a leaf j behind it can be asked and has something to give: ask until a leaf behind i
      answers, because malloc returns NULL and the stacks in front are used up; then give the block back. */
  lemma {:induction false} Strays(s: Sys, i: nat, j: nat) returns (ops: seq<Op>)
    requires Separate(Leaves(s.t)) && i < j < |Leaves(s.t)| && Leaves(s.t)[i].MallocLeaf?
    requires CanBeAsked(Leaves(s.t), j) && Ready(Leaves(s.t)[j])
    ensures PermittedRun(s, ops) && !Run(s, ops).1
    decreases FreeBefore(Leaves(s.t), i)
  {
    var ls := Leaves(s.t);
    var op := Op.AllocOp(1, OnlyAt(ls, j));
    OnlyAtOk(ls, j);
    TreeAllocIsListAlloc(s.t, AskOf(1, OnlyAt(ls, j)), 0);
    var f := Asked(ls, j);
    AnswerAt(ls, j, f);
    var u := Step(s, op).value;
    var l := LeafAlloc(ls[f], 1, OnlyAt(ls, j)(f)).0;
    assert Leaves(u.t) == ls[f := l] && u.live[|u.live| - 1].leaf == f;
    if f < i {
      SameButIssues(ls, ls[f := l], f);
      FreeShrinks(ls, f, l, i);
      ops := Strays(u, i, j);
    } else {
      LastStrays(u, i);
      ops := [Op.DeallocOp(|u.live| - 1)];
    }
    Prepend(s, op, u, ops);
    ops := [op] + ops;
  }

  /** Over a new tree with separate stack regions: every run is without error(), other than the DMA allocator's own
      exit, and returns every block to its issuer, exactly if no leaf that is ever asked hands out blocks behind a
      malloc leaf. A leaf behind a DMA leaf is never asked. */
  lemma NewRunsReturnHomeIff(t: Tree)
    requires Separate(Leaves(t)) && New(Leaves(t))
    ensures (forall ops | PermittedRun(Sys(t, []), ops) :: Run(Sys(t, []), ops).0.Some? && Run(Sys(t, []), ops).1)
            <==> NoneBehindMalloc(Leaves(t))
  {
    var s, ls := Sys(t, []), Leaves(t);
    if NoneBehindMalloc(ls) {
      NewIsBalanced(ls);
      forall ops | PermittedRun(s, ops) ensures Run(s, ops).0.Some? && Run(s, ops).1 { RunsReturnHome(s, ops); }
    } else {
      var i: nat, j: nat :| i < j < |ls| && ls[i].MallocLeaf? && CanBeAsked(ls, j) && Issues(ls[j]);
      var ops := Strays(s, i, j);
    }
  }
}
