/** Stack allocators built on stack allocators: each level takes its region from the level below, the lowest
    one from an allocator such as malloc. */
module Tower {
  import opened Wrappers
  import opened StackAllocator

  datatype Level = Level(g: Geometry, stack: seq<nat>)

  /** The arguments of stack_allocator_new. */
  datatype Spec = Spec(num: nat, entry: nat) {
    function Entry(): nat { if entry == 0 then 2048 else entry }

    /** The size asked of the parent, in 32-bit arithmetic. */
    function Request(): nat { (num * Entry()) % U32 }

    predicate Fits() { num * Entry() < U32 }
  }

  /** stack_allocator_new on top of the tower; None if it returns NULL. `root` is the address that the outermost
      allocator returns, 0 if it fails. */
  function Build(t: seq<Level>, spec: Spec, root: nat): Option<seq<Level>> {
    if t == [] then
      if root == 0 then None else Some([NewLevel(spec, root)])
    else
      var top := t[|t| - 1];
      var (stack, blk) := Alloc(top.g, top.stack, spec.Request());
      if blk.ptr == 0 then None
      else Some(t[..|t| - 1] + [top.(stack := stack)] + [NewLevel(spec, blk.ptr)])
  }

  function NewLevel(spec: Spec, ptr: nat): Level {
    Level(Geometry(ptr, spec.Entry(), spec.num), FullStack(spec.num))
  }

  /** stack_allocator_free of the topmost level; None if the parent's deallocate calls error(). */
  function Destroy(t: seq<Level>): Option<seq<Level>>
    requires t != [] && forall i | 0 <= i < |t| :: t[i].g.entry > 0
  {
    var top := t[|t| - 1];
    var rest := t[..|t| - 1];
    if rest == [] then Some([])
    else
      var parent := rest[|rest| - 1];
      match Dealloc(parent.g, parent.stack, Blk(top.g.base, (top.g.num * top.g.entry) % U32))
      case None => None
      case Some(stack) => Some(rest[..|rest| - 1] + [parent.(stack := stack)])
  }

  function BuildAll(t: seq<Level>, specs: seq<Spec>, root: nat): Option<seq<Level>>
    decreases specs
  {
    if specs == [] then Some(t)
    else match Build(t, specs[0], root)
         case None => None
         case Some(u) => BuildAll(u, specs[1..], root)
  }

  /** The k topmost levels, from the top down. */
  function DestroyAll(t: seq<Level>, k: nat): Option<seq<Level>>
    requires k <= |t| && forall i | 0 <= i < |t| :: t[i].g.entry > 0
    decreases k
  {
    if k == 0 then Some(t)
    else match Destroy(t)
         case None => None
         case Some(u) => DestroyAll(u, k - 1)
  }

  /** Regions do not wrap, and the free ids of each level are ids of that level. */
  ghost predicate Sound(t: seq<Level>) {
    forall i | 0 <= i < |t| :: t[i].g.Fits() && forall k | 0 <= k < |t[i].stack| :: t[i].stack[k] < t[i].g.num
  }

  /** The new level uses up exactly one entry of its parent. */
  predicate Matches(t: seq<Level>, spec: Spec) { t == [] || spec.Request() == t[|t| - 1].g.entry }

  ghost predicate AllMatch(t: seq<Level>, specs: seq<Spec>, root: nat)
    requires BuildAll(t, specs, root).Some?
    decreases specs
  {
    specs == [] || (Matches(t, specs[0]) && AllMatch(Build(t, specs[0], root).value, specs[1..], root))
  }

  lemma BuildKeepsSound(t: seq<Level>, spec: Spec, root: nat)
    requires Sound(t) && spec.Fits() && Build(t, spec, root).Some?
    ensures Sound(Build(t, spec, root).value) && |Build(t, spec, root).value| == |t| + 1
  {
  }

  /** Destroying a level that was just built restores the tower exactly if the level matches its parent;
      otherwise the program dies. */
  lemma BuildDestroy(t: seq<Level>, spec: Spec, root: nat)
    requires Sound(t) && spec.Fits() && Build(t, spec, root).Some?
    ensures Sound(Build(t, spec, root).value)
    ensures Destroy(Build(t, spec, root).value) == if Matches(t, spec) then Some(t) else None
  {
    BuildKeepsSound(t, spec, root);
    var u := Build(t, spec, root).value;
    if t != [] {
      var parent := t[|t| - 1];
      var id := parent.stack[|parent.stack| - 1];
      var popped := parent.stack[..|parent.stack| - 1];
      DeallocPushesId(parent.g, popped, id);
      assert popped + [id] == parent.stack;
      assert u[..|u| - 1] == t[..|t| - 1] + [parent.(stack := popped)];
      assert (u[..|u| - 1])[..|t| - 1] == t[..|t| - 1];
      assert t[..|t| - 1] + [parent] == t;
    }
  }

  lemma {:induction false} DestroyFromTheTop(t: seq<Level>, k: nat)
    requires k < |t| && forall i | 0 <= i < |t| :: t[i].g.entry > 0
    ensures DestroyAll(t, k).Some? ==>
              && |DestroyAll(t, k).value| == |t| - k
              && (forall i | 0 <= i < |t| - k :: DestroyAll(t, k).value[i].g.entry > 0)
              && DestroyAll(t, k + 1) == Destroy(DestroyAll(t, k).value)
    ensures DestroyAll(t, k).None? ==> DestroyAll(t, k + 1).None?
    decreases k
  {
    if k == 0 {
      var d := Destroy(t);
      if d.Some? { assert DestroyAll(d.value, 0) == d; }
    } else if Destroy(t).Some? {
      DestroyFromTheTop(Destroy(t).value, k - 1);
    }
  }

  lemma {:induction false} BuildAllSound(t: seq<Level>, specs: seq<Spec>, root: nat)
    requires Sound(t) && BuildAll(t, specs, root).Some? && forall i | 0 <= i < |specs| :: specs[i].Fits()
    ensures Sound(BuildAll(t, specs, root).value) && |BuildAll(t, specs, root).value| == |t| + |specs|
    decreases specs
  {
    if specs != [] {
      BuildKeepsSound(t, specs[0], root);
      BuildAllSound(Build(t, specs[0], root).value, specs[1..], root);
    }
  }

  /** For a tower of any height: levels built and then destroyed in the opposite order leave every level below as
      it was exactly if each built level's size equals its parent's entry size. Otherwise the program dies. */
  lemma {:induction false} BuildAllDestroyAll(t: seq<Level>, specs: seq<Spec>, root: nat)
    requires Sound(t) && BuildAll(t, specs, root).Some? && forall i | 0 <= i < |specs| :: specs[i].Fits()
    ensures Sound(BuildAll(t, specs, root).value) && |BuildAll(t, specs, root).value| == |t| + |specs|
    ensures DestroyAll(BuildAll(t, specs, root).value, |specs|) == if AllMatch(t, specs, root) then Some(t) else None
    decreases specs
  {
    BuildAllSound(t, specs, root);
    if specs != [] {
      var u := Build(t, specs[0], root).value;
      BuildDestroy(t, specs[0], root);
      BuildAllDestroyAll(u, specs[1..], root);
      DestroyFromTheTop(BuildAll(t, specs, root).value, |specs| - 1);
    }
  }

  /** A level smaller than its parent's entry builds and cannot be destroyed. */
  lemma SmallerLevelDies(parent: Level, spec: Spec)
    requires Sound([parent]) && parent.stack != [] && spec.Fits() && spec.num * spec.Entry() < parent.g.entry
    ensures Build([parent], spec, 0).Some? && Sound(Build([parent], spec, 0).value)
    ensures Destroy(Build([parent], spec, 0).value) == None
  {
    BuildDestroy([parent], spec, 0);
  }
}
