/** The stack allocator: a region of `num` entries of `entry` bytes, and a stack of free entry ids. */
module StackAllocator {
  import opened Wrappers
  import opened RingIndex
  import opened Ownership
  import Memory

  const U32: nat := Memory.U32

  /** struct mem_blk. NULL is the block {0, 0}. */
  datatype Blk = Blk(ptr: nat, size: nat)

  const NULL: Blk := Blk(0, 0)

  /** The fields that are fixed at construction. */
  datatype Geometry = Geometry(base: nat, entry: nat, num: nat) {

    /** A non-null region with at least one byte per entry whose size does not wrap in 32 bits. */
    predicate Fits() { base > 0 && entry > 0 && num * entry < U32 }
  }

  // -- the operations, on values -----------------------------------------------------------------

  function BlockOf(g: Geometry, id: nat): Blk { Blk(g.base + (id * g.entry) % U32, g.entry) }

  function Alloc(g: Geometry, stack: seq<nat>, size: nat): (seq<nat>, Blk) {
    if stack == [] || size > g.entry then (stack, NULL)
    else (stack[..|stack| - 1], BlockOf(g, stack[|stack| - 1]))
  }

  /** C's division truncates toward zero. */
  function TruncDiv(a: int, b: nat): int
    requires b > 0
  {
    if a >= 0 then a / b else -(-a / b)
  }

  function EntryId(g: Geometry, ptr: nat): int
    requires g.entry > 0
  {
    TruncDiv(ptr - g.base, g.entry)
  }

  predicate RangeCheck(g: Geometry, ptr: nat)
    requires g.entry > 0
  {
    0 <= EntryId(g, ptr) <= g.num
  }

  /** None is a call of error(). */
  function Dealloc(g: Geometry, stack: seq<nat>, blk: Blk): Option<seq<nat>>
    requires g.entry > 0
  {
    if blk.size != g.entry || !RangeCheck(g, blk.ptr) then None
    else Some(stack + [EntryId(g, blk.ptr)])
  }

  predicate Owns(g: Geometry, blk: Blk) { g.base <= blk.ptr < g.base + (g.num * g.entry) % U32 }

  // -- pointers and ids --------------------------------------------------------------------------

  /** The range check accepts exactly the pointers whose offset lies strictly between -entry and
      (num + 1) * entry: one entry too many at the end, and almost one before the start. */
  lemma RangeCheckExactly(g: Geometry, ptr: nat)
    requires g.entry > 0
    ensures RangeCheck(g, ptr) <==> g.base - ptr < g.entry && ptr - g.base < (g.num + 1) * g.entry
  {
    if ptr >= g.base {
      QuotientAtMost(ptr - g.base, g.entry, g.num);
    } else {
      QuotientAtMost(g.base - ptr, g.entry, 0);
    }
  }

  lemma QuotientAtMost(x: nat, e: nat, n: nat)
    requires e > 0
    ensures x / e <= n <==> x < (n + 1) * e
  {
    var q := x / e;
    assert x == q * e + x % e;
    if q <= n { Memory.Products(q, n + 1, e); } else { Memory.Products(n, q, e); }
  }

  /** Owned pointers pass the check, and the first byte behind the region passes without being owned. */
  lemma OwnsIsStricter(g: Geometry, ptr: nat)
    requires g.Fits()
    ensures Owns(g, Blk(ptr, g.entry)) ==> RangeCheck(g, ptr)
    ensures RangeCheck(g, g.base + g.num * g.entry) && !Owns(g, Blk(g.base + g.num * g.entry, g.entry))
  {
    Memory.SmallMod(g.num * g.entry);
    RangeCheckExactly(g, ptr);
    RangeCheckExactly(g, g.base + g.num * g.entry);
    assert (g.num + 1) * g.entry == g.num * g.entry + g.entry;
  }

  /** Division recovers the id of every block that can be handed out; such a block is owned. */
  lemma IdRecovered(g: Geometry, id: nat)
    requires g.Fits() && id < g.num
    ensures BlockOf(g, id).ptr == g.base + id * g.entry
    ensures EntryId(g, BlockOf(g, id).ptr) == id && RangeCheck(g, BlockOf(g, id).ptr)
    ensures Owns(g, BlockOf(g, id))
  {
    Memory.Products(id, g.num, g.entry);
    Memory.SmallMod(id * g.entry);
    Memory.SmallMod(g.num * g.entry);
    ModUnique(id * g.entry, g.entry, id, 0);
  }

  /** Deallocating the block of an id pushes that id. */
  lemma DeallocPushesId(g: Geometry, stack: seq<nat>, id: nat)
    requires g.Fits() && id < g.num
    ensures Dealloc(g, stack, BlockOf(g, id)) == Some(stack + [id])
  {
    IdRecovered(g, id);
  }

  /** A request is met exactly if an entry is free and large enough, and a block that meets it has the size asked for
      and comes from the free entries. */
  lemma AllocMeetsRequest(g: Geometry, stack: seq<nat>, size: nat)
    requires g.Fits() && forall i | 0 <= i < |stack| :: stack[i] < g.num
    ensures var (rest, blk) := Alloc(g, stack, size);
            && (blk.ptr != 0 <==> stack != [] && size <= g.entry)
            && (blk.ptr == 0 ==> rest == stack)
            && (blk.ptr != 0 ==> blk.size >= size && Owns(g, blk) && 0 <= EntryId(g, blk.ptr)
                                 && rest + [EntryId(g, blk.ptr)] == stack)
  {
    if stack != [] && size <= g.entry { IdRecovered(g, stack[|stack| - 1]); }
  }

  predicate DisjointBlocks(a: Blk, b: Blk) { a.ptr + a.size <= b.ptr || b.ptr + b.size <= a.ptr }

  predicate Inside(g: Geometry, b: Blk) { g.base <= b.ptr && b.ptr + b.size <= g.base + g.num * g.entry }

  lemma BlocksDisjoint(g: Geometry, i: nat, j: nat)
    requires g.Fits() && i < g.num && j < g.num && i != j
    ensures DisjointBlocks(BlockOf(g, i), BlockOf(g, j)) && Inside(g, BlockOf(g, i)) && BlockOf(g, i) != NULL
  {
    IdRecovered(g, i);
    IdRecovered(g, j);
    Memory.Products(i, g.num, g.entry);
    if i < j { Memory.Products(i, j, g.entry); } else { Memory.Products(j, i, g.entry); }
  }

  // -- runs --------------------------------------------------------------------------------------

  /** A client that allocates, and deallocates blocks it has outstanding, named by their ids. */
  datatype Client = Client(stack: seq<nat>, live: multiset<nat>)

  datatype Op = AllocOp(size: nat) | DeallocOp(id: nat)

  /** None if the allocator called error(), or the client broke its side. */
  function Step(g: Geometry, c: Client, op: Op): Option<Client>
    requires g.entry > 0
  {
    match op
    case AllocOp(size) =>
      var (stack, blk) := Alloc(g, c.stack, size);
      if blk == NULL then Some(c)
      else Some(Client(stack, c.live + multiset{c.stack[|c.stack| - 1]}))
    case DeallocOp(id) =>
      if id !in c.live then None
      else
        match Dealloc(g, c.stack, BlockOf(g, id))
        case None => None
        case Some(stack) => Some(Client(stack, c.live - multiset{id}))
  }

  predicate Permitted(c: Client, op: Op) { op.DeallocOp? ==> op.id in c.live }

  ghost predicate Inv(g: Geometry, c: Client) { multiset(c.stack) + c.live == Universe(g.num) }

  /** The free stack as stack_allocator_new fills it. */
  function FullStack(num: nat): seq<nat> { seq(num, i => i) }

  /** A new allocator has every entry free and none live. */
  lemma NewIsBalanced(g: Geometry)
    ensures Inv(g, Client(FullStack(g.num), multiset{}))
  {
    IdentityStack(g.num);
  }

  lemma AllocKeeps(g: Geometry, c: Client, size: nat)
    requires g.Fits() && Inv(g, c)
    ensures Step(g, c, AllocOp(size)).Some? && Inv(g, Step(g, c, AllocOp(size)).value)
  {
    if c.stack != [] && size <= g.entry {
      Popped(c.stack);
      assert BlockOf(g, c.stack[|c.stack| - 1]) != NULL;
    }
  }

  lemma LiveIsEntry(g: Geometry, c: Client, id: nat)
    requires Inv(g, c) && id in c.live
    ensures id < g.num
  {
    assert c.live + multiset(c.stack) == Universe(g.num);
    Exclusive(g.num, c.live, multiset(c.stack), id);
  }

  lemma PushKeeps(N: nat, stack: seq<nat>, live: multiset<nat>, id: nat)
    requires multiset(stack) + live == Universe(N) && id in live
    ensures multiset(stack + [id]) + (live - multiset{id}) == Universe(N)
  {
  }

  lemma StepKeeps(g: Geometry, c: Client, op: Op)
    requires g.Fits() && Inv(g, c) && Permitted(c, op)
    ensures Step(g, c, op).Some? && Inv(g, Step(g, c, op).value)
  {
    match op
    case AllocOp(size) => AllocKeeps(g, c, size);
    case DeallocOp(id) =>
      LiveIsEntry(g, c, id);
      DeallocPushesId(g, c.stack, id);
      PushKeeps(g.num, c.stack, c.live, id);
  }

  /** The final state of a run whose every deallocation returns an outstanding block; None if error() was
      called or a deallocation was not of that kind. */
  function Run(g: Geometry, c: Client, ops: seq<Op>): Option<Client>
    requires g.entry > 0
    decreases ops
  {
    if ops == [] then Some(c)
    else match Step(g, c, ops[0])
         case None => None
         case Some(d) => Run(g, d, ops[1..])
  }

  ghost predicate PermittedRun(g: Geometry, c: Client, ops: seq<Op>)
    requires g.entry > 0
    decreases ops
  {
    ops == [] ||
    (Permitted(c, ops[0]) && (Step(g, c, ops[0]).Some? ==> PermittedRun(g, Step(g, c, ops[0]).value, ops[1..])))
  }

  /** Every run of a client that returns only outstanding blocks succeeds; live blocks are then pairwise
      disjoint and inside the region, and the free ids are distinct and fit the stack. */
  lemma {:induction false} RunsAreSafe(g: Geometry, c: Client, ops: seq<Op>)
    requires g.Fits() && Inv(g, c) && PermittedRun(g, c, ops)
    ensures Run(g, c, ops).Some?
    ensures var d := Run(g, c, ops).value;
            && Inv(g, d) && |d.stack| <= g.num
            && (forall i, j | 0 <= i < j < |d.stack| :: d.stack[i] != d.stack[j])
            && (forall i, j | i in d.live && j in d.live && i != j :: DisjointBlocks(BlockOf(g, i), BlockOf(g, j)))
            && (forall i | i in d.live :: Inside(g, BlockOf(g, i)) && d.live[i] == 1)
    decreases ops
  {
    if ops == [] {
      StateIsSafe(g, c);
    } else {
      StepKeeps(g, c, ops[0]);
      RunsAreSafe(g, Step(g, c, ops[0]).value, ops[1..]);
    }
  }

  /** So is every run on a new allocator. */
  lemma NewRunsAreSafe(g: Geometry, ops: seq<Op>)
    requires g.Fits() && PermittedRun(g, Client(FullStack(g.num), multiset{}), ops)
    ensures Run(g, Client(FullStack(g.num), multiset{}), ops).Some?
    ensures var d := Run(g, Client(FullStack(g.num), multiset{}), ops).value;
            && Inv(g, d)
            && (forall i, j | i in d.live && j in d.live && i != j :: DisjointBlocks(BlockOf(g, i), BlockOf(g, j)))
            && (forall i | i in d.live :: Inside(g, BlockOf(g, i)) && d.live[i] == 1)
  {
    NewIsBalanced(g);
    RunsAreSafe(g, Client(FullStack(g.num), multiset{}), ops);
  }

  lemma StateIsSafe(g: Geometry, d: Client)
    requires g.Fits() && Inv(g, d)
    ensures |d.stack| <= g.num
    ensures forall i, j | 0 <= i < j < |d.stack| :: d.stack[i] != d.stack[j]
    ensures forall i, j | i in d.live && j in d.live && i != j :: DisjointBlocks(BlockOf(g, i), BlockOf(g, j))
    ensures forall i | i in d.live :: Inside(g, BlockOf(g, i)) && d.live[i] == 1
  {
    UniverseCounts(g.num);
    forall i, j | 0 <= i < j < |d.stack| ensures d.stack[i] != d.stack[j] {
      Exclusive(g.num, multiset(d.stack), d.live, d.stack[i]);
      OnePlace(d.stack, i, j);
    }
    assert d.live + multiset(d.stack) == Universe(g.num);
    forall i | i in d.live ensures i < g.num && d.live[i] == 1 && Inside(g, BlockOf(g, i)) {
      Exclusive(g.num, d.live, multiset(d.stack), i);
      IdRecovered(g, i);
      Memory.Products(i, g.num, g.entry);
    }
    forall i, j | i in d.live && j in d.live && i != j ensures DisjointBlocks(BlockOf(g, i), BlockOf(g, j)) {
      BlocksDisjoint(g, i, j);
    }
  }

  // -- last in, first out ------------------------------------------------------------------------

  function Blocks(g: Geometry, ids: seq<nat>): seq<Blk> {
    if ids == [] then [] else [BlockOf(g, ids[0])] + Blocks(g, ids[1..])
  }

  function Reversed(ids: seq<nat>): seq<nat> {
    if ids == [] then [] else [ids[|ids| - 1]] + Reversed(ids[..|ids| - 1])
  }

  function DeallocAll(g: Geometry, stack: seq<nat>, blks: seq<Blk>): Option<seq<nat>>
    requires g.entry > 0
    decreases blks
  {
    if blks == [] then Some(stack)
    else match Dealloc(g, stack, blks[0])
         case None => None
         case Some(s) => DeallocAll(g, s, blks[1..])
  }

  function AllocMany(g: Geometry, stack: seq<nat>, size: nat, k: nat): (seq<nat>, seq<Blk>)
    decreases k
  {
    if k == 0 then (stack, [])
    else
      var (s, b) := Alloc(g, stack, size);
      var (t, bs) := AllocMany(g, s, size, k - 1);
      (t, [b] + bs)
  }

  /** Blocks given back one after the other come out again in the opposite order, and the stack is as before. */
  lemma ReuseIsLifo(g: Geometry, stack: seq<nat>, ids: seq<nat>, size: nat)
    requires g.Fits() && size <= g.entry && forall i | 0 <= i < |ids| :: ids[i] < g.num
    ensures DeallocAll(g, stack, Blocks(g, ids)) == Some(stack + ids)
    ensures AllocMany(g, stack + ids, size, |ids|) == (stack, Blocks(g, Reversed(ids)))
  {
    PushAll(g, stack, ids);
    PopAll(g, stack, ids, size);
  }

  lemma {:induction false} PushAll(g: Geometry, stack: seq<nat>, ids: seq<nat>)
    requires g.Fits() && forall i | 0 <= i < |ids| :: ids[i] < g.num
    ensures DeallocAll(g, stack, Blocks(g, ids)) == Some(stack + ids)
    decreases ids
  {
    if ids == [] {
      assert stack + ids == stack;
    } else {
      DeallocPushesId(g, stack, ids[0]);
      PushAll(g, stack + [ids[0]], ids[1..]);
      assert Blocks(g, ids)[1..] == Blocks(g, ids[1..]);
      assert (stack + [ids[0]]) + ids[1..] == stack + ids;
    }
  }

  lemma {:induction false} PopAll(g: Geometry, stack: seq<nat>, ids: seq<nat>, size: nat)
    requires size <= g.entry
    ensures AllocMany(g, stack + ids, size, |ids|) == (stack, Blocks(g, Reversed(ids)))
    decreases ids
  {
    if ids == [] {
      assert stack + ids == stack;
    } else {
      var rest := ids[..|ids| - 1];
      assert (stack + ids)[..|stack + ids| - 1] == stack + rest;
      PopAll(g, stack, rest, size);
      assert Reversed(ids)[1..] == Reversed(rest);
    }
  }

  // -- deallocations the check lets through ------------------------------------------------------

  ghost predicate GoodStack(g: Geometry, stack: seq<nat>) {
    && (forall i | 0 <= i < |stack| :: stack[i] < g.num)
    && (forall i, j | 0 <= i < j < |stack| :: stack[i] != stack[j])
  }

  /** A deallocation that passes the checks leaves a good stack exactly if the pointer is below the end of a non-empty
      region and the entry it falls in is not free already. */
  lemma DeallocGoodIff(g: Geometry, stack: seq<nat>, ptr: nat)
    requires g.Fits() && GoodStack(g, stack) && RangeCheck(g, ptr)
    ensures GoodStack(g, Dealloc(g, stack, Blk(ptr, g.entry)).value)
            <==> g.num > 0 && ptr < g.base + g.num * g.entry && EntryId(g, ptr) !in stack
  {
    var id := EntryId(g, ptr);
    var after := Dealloc(g, stack, Blk(ptr, g.entry)).value;
    assert after == stack + [id];
    BelowEnd(g, ptr);
    if GoodStack(g, after) {
      assert after[|stack|] == id;
      forall i | 0 <= i < |stack| ensures stack[i] != id { assert after[i] != after[|stack|]; }
    }
  }

  lemma BelowEnd(g: Geometry, ptr: nat)
    requires g.Fits() && RangeCheck(g, ptr)
    ensures EntryId(g, ptr) < g.num <==> g.num > 0 && ptr < g.base + g.num * g.entry
  {
    RangeCheckExactly(g, ptr);
    if ptr >= g.base {
      if g.num > 0 { QuotientAtMost(ptr - g.base, g.entry, g.num - 1); }
    } else {
      QuotientAtMost(g.base - ptr, g.entry, 0);
      assert EntryId(g, ptr) == 0;
      if g.num > 0 { Memory.Products(0, g.num, g.entry); }
    }
  }

  // -- the allocator in place --------------------------------------------------------------------

  class Allocator {
    const base: nat
    const entrySize: nat
    const numEntries: nat
    var freeStackTop: nat
    const freeStack: array<nat>

    function Shape(): Geometry { Geometry(base, entrySize, numEntries) }

    ghost predicate Valid()
      reads this
    {
      freeStack.Length == numEntries && freeStackTop <= numEntries && entrySize > 0
    }

    ghost function Stack(): seq<nat>
      requires Valid()
      reads this, freeStack
    {
      freeStack[..freeStackTop]
    }

    /** stack_allocator_new, given the non-null block that the parent returned. */
    constructor (num: nat, entry: nat, mem: Blk)
      ensures Valid() && fresh(freeStack) && Stack() == FullStack(num)
      ensures Shape() == Geometry(mem.ptr, if entry == 0 then 2048 else entry, num)
    {
      base, entrySize, numEntries := mem.ptr, if entry == 0 then 2048 else entry, num;
      freeStackTop := num;
      freeStack := new nat[num];
      new;
      for i := 0 to num
        invariant Valid() && freeStackTop == num && forall k | 0 <= k < i :: freeStack[k] == k
      {
        freeStack[i] := i;
      }
    }

    method Allocate(size: nat) returns (blk: Blk)
      requires Valid()
      modifies this`freeStackTop
      ensures Valid() && (Stack(), blk) == Alloc(Shape(), old(Stack()), size)
    {
      if freeStackTop == 0 || size > entrySize { return NULL; }
      freeStackTop := freeStackTop - 1;
      var id := freeStack[freeStackTop];
      assert old(Stack())[|old(Stack())| - 1] == id && Stack() == old(Stack())[..|old(Stack())| - 1];
      return Blk(base + (id * entrySize) % U32, entrySize);
    }

    /** The stack has room for an outstanding block. `ok` is false where the source calls error(). */
    method Deallocate(blk: Blk) returns (ok: bool)
      requires Valid() && freeStackTop < numEntries
      modifies this`freeStackTop, freeStack
      ensures Valid() && ok == Dealloc(Shape(), old(Stack()), blk).Some?
      ensures Stack() == if ok then Dealloc(Shape(), old(Stack()), blk).value else old(Stack())
    {
      if entrySize != blk.size { return false; }
      var id := TruncDiv(blk.ptr - base, entrySize);
      if id > numEntries || id < 0 { return false; }
      freeStack[freeStackTop] := id;
      freeStackTop := freeStackTop + 1;
      return true;
    }
  }
}
