/** Counting buffers: a pool of N buffers has the ids 0..N-1, and ownership is a multiset equation. */
module Ownership {

  /** Every id below N once. */
  ghost function Universe(N: nat): multiset<nat> {
    if N == 0 then multiset{} else Universe(N - 1) + multiset{N - 1}
  }

  lemma {:induction false} UniverseCounts(N: nat)
    ensures |Universe(N)| == N
    ensures forall b: nat :: Universe(N)[b] == if b < N then 1 else 0
  {
    if N > 0 { UniverseCounts(N - 1); }
  }

  /** In a partition of the pool, a buffer in one part is in no other and occurs there once. */
  lemma Exclusive(N: nat, a: multiset<nat>, b: multiset<nat>, x: nat)
    requires a + b == Universe(N) && x in a
    ensures x < N && x !in b && a[x] == 1
  {
    UniverseCounts(N);
    assert (a + b)[x] == a[x] + b[x];
  }

  /** A value that a sequence holds once is not at two places of it. */
  lemma OnePlace(q: seq<nat>, i: nat, j: nat)
    requires i < j < |q| && multiset(q)[q[i]] == 1
    ensures q[i] != q[j]
  {
    assert q == q[..j] + [q[j]] + q[j + 1..];
    assert q[i] in q[..j];
    assert multiset(q) == multiset(q[..j]) + multiset{q[j]} + multiset(q[j + 1..]);
  }

  lemma Popped(s: seq<nat>)
    requires |s| > 0
    ensures multiset(s) == multiset(s[..|s| - 1]) + multiset{s[|s| - 1]}
  {
    assert s == s[..|s| - 1] + [s[|s| - 1]];
  }

  lemma {:induction false} IdentityStack(k: nat)
    ensures multiset(seq(k, i => i)) == Universe(k)
  {
    if k > 0 {
      IdentityStack(k - 1);
      assert seq(k, i => i) == seq(k - 1, i => i) + [k - 1];
    }
  }

  /** The first n buffers popped from a fresh pool of N. */
  function FirstOut(N: nat, n: nat): (q: seq<nat>)
    requires n <= N
    ensures |q| == n && forall i | 0 <= i < n :: q[i] == N - 1 - i
  {
    seq(n, i requires 0 <= i < n => N - 1 - i)
  }

  lemma OneMoreOut(N: nat, n: nat)
    requires 0 < n <= N
    ensures FirstOut(N, n) == FirstOut(N, n - 1) + [N - n]
  {
  }

  /** They and what is left are the whole pool. */
  lemma {:induction false} PoppedAndRest(N: nat, n: nat)
    requires n <= N
    ensures multiset(FirstOut(N, n)) + Universe(N - n) == Universe(N)
  {
    if n > 0 {
      PoppedAndRest(N, n - 1);
      OneMoreOut(N, n);
      Moved(FirstOut(N, n - 1), FirstOut(N, n), N - n, Universe(N - n), Universe(N));
    } else {
      assert FirstOut(N, 0) == [];
    }
  }

  /** One buffer goes from the rest to the popped ones. */
  lemma Moved(before: seq<nat>, after: seq<nat>, x: nat, rest: multiset<nat>, whole: multiset<nat>)
    requires after == before + [x] && multiset(before) + (rest + multiset{x}) == whole
    ensures multiset(after) + rest == whole
  {
    assert multiset(after) == multiset(before) + multiset{x};
  }

  /** Three parts of a whole, between which buffers move. */
  ghost function Bag(a: seq<nat>, b: seq<nat>, c: seq<nat>): multiset<nat> { multiset(a) + multiset(b) + multiset(c) }

  /** The last of the first part was the third. */
  lemma BagPush(a: seq<nat>, a': seq<nat>, b: seq<nat>, x: nat)
    requires a' == a + [x]
    ensures Bag(a', b, []) == Bag(a, b, [x])
  {
    assert multiset(a') == multiset(a) + multiset{x};
  }

  /** The last of the second part was the third. */
  lemma BagGive(a: seq<nat>, b: seq<nat>, b': seq<nat>, x: nat)
    requires b' == b + [x]
    ensures Bag(a, b', []) == Bag(a, b, [x])
  {
    assert multiset(b') == multiset(b) + multiset{x};
  }

  /** The last of the second part was the first. */
  lemma BagHandOver(b: seq<nat>, b': seq<nat>, c: seq<nat>, x: nat)
    requires b' == b + [x]
    ensures Bag([], b', c) == Bag([x], b, c)
  {
    assert multiset(b') == multiset(b) + multiset{x};
  }

  /** The third part was somewhere in the second. */
  lemma BagTake(a: seq<nat>, b: seq<nat>, b': seq<nat>, i: nat)
    requires i < |b| && b' == b[..i] + b[i + 1..]
    ensures Bag(a, b', [b[i]]) == Bag(a, b, [])
  {
    assert b == b[..i] + [b[i]] + b[i + 1..];
    assert multiset(b) == multiset(b') + multiset{b[i]};
  }

  lemma BagPickUp(all: multiset<nat>, b: seq<nat>, c: seq<nat>, x: nat)
    requires all == Bag([], b, c)
    ensures all + multiset{x} == Bag([x], b, c)
  {
  }

  /** One of the second part leaves, or goes to the third. */
  lemma BagLeave(all: multiset<nat>, b: seq<nat>, b': seq<nat>, c: seq<nat>, x: nat)
    requires all == Bag([], b, c) && (b == [x] + b' || b == b' + [x])
    ensures all - multiset{x} == Bag([], b', c)
    ensures all == Bag([], b', c + [x])
    ensures x in all
  {
    assert multiset(b) == multiset(b') + multiset{x};
    assert multiset(c + [x]) == multiset(c) + multiset{x};
  }
}
