/** Index arithmetic of the descriptor rings: the `&` of the wrap-around macro, the power-of-two
    test of the queue start functions, and the slot used by the j-th descriptor of a run. */
module RingIndex {

  function Pow2(k: nat): (r: nat)
    ensures r >= 1
  {
    if k == 0 then 1 else 2 * Pow2(k - 1)
  }

  ghost predicate IsPow2(n: nat) {
    exists k: nat :: n == Pow2(k)
  }

  /** C's `&` on unsigned values, bit by bit. */
  function BitAnd(a: nat, b: nat): nat {
    if a == 0 || b == 0 then 0
    else 2 * BitAnd(a / 2, b / 2) + (if a % 2 == 1 && b % 2 == 1 then 1 else 0)
  }

  /** C's `|` on unsigned values, bit by bit. */
  function BitOr(a: nat, b: nat): nat {
    if a == 0 && b == 0 then 0
    else 2 * BitOr(a / 2, b / 2) + (if a % 2 == 1 || b % 2 == 1 then 1 else 0)
  }

  /** The macro inc_and_wrap_ring. */
  function IncAndWrap(index: nat, ringSize: nat): nat
    requires ringSize >= 1
  {
    BitAnd(index + 1, ringSize - 1)
  }

  /** The cyclic successor that the macro is meant to compute. */
  function Next(index: nat, n: nat): nat {
    if index + 1 == n then 0 else index + 1
  }

  /** The slot that holds the j-th descriptor posted to a ring of n slots. */
  function Slot(j: nat, n: nat): (r: nat)
    requires n >= 1
    ensures r < n
  {
    if j == 0 then 0 else Next(Slot(j - 1, n), n)
  }

  // -- masks -------------------------------------------------------------------------------------

  lemma {:induction false} MaskIsMod(x: nat, k: nat)
    ensures BitAnd(x, Pow2(k) - 1) == x % Pow2(k)
  {
    if k == 0 {
    } else if x == 0 {
      assert BitAnd(x, Pow2(k) - 1) == 0;
    } else {
      var m := Pow2(k - 1);
      MaskIsMod(x / 2, k - 1);
      assert (2 * m - 1) / 2 == m - 1 && (2 * m - 1) % 2 == 1;
      HalveMod(x, m);
    }
  }

  lemma HalveMod(x: nat, m: nat)
    requires m >= 1
    ensures x % (2 * m) == 2 * ((x / 2) % m) + x % 2
  {
    var q, r := (x / 2) / m, (x / 2) % m;
    assert x / 2 == m * q + r;
    ModUnique(x, 2 * m, q, 2 * r + x % 2);
  }

  /** Quotient and remainder are determined by x == d*q + r with r in range. */
  lemma ModUnique(x: int, d: int, q: int, r: int)
    requires d > 0 && 0 <= r < d
    requires x == d * q + r
    ensures x % d == r && x / d == q
  {
    var q', r' := x / d, x % d;
    assert d * (q - q') == r' - r;
    assert q - q' >= 1 ==> d * (q - q') >= d;
    assert q - q' <= -1 ==> d * (q - q') <= -d;
  }

  lemma {:induction false} AndSelf(m: nat)
    ensures BitAnd(m, m) == m
  {
    if m > 0 { AndSelf(m / 2); }
  }

  /** The start functions test `n & (n - 1)`: it is zero exactly for the powers of two. */
  lemma {:induction false} PowerOfTwoTest(n: nat)
    requires n >= 1
    ensures BitAnd(n, n - 1) == 0 <==> IsPow2(n)
  {
    if n == 1 {
      assert n == Pow2(0);
    } else if n % 2 == 0 {
      var m := n / 2;
      PowerOfTwoTest(m);
      if IsPow2(m) {
        var k: nat :| m == Pow2(k);
        assert n == Pow2(k + 1);
      }
      if IsPow2(n) {
        var k: nat :| n == Pow2(k);
        assert m == Pow2(k - 1);
      }
    } else {
      AndSelf(n / 2);
      assert (n - 1) / 2 == n / 2;
      assert BitAnd(n, n - 1) == n - 1;
    }
  }

  /** The macro is the cyclic successor on every index exactly when the ring size is a power of two. */
  lemma WrapIffPowerOfTwo(n: nat)
    requires n >= 1
    ensures (forall i: nat | i < n :: IncAndWrap(i, n) == (i + 1) % n) <==> IsPow2(n)
  {
    PowerOfTwoTest(n);
    if IsPow2(n) {
      var k: nat :| n == Pow2(k);
      forall i: nat | i < n ensures IncAndWrap(i, n) == (i + 1) % n { MaskIsMod(i + 1, k); }
    } else {
      assert IncAndWrap(n - 1, n) != n % n;
    }
  }

  lemma WrapIsNext(i: nat, n: nat)
    requires IsPow2(n) && i < n
    ensures IncAndWrap(i, n) == Next(i, n)
  {
    var k: nat :| n == Pow2(k);
    MaskIsMod(i + 1, k);
    ModUnique(i + 1, n, if i + 1 == n then 1 else 0, Next(i, n));
  }

  /** The low k bits of `a | b` depend only on the low k bits of a and b. */
  lemma {:induction false} OrLowBits(a: nat, b: nat, k: nat)
    requires a % Pow2(k) == 0
    ensures BitOr(a, b) % Pow2(k) == b % Pow2(k)
  {
    if k == 0 {
    } else if a == 0 && b == 0 {
    } else {
      var m := Pow2(k - 1);
      HalveMod(a, m);
      assert a % 2 == 0;
      OrLowBits(a / 2, b / 2, k - 1);
      HalveMod(b, m);
      HalveMod(BitOr(a, b), m);
    }
  }

  lemma ModShift(i: nat, d: nat, n: nat)
    requires n >= 1 && d <= n
    ensures (i + d) % n == if i % n + d < n then i % n + d else i % n + d - n
  {
    var q, r := i / n, i % n + d;
    assert i + d == n * q + r;
    if r < n {
      ModUnique(i + d, n, q, r);
    } else {
      assert n * (q + 1) == n * q + n;
      ModUnique(i + d, n, q + 1, r - n);
    }
  }

  // -- slots -------------------------------------------------------------------------------------

  lemma {:induction false} SlotIsMod(j: nat, n: nat)
    requires n >= 1
    ensures Slot(j, n) == j % n
  {
    if j > 0 {
      SlotIsMod(j - 1, n);
      ModShift(j - 1, 1, n);
    }
  }

  lemma {:induction false} SlotSmall(j: nat, n: nat)
    requires j < n
    ensures Slot(j, n) == j
  {
    if j > 0 { SlotSmall(j - 1, n); }
  }

  lemma {:induction false} SlotPeriod(j: nat, n: nat)
    requires n >= 1
    ensures Slot(j + n, n) == Slot(j, n)
  {
    SlotIsMod(j, n);
    SlotIsMod(j + n, n);
    ModShift(j, n, n);
  }

  /** Fewer than n consecutive descriptors never share a slot. */
  lemma SlotInjective(i: nat, j: nat, n: nat)
    requires n >= 1 && i < j < i + n
    ensures Slot(i, n) != Slot(j, n)
  {
    SlotIsMod(i, n);
    SlotIsMod(j, n);
    ModShift(i, j - i, n);
  }

  lemma SlotPlus(j: nat, k: nat, n: nat)
    requires k < n
    ensures Slot(j + k, n) == (Slot(j, n) + k) % n
  {
    SlotIsMod(j, n);
    SlotIsMod(j + k, n);
    ModShift(j, k, n);
    ModUnique(Slot(j, n) + k, n, if j % n + k < n then 0 else 1, Slot(j + k, n));
  }

  /** The cyclic distance between the slots of two descriptors is their distance in the run. */
  lemma SlotDistance(i: nat, j: nat, n: nat)
    requires i <= j < i + n
    ensures (Slot(j, n) - Slot(i, n)) % n == j - i
  {
    SlotPlus(i, j - i, n);
    var a := Slot(i, n);
    if a + (j - i) < n {
      ModUnique(a + (j - i), n, 0, a + (j - i));
      ModUnique(Slot(j, n) - a, n, 0, j - i);
    } else {
      ModUnique(a + (j - i), n, 1, a + (j - i) - n);
      ModUnique(Slot(j, n) - a, n, -1, j - i);
    }
  }

  /** Two descriptors at most n apart share a slot exactly when they are 0 or n apart. */
  lemma SlotEqual(i: nat, j: nat, n: nat)
    requires n >= 1 && i <= j <= i + n
    ensures Slot(i, n) == Slot(j, n) <==> (i == j || j == i + n)
  {
    SlotPeriod(i, n);
    if i < j < i + n { SlotInjective(i, j, n); }
  }

  /** In a window of at most n descriptors, none shares the slot of descriptor j. */
  lemma OthersElsewhere(j: nat, lo: nat, hi: nat, n: nat)
    requires n >= 1 && lo <= j < hi <= lo + n
    ensures forall i | lo <= i < hi && i != j :: Slot(i, n) != Slot(j, n)
  {
    forall i | lo <= i < hi && i != j ensures Slot(i, n) != Slot(j, n) {
      if i < j { SlotInjective(i, j, n); } else { SlotInjective(j, i, n); }
    }
  }

  lemma CyclicPredecessor(j: nat, n: nat)
    requires n >= 2
    ensures Slot(j + n - 1, n) == (Slot(j, n) - 1) % n
  {
    SlotPlus(j, n - 1, n);
    var a := Slot(j, n);
    if a == 0 {
      ModUnique(a - 1, n, -1, n - 1);
      ModUnique(a + (n - 1), n, 0, n - 1);
    } else {
      ModUnique(a - 1, n, 0, a - 1);
      ModUnique(a + (n - 1), n, 1, a - 1);
    }
  }

  /** Every slot s is the slot of one of the n descriptors from j on. */
  lemma SlotOffset(j: nat, s: nat, n: nat)
    requires s < n
    ensures 0 <= (s - Slot(j, n)) % n < n && Slot(j + (s - Slot(j, n)) % n, n) == s
  {
    var a := Slot(j, n);
    ModUnique(s - a, n, if s >= a then 0 else -1, if s >= a then s - a else s - a + n);
    var k := (s - a) % n;
    SlotPlus(j, k, n);
    ModUnique(a + k, n, if s >= a then 0 else 1, s);
  }
}
