/** Positions in a ring: remainders by a size that is not a literal. */
module Modular {

  lemma MulAtLeast(n: nat, k: nat)
    requires k >= 1
    ensures n * k >= n
  {
  }

  lemma Distribute(n: nat, a: int, b: int)
    ensures n * (a - b) == n * a - n * b
  {
  }

  lemma DivUnique(n: nat, q1: int, r1: int, q2: int, r2: int)
    requires 0 <= r1 < n && 0 <= r2 < n
    requires n * q1 + r1 == n * q2 + r2
    ensures q1 == q2 && r1 == r2
  {
    if q1 < q2 {
      MulAtLeast(n, q2 - q1);
      Distribute(n, q2, q1);
      assert false;
    }
    if q2 < q1 {
      MulAtLeast(n, q1 - q2);
      Distribute(n, q1, q2);
      assert false;
    }
  }

  lemma ModIs(a: nat, n: nat, q: int, r: int)
    requires 0 <= r < n && a == n * q + r
    ensures a % n == r && a / n == q
  {
    DivUnique(n, a / n, a % n, q, r);
  }

  /** Two numbers less than n apart have different positions in a ring of n. */
  lemma DistinctSlots(a: nat, b: nat, n: nat)
    requires a < b < a + n
    ensures a % n != b % n
  {
    if a % n == b % n {
      var i, j := a / n, b / n;
      Distribute(n, j, i);
      if j > i { MulAtLeast(n, j - i); }
      if j < i {
        MulAtLeast(n, i - j);
        Distribute(n, i, j);
      }
      assert false;
    }
  }

  lemma SameSlot(a: nat, n: nat)
    requires n > 0
    ensures (a + n) % n == a % n
  {
    Distribute(n, a / n, -1);
    ModIs(a + n, n, a / n + 1, a % n);
  }

  /** The next position is one further on, or the first one again. */
  lemma NextSlot(a: nat, n: nat)
    requires n > 0
    ensures (a + 1) % n == if a % n + 1 == n then 0 else a % n + 1
  {
    if a % n + 1 == n {
      Distribute(n, a / n, -1);
      ModIs(a + 1, n, a / n + 1, 0);
    } else {
      ModIs(a + 1, n, a / n, a % n + 1);
    }
  }
}
