/** Powers of two: the bit mask that indexes the retransmit ring, and next_pow2. */
module Bits {
  import opened Modular

  function Pow2(k: nat): (p: nat)
    ensures p >= 1
  {
    if k == 0 then 1 else 2 * Pow2(k - 1)
  }

  ghost predicate IsPow2(n: nat) {
    exists k: nat :: n == Pow2(k)
  }

  /** Bitwise and. */
  function And(a: nat, b: nat): (r: nat)
    ensures r <= a && r <= b
  {
    if a == 0 || b == 0 then 0
    else (if a % 2 == 1 && b % 2 == 1 then 1 else 0) + 2 * And(a / 2, b / 2)
  }

  /** Masking with 2^k - 1 is the remainder by 2^k. */
  lemma {:induction false} MaskIsMod(a: nat, k: nat)
    ensures And(a, Pow2(k) - 1) == a % Pow2(k)
  {
    var m := Pow2(k);
    if a == 0 {
      ModIs(a, m, 0, 0);
    } else if k > 0 {
      MaskIsMod(a / 2, k - 1);
      MaskStep(a, Pow2(k - 1), m);
    }
  }

  lemma MaskStep(a: nat, n: nat, m: nat)
    requires a > 0 && n > 0 && m == 2 * n && And(a / 2, n - 1) == a / 2 % n
    ensures And(a, m - 1) == a % m
  {
    assert (m - 1) / 2 == n - 1 && (m - 1) % 2 == 1;
    ModByDouble(a, n);
  }

  lemma ModByDouble(a: nat, n: nat)
    requires n > 0
    ensures a % (2 * n) == 2 * (a / 2 % n) + a % 2
  {
    var q, r := a / 2 / n, a / 2 % n;
    Regroup(2, n, q, r);
    ModIs(a, 2 * n, q, 2 * r + a % 2);
  }

  lemma Regroup(a: nat, b: nat, c: int, d: int)
    ensures (a * b) * c + a * d == a * (b * c + d)
  {
  }

  /** n and n - 1 have no bit in common only if n is a power of two. */
  lemma {:induction false} NoCommonBit(n: nat)
    requires n > 0 && And(n, n - 1) == 0
    ensures IsPow2(n)
  {
    if n == 1 {
      assert n == Pow2(0);
    } else if n % 2 == 0 {
      assert (n - 1) / 2 == n / 2 - 1;
      NoCommonBit(n / 2);
      var k: nat :| n / 2 == Pow2(k);
      assert n == Pow2(k + 1);
    } else {
      var m := n / 2;
      assert (n - 1) / 2 == m;
      AndSelf(m);
      assert false;
    }
  }

  lemma {:induction false} AndSelf(m: nat)
    ensures And(m, m) == m
  {
    if m > 0 { AndSelf(m / 2); }
  }

  /** Indexing by the mask size - 1 is indexing modulo size for every number exactly when size
      is a power of two. */
  lemma MaskIndexesIffPow2(size: nat)
    requires size > 0
    ensures (forall n: nat :: And(n, size - 1) == n % size) <==> IsPow2(size)
  {
    if IsPow2(size) {
      var k: nat :| size == Pow2(k);
      forall n: nat ensures And(n, size - 1) == n % size {
        MaskIsMod(n, k);
      }
    } else {
      ModIs(size, size, 1, 0);
      if And(size, size - 1) == size % size {
        NoCommonBit(size);
      }
    }
  }

  lemma {:induction false} Pow2Splits(j: nat, k: nat)
    ensures Pow2(j + k) == Pow2(j) * Pow2(k)
  {
    if j > 0 {
      Pow2Splits(j - 1, k);
      assert 2 * (Pow2(j - 1) * Pow2(k)) == (2 * Pow2(j - 1)) * Pow2(k);
    }
  }

  /** Reducing modulo a larger power of two first does not change the position. */
  lemma ModOfMod(n: nat, j: nat, k: nat)
    requires j <= k
    ensures n % Pow2(k) % Pow2(j) == n % Pow2(j)
  {
    Pow2Splits(j, k - j);
    ModOfMultiple(n, Pow2(j), Pow2(k - j));
  }

  lemma ModOfMultiple(n: nat, b: nat, c: nat)
    requires b > 0 && c > 0 && b * c > 0
    ensures n % (b * c) % b == n % b
  {
    var q, r := n / (b * c), n % (b * c);
    assert n == (b * c) * q + r;
    Regroup(b, c, q, r / b);
    ModIs(n, b, c * q + r / b, r % b);
  }

  lemma {:induction false} Pow2Monotone(j: nat, k: nat)
    requires j <= k
    ensures Pow2(j) <= Pow2(k)
  {
    if j < k { Pow2Monotone(j, k - 1); }
  }

  lemma Pow2At30()
    ensures Pow2(10) == 1024 && Pow2(30) == 0x4000_0000
  {
    assert Pow2(5) == 32;
    Pow2Splits(5, 5);
    Pow2Splits(10, 10);
    Pow2Splits(10, 20);
  }

  lemma Pow2At32()
    ensures Pow2(32) == 0x1_0000_0000
  {
    Pow2At30();
    assert Pow2(2) == 4;
    Pow2Splits(2, 30);
  }

  /** next_pow2: the least power of two that is not less than want, and no overflow on the
      way. The comment on the source function promises one greater than its argument; the
      loop stops at equality. */
  method NextPow2(want: int) returns (out: nat)
    requires want < 0x4000_0000
    ensures want <= out <= 0x4000_0000 && IsPow2(out)
    ensures forall k :: want <= Pow2(k) ==> out <= Pow2(k)
  {
    out := 1;
    ghost var j := 0;
    while out < want
      invariant out == Pow2(j)
      invariant forall k :: want <= Pow2(k) ==> out <= Pow2(k)
      decreases want - out
    {
      forall k | want <= Pow2(k) ensures 2 * out <= Pow2(k) {
        if k <= j { Pow2Monotone(k, j); } else { Pow2Monotone(j + 1, k); }
      }
      out := 2 * out;
      j := j + 1;
    }
    Pow2At30();
  }
}
