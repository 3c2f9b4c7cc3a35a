// The bit masks of powers of two, on unbounded naturals.
module Bits {

  newtype byte = x: int | 0 <= x < 256

  function Pow2(k: nat): (p: nat)
    ensures p > 0
  {
    if k == 0 then 1 else 2 * Pow2(k - 1)
  }

  ghost predicate IsPow2(n: nat) {
    exists k: nat :: n == Pow2(k)
  }

  /** a & b. */
  function And(a: nat, b: nat): nat {
    if a == 0 || b == 0 then 0 else 2 * And(a / 2, b / 2) + if a % 2 == 1 && b % 2 == 1 then 1 else 0
  }

  /** a & ~b. */
  function AndNot(a: nat, b: nat): nat {
    if a == 0 then 0 else 2 * AndNot(a / 2, b / 2) + if a % 2 == 1 && b % 2 == 0 then 1 else 0
  }

  /** a ^ b. */
  function Xor(a: nat, b: nat): nat {
    if a == 0 && b == 0 then 0 else 2 * Xor(a / 2, b / 2) + if a % 2 == b % 2 then 0 else 1
  }

  lemma {:induction false} XorZero(a: nat)
    ensures Xor(a, 0) == a
  {
    if a > 0 {
      XorZero(a / 2);
    }
  }

  /** Masking with 2^k - 1 gives the remainder by 2^k. */
  lemma {:induction false} MaskIsMod(a: nat, k: nat)
    ensures And(a, Pow2(k) - 1) == a % Pow2(k)
    decreases k
  {
    hide And;
    if k == 0 {
      AndZero(a);
    } else {
      MaskIsMod(a / 2, k - 1);
      MaskTwice(a, Pow2(k - 1));
    }
  }

  lemma AndZero(a: nat)
    ensures And(a, 0) == 0 == a % 1
  {
  }

  lemma MaskTwice(a: nat, p: nat)
    requires p > 0 && And(a / 2, p - 1) == (a / 2) % p
    ensures And(a, 2 * p - 1) == a % (2 * p)
  {
    hide And, AndNot;
    AndHalves(a, p);
    HalveMod(a, p);
  }

  lemma AndHalves(a: nat, p: nat)
    requires p > 0
    ensures And(a, 2 * p - 1) == 2 * And(a / 2, p - 1) + a % 2
    ensures AndNot(a, 2 * p - 1) == 2 * AndNot(a / 2, p - 1)
  {
    assert (2 * p - 1) / 2 == p - 1 && (2 * p - 1) % 2 == 1;
  }

  lemma HalveMod(a: nat, p: nat)
    requires p > 0
    ensures a % (2 * p) == 2 * ((a / 2) % p) + a % 2
  {
    var q, r := (a / 2) / p, (a / 2) % p;
    assert a / 2 == q * p + r;
    assert a == q * (2 * p) + (2 * r + a % 2);
    ModUnique(a, 2 * p, q, 2 * r + a % 2);
  }

  lemma ModUnique(a: nat, n: nat, q: nat, r: nat)
    requires n > 0 && r < n && a == q * n + r
    ensures a % n == r
  {
    var d := a / n - q;
    assert a == (a / n) * n + a % n;
    Distribute(a / n, q, n);
    if d > 0 {
      AtLeast(d, n);
    } else if d < 0 {
      Distribute(0, d, n);
      AtLeast(-d, n);
    }
  }

  lemma ClearedIsMultiple(a: nat, n: nat)
    requires n > 0
    ensures 0 <= a % n < n && a % n <= a && (a - a % n) % n == 0
  {
    var q := a / n;
    assert a == q * n + a % n;
    assert q * n >= 0;
    ModUnique(a - a % n, n, q, 0);
  }

  lemma Distribute(x: int, y: int, n: int)
    ensures (x - y) * n == x * n - y * n
  {
  }

  lemma AtLeast(d: int, n: int)
    requires d >= 1 && n >= 0
    ensures d * n >= n
  {
    Distribute(d, 1, n);
    assert (d - 1) * n >= 0;
  }

  lemma ClearTwice(a: nat, p: nat)
    requires p > 0 && AndNot(a / 2, p - 1) == a / 2 - (a / 2) % p
    ensures AndNot(a, 2 * p - 1) == a - a % (2 * p)
  {
    hide And, AndNot;
    AndHalves(a, p);
    HalveMod(a, p);
  }

  /** Masking with ~(2^k - 1) takes that remainder away. */
  lemma {:induction false} ClearMask(a: nat, k: nat)
    ensures AndNot(a, Pow2(k) - 1) == a - a % Pow2(k)
    decreases k
  {
    if k == 0 {
      ClearNothing(a);
    } else {
      hide AndNot;
      ClearMask(a / 2, k - 1);
      ClearTwice(a, Pow2(k - 1));
    }
  }

  lemma {:induction false} ClearNothing(a: nat)
    ensures AndNot(a, 0) == a
  {
    if a > 0 {
      ClearNothing(a / 2);
    }
  }

  /** The test for a power of two. */
  lemma {:induction false} Pow2Test(n: nat)
    requires n > 0
    ensures And(n, n - 1) == 0 <==> IsPow2(n)
  {
    if n == 1 {
      assert n == Pow2(0);
    } else if n % 2 == 1 {
      AndOdd(n);
      OddNotPow2(n);
    } else {
      Pow2Test(n / 2);
      AndEven(n);
      HalfPow2(n);
    }
  }

  lemma OddNotPow2(n: nat)
    requires n > 1 && n % 2 == 1
    ensures !IsPow2(n)
  {
    forall k: nat
      ensures n != Pow2(k)
    {
    }
  }

  lemma AndEven(n: nat)
    requires n > 1 && n % 2 == 0
    ensures And(n, n - 1) == 2 * And(n / 2, n / 2 - 1)
  {
    assert (n - 1) / 2 == n / 2 - 1;
  }

  lemma HalfPow2(n: nat)
    requires n > 1 && n % 2 == 0
    ensures IsPow2(n) <==> IsPow2(n / 2)
  {
    if IsPow2(n / 2) {
      var k: nat :| n / 2 == Pow2(k);
      assert n == Pow2(k + 1);
    }
    if IsPow2(n) {
      var k: nat :| n == Pow2(k);
      assert n / 2 == Pow2(k - 1);
    }
  }

  lemma AndOdd(n: nat)
    requires n > 1 && n % 2 == 1
    ensures And(n, n - 1) != 0
  {
    AndSelf(n / 2);
  }

  lemma {:induction false} AndSelf(n: nat)
    ensures And(n, n) == n
  {
    if n > 0 {
      AndSelf(n / 2);
    }
  }
}
