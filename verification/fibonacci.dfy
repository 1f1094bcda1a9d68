/**
 The reference Fibonacci recurrence and the identities the fast-doubling
 algorithms rest on.
 */
module Fibonacci {

  /** The naive recursive definition: F(0) = 0, F(1) = 1, F(n) = F(n-1) + F(n-2). */
  function Fib(n: nat): nat
  {
    if n > 1 then Fib(n - 1) + Fib(n - 2) else n
  }

  /** Addition law: F(m+n+1) = F(m+1)·F(n+1) + F(m)·F(n). */
  lemma {:induction false} FibAddition(m: nat, n: nat)
    ensures Fib(m + n + 1) == Fib(m + 1) * Fib(n + 1) + Fib(m) * Fib(n)
    decreases n
  {
    if n == 0 {
      assert Fib(1) == 1;
    } else if n == 1 {
      assert Fib(2) == 1;
    } else {
      FibAddition(m, n - 1);
      FibAddition(m, n - 2);
      FibAdditionStep(m, n);
    }
  }

  /** Inductive step of the addition law: the instances at n-1 and n-2 give the one at n. */
  lemma FibAdditionStep(m: nat, n: nat)
    requires n >= 2
    requires Fib(m + n) == Fib(m + 1) * Fib(n) + Fib(m) * Fib(n - 1)
    requires Fib(m + n - 1) == Fib(m + 1) * Fib(n - 1) + Fib(m) * Fib(n - 2)
    ensures Fib(m + n + 1) == Fib(m + 1) * Fib(n + 1) + Fib(m) * Fib(n)
  {
    SumOfProducts(Fib(m + n), Fib(m + n - 1), Fib(m + 1), Fib(m), Fib(n), Fib(n - 1), Fib(n - 2));
  }

  /** Regrouping step of the addition law's induction. */
  lemma SumOfProducts(a: int, b: int, p: int, q: int, x: int, y: int, z: int)
    requires a == p * x + q * y && b == p * y + q * z
    ensures a + b == p * (x + y) + q * (y + z)
  {
  }

  /** Even doubling identity in the form used by the recursive variant: F(2k) = (2·F(k-1) + F(k))·F(k). */
  lemma FibDoubleEven(k: nat)
    requires k >= 1
    ensures Fib(2 * k) == Fib(k) * (Fib(k) + 2 * Fib(k - 1))
  {
    FibAddition(k - 1, k);
    EvenRegroup(Fib(2 * k), Fib(k), Fib(k - 1), Fib(k + 1));
  }

  /** Regrouping step of the even doubling identity, with z = x + y standing for F(k+1). */
  lemma EvenRegroup(f: int, x: int, y: int, z: int)
    requires f == x * z + y * x && z == x + y
    ensures f == x * (x + 2 * y)
  {
  }

  /** Odd doubling identity in the form used by the recursive variant: F(2k-1) = F(k-1)² + F(k)². */
  lemma FibDoubleOdd(k: nat)
    requires k >= 1
    ensures Fib(2 * k - 1) == Fib(k) * Fib(k) + Fib(k - 1) * Fib(k - 1)
  {
    FibAddition(k - 1, k - 1);
  }

  /**
   Doubling step in the form used by the iterative variant: from (F(m), F(m+1))
   one gets F(2m) = F(m)·(2·F(m+1) − F(m)) and F(2m+1) = F(m)² + F(m+1)².
   */
  lemma FibDoubleStep(m: nat)
    ensures Fib(2 * m) == Fib(m) * (2 * Fib(m + 1) - Fib(m))
    ensures Fib(2 * m + 1) == Fib(m) * Fib(m) + Fib(m + 1) * Fib(m + 1)
  {
    FibAddition(m, m);
    if m >= 1 {
      FibDoubleEven(m);
      var x, y := Fib(m), Fib(m - 1);
      assert Fib(m + 1) == x + y;
      assert 2 * Fib(m + 1) - x == x + 2 * y;
    }
  }
}
