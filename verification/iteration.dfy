/**
 The two linear-time iterative algorithms: the growing list seeded with [0, 1]
 and the rolling pair of variables.
 */
module Iteration {
  import opened Fibonacci

  /**
   Array iteration: start from the list [0, 1], append the sum of the last two
   entries for i = 1, …, n-1 (only when n > 1), and return entry n.
   */
  method FibArray(n: nat) returns (r: nat)
    ensures r == Fib(n)
  {
    var a: seq<nat> := [0, 1];
    if n > 1 {
      var i := 1;
      while i < n
        invariant 1 <= i <= n
        invariant |a| == i + 1
        invariant forall j :: 0 <= j < |a| ==> a[j] == Fib(j)
      {
        var next := a[i] + a[i - 1];
        AppendNextFib(a, next);
        a := a + [next];
        i := i + 1;
      }
    }
    r := a[n];
  }

  /** Appending the sum of the last two entries to a list of F(0), …, F(k) gives F(0), …, F(k+1). */
  lemma AppendNextFib(a: seq<nat>, next: nat)
    requires |a| >= 2 && forall j :: 0 <= j < |a| ==> a[j] == Fib(j)
    requires next == a[|a| - 1] + a[|a| - 2]
    ensures forall j :: 0 <= j < |a| + 1 ==> (a + [next])[j] == Fib(j)
  {
    assert Fib(|a|) == Fib(|a| - 1) + Fib(|a| - 2);
  }

  /**
   Two-variable iteration without a guard: n simultaneous updates
   (a, b) := (b, a + b) starting from (0, 1), then return a.
   */
  method FibTwoVarsFixed(n: nat) returns (r: nat)
    ensures r == Fib(n)
  {
    var a, b := 0, 1;
    var i := 0;
    while i < n
      invariant 0 <= i <= n
      invariant a == Fib(i) && b == Fib(i + 1)
    {
      a, b := b, a + b;
      i := i + 1;
    }
    r := a;
  }

  /**
   Two-variable iteration as written: the loop runs only when n > 1, so for
   n == 1 the initial a = 0 is returned, which differs from F(1) = 1.
   */
  method FibTwoVars(n: nat) returns (r: nat)
    ensures n != 1 ==> r == Fib(n)
    ensures n == 1 ==> r == 0 && r != Fib(n)
  {
    var a := 0;
    if n > 1 {
      a := FibTwoVarsFixed(n);
    }
    r := a;
  }
}
