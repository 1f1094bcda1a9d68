/**
 The two logarithmic fast-doubling algorithms: recursive on the halved index,
 and iterative over the binary prefixes of n.
 */
module FastDoubling {
  import opened Fibonacci

  /**
   Sub-index of the recursive variant for n >= 2: n/2 when n is even and
   (n+1)/2 when n is odd. The recursion asks for F(k) and F(k-1).
   */
  function HalfIndex(n: nat): (k: nat)
    requires n >= 2
    ensures 1 <= k < n
    ensures n % 2 == 0 ==> n == 2 * k
    ensures n % 2 == 1 ==> n == 2 * k - 1
  {
    if n % 2 == 0 then n / 2 else (n + 1) / 2
  }

  /** Recursive fast doubling: F(2k) = F(k)·(F(k) + 2·F(k-1)) and F(2k-1) = F(k)² + F(k-1)². */
  function FibRecDoubling(n: nat): (r: nat)
    ensures r == Fib(n)
    decreases n
  {
    if n == 0 || n == 1 then n
    else
      var k := HalfIndex(n);
      var fa := FibRecDoubling(k);
      var fb := FibRecDoubling(k - 1);
      if n % 2 == 0 then
        FibDoubleEven(k);
        fa * (fa + 2 * fb)
      else
        FibDoubleOdd(k);
        fa * fa + fb * fb
  }

  /**
   The stack built by the iterative variant: n, n>>1, …, 1 in push order,
   each entry the previous one shifted right by one bit, empty exactly when n == 0.
   */
  ghost predicate HalvingChain(ns: seq<nat>, n: nat)
  {
    (|ns| == 0 <==> n == 0)
    && (|ns| > 0 ==> ns[0] == n && ns[|ns| - 1] == 1)
    && (forall j :: 0 < j < |ns| ==> ns[j] == ns[j - 1] / 2)
  }

  /** First phase of the iterative variant: push n and shift right until it reaches 0. */
  method PushHalvings(n: nat) returns (ns: seq<nat>)
    ensures HalvingChain(ns, n)
  {
    ns := [];
    var m := n;
    while m != 0
      invariant |ns| == 0 ==> m == n
      invariant |ns| > 0 ==> n > 0
      invariant |ns| > 0 ==> ns[0] == n && ns[|ns| - 1] / 2 == m && ns[|ns| - 1] > 0
      invariant forall j :: 0 < j < |ns| ==> ns[j] == ns[j - 1] / 2
      decreases m
    {
      ns := ns + [m];
      m := m / 2;
    }
  }

  /**
   Popping the chain from the end visits the binary prefixes of n in order:
   each popped value is twice the previously popped one (0 before the first
   pop) plus its own low bit.
   */
  lemma PopExtendsPrefix(ns: seq<nat>, n: nat, i: nat)
    requires HalvingChain(ns, n)
    requires i < |ns|
    ensures var prev := if i == |ns| - 1 then 0 else ns[i + 1];
            ns[i] == 2 * prev + ns[i] % 2
  {
  }

  /**
   Iterative fast doubling: pop the stack (most significant prefix first),
   keeping (a, b) == (F(m), F(m+1)) for the last popped prefix m (0 before any pop).
   */
  method FibIterDoubling(n: nat) returns (r: nat)
    ensures r == Fib(n)
  {
    var ns := PushHalvings(n);
    ghost var full := ns;
    var a: int, b: int := 0, 1;
    ghost var m: nat := 0;
    while |ns| > 0
      invariant |ns| <= |full| && ns == full[..|ns|]
      invariant |ns| == |full| ==> m == 0
      invariant |ns| < |full| ==> m == full[|ns|]
      invariant a == Fib(m) && b == Fib(m + 1)
      decreases |ns|
    {
      var top := ns[|ns| - 1];
      ns := ns[..|ns| - 1];
      PopExtendsPrefix(full, n, |ns|);
      var c := a * (2 * b - a);
      var d := a * a + b * b;
      FibDoubleStep(m);
      if top % 2 == 1 {
        a, b := d, c + d;
      } else {
        a, b := c, d;
      }
      m := top;
    }
    r := a;
  }
}
