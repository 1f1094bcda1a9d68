# Exact-integer Fibonacci algorithms

A Dafny model of the exact-integer Fibonacci functions of `fib.py`: the naive
recurrence `fib`, the list-based iteration `fibitar`, the two-variable iteration
`fibitv`, recursive fast doubling `fibrfd` and iterative fast doubling `fibifd`.
Every algorithm is proved to agree with the naive recurrence, except `fibitv` at
`n = 1` (see Findings), whose unguarded variant agrees everywhere. The recurrence serves as the
specification (`Fibonacci.Fib`, a direct transcription of `fib`: `n` for `n <= 1`,
otherwise the sum of the two previous values).

Layout:

- `fibonacci.dfy` (module `Fibonacci`): the reference `Fib`, the addition law
  `F(m+n+1) = F(m+1)·F(n+1) + F(m)·F(n)` proved by induction, and the doubling
  identities in the two shapes the fast-doubling algorithms use.
- `iteration.dfy` (module `Iteration`): `fibitar` as `FibArray` (the list is a
  `seq<nat>`) and `fibitv` as `FibTwoVars`, with its corrected variant.
- `doubling.dfy` (module `FastDoubling`): `fibrfd` as the recursive function
  `FibRecDoubling`, `fibifd` as the method `FibIterDoubling`, whose stack is a
  `seq<nat>` built by `PushHalvings`.

Python integers are unbounded, so `int`/`nat` model them exactly. On the
non-negative values these functions see, `n >> 1` is `n / 2`, `n & 1` is
`n % 2` and `b << 1` is `2 * b`. Inputs are `nat`.

## Model

| member | source | states |
|---|---|---|
| Fibonacci.FibAddition | fib.py:24-28 | the addition law F(m+n+1) = F(m+1)·F(n+1) + F(m)·F(n) for all m, n, by induction on n over the recurrence |
| Fibonacci.FibAdditionStep | fib.py:24-28 | for n >= 2, the addition law at n-1 and n-2 together with the recurrence give it at n |
| Fibonacci.FibDoubleEven | fib.py:77 | for k >= 1, F(2k) = F(k)·(F(k) + 2·F(k-1)) |
| Fibonacci.FibDoubleOdd | fib.py:76 | for k >= 1, F(2k-1) = F(k)² + F(k-1)² |
| Fibonacci.FibDoubleStep | fib.py:110-111 | for every m, F(m)·(2·F(m+1) − F(m)) = F(2m) and F(m)² + F(m+1)² = F(2m+1) |
| Iteration.FibArray | fib.py:33-40 | returns F(n) for every n >= 0, including 0 and 1 where no entry is appended; the loop keeps the list at length i+1 with every entry j equal to F(j), so index n is in range |
| Iteration.AppendNextFib | fib.py:37-38 | appending the sum of the last two entries to a list holding F(0), …, F(k) yields a list holding F(0), …, F(k+1) |
| Iteration.FibTwoVars | fib.py:45-54 | returns F(n) for every n except 1; for n = 1 the guarded loop does not run and it returns 0, which differs from F(1) |
| Iteration.FibTwoVarsFixed | fib.py:50-54 | n simultaneous updates (a, b) := (b, a+b) from (0, 1) keep (a, b) = (F(i), F(i+1)), so the result is F(n) for every n |
| FastDoubling.HalfIndex | fib.py:84-95 | for n >= 2 the sub-index k satisfies 1 <= k < n, with n = 2k when n is even and n = 2k-1 when n is odd, so both recursive indices k and k-1 are smaller than n |
| FastDoubling.FibRecDoubling | fib.py:80-96 | returns F(n) for every n, combining F(k) and F(k-1) by the even or odd doubling identity; terminates because the sub-indices are below n |
| FastDoubling.PushHalvings | fib.py:101-104 | the stack is n, n>>1, …, 1 in push order (each entry the previous one halved, first n, last 1) and is empty exactly when n = 0 |
| FastDoubling.PopExtendsPrefix | fib.py:108-109 | on such a stack, each popped value is twice the previously popped value (0 before the first pop) plus its own low bit |
| FastDoubling.FibIterDoubling | fib.py:100-117 | returns F(n) for every n (0 for n = 0); after each pop of m the pair is (F(m), F(m+1)), the low bit of m choosing (d, c+d) or (c, d) |

`Fibonacci.Fib` (fib.py:24-28) is the reference definition itself and carries no
contract; its termination (both recursive arguments are smaller) is checked by
Dafny.

## Findings

| source | as written | input that shows it | evidently intended | confidence | as-written member | corrected member |
|---|---|---|---|---|---|---|
| fib.py:49 | `fibitv` runs its loop only when `n > 1` and otherwise returns the initial `a = 0` | `n = 1` returns 0, but F(1) = 1 | the loop runs unconditionally (`range(0)` already leaves `a = 0` for `n = 0`), giving F(n) for every n | high; not executed | Iteration.FibTwoVars | Iteration.FibTwoVarsFixed |

## Left out

- `fib_matrix` (fib.py:64-67): a wrapper over a numeric array library whose element width and overflow behaviour are not visible here; it also returns a 2×1 array rather than a number.
- `fib_formula` (fib.py:69-73): floating-point closed-form approximation; floating point is not modelled.
- The timing and printing driver (fib.py:121-127): I/O only.
- FastDoubling.FibRecDoubling: computes its sub-indices with exact integer division, whereas `fibrfd` uses float division and float base cases converted by `int(...)`; the two agree only while the indices are exactly representable as floats. The model therefore does not reproduce two behaviours of the source: for n above 2^54, of either parity, the float sub-indices at fib.py:85-86 and 92-93 can round (e.g. n = 2^54 + 1, where `(n + 1)/2` = 2^53 + 1 rounds to 2^53, and n = 2^54 + 2, where `n/2` rounds the same way), so `fibrfd` recurses on a wrong index and returns a wrong value; and once n/2 exceeds the largest float (n >= 2^1025) the division raises OverflowError, an error path the `nat` model does not have.
- Negative `n`: not a supported input; every model takes a `nat`.
- Running time and space: not modelled.
