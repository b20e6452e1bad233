/**
 The four Fibonacci routines of `Fibonacci/fibonacci.py`, each compared with
 the textbook sequence `Fib` (`Fib(0) == 0`, `Fib(1) == 1`). The recursive
 and iterative routines are modelled as written and next to a corrected
 version; the memoized and matrix routines compute `Fib` as written.
 */
module Fibonacci {
  import opened Matrices
  import opened LinearAlgebra
  import opened StrassenProofs

  /** The Fibonacci sequence: 0, 1, 1, 2, 3, 5, ... */
  function Fib(n: nat): nat {
    if n < 2 then n else Fib(n - 1) + Fib(n - 2)
  }

  // ---------------------------------------------------------------------
  // fib_recursive
  // ---------------------------------------------------------------------

  /** `fib_recursive` as written: its base case returns `n` for every
      `n <= 2`, so from 1 on it runs one step ahead of the sequence. */
  function FibRecursive(n: int): (r: int)
    ensures n <= 0 ==> r == n
    ensures n >= 1 ==> r == Fib(n + 1)
    decreases if n > 0 then n else 0
  {
    if n <= 2 then n else FibRecursive(n - 1) + FibRecursive(n - 2)
  }

  /** At 3 the routine answers 3 where the third Fibonacci number is 2. */
  lemma FibRecursiveRunsAhead()
    ensures FibRecursive(3) == 3 && Fib(3) == 2
  {
    assert Fib(2) == 1;
  }

  /** `fib_recursive` with the base case `n <= 1`: the `n`-th Fibonacci
      number for every `n >= 0`. */
  function FibRecursiveFixed(n: int): (r: int)
    ensures n >= 0 ==> r == Fib(n)
    ensures n < 0 ==> r == n
    decreases if n > 0 then n else 0
  {
    if n <= 1 then n else FibRecursiveFixed(n - 1) + FibRecursiveFixed(n - 2)
  }

  // ---------------------------------------------------------------------
  // fib_iterative
  // ---------------------------------------------------------------------

  /** `fib_iterative` as written: starts from `prev == curr == 1` and steps
      `n - 2` times, so it returns `Fib(n)` for `n >= 1` and 1 for every
      `n <= 0`. */
  method FibIterative(n: int) returns (r: int)
    ensures n >= 1 ==> r == Fib(n)
    ensures n <= 0 ==> r == 1
  {
    var curr, prev := 1, 1;
    var i := 2;
    while i < n
      invariant 2 <= i <= if n > 2 then n else 2
      invariant curr == Fib(i) && prev == Fib(i - 1)
      decreases n - i
    {
      prev, curr := curr, curr + prev;
      i := i + 1;
    }
    r := curr;
  }

  /** At 0 the routine answers 1 where the sequence starts with 0. */
  method FibIterativeAtZero() returns (r: int)
    ensures r == 1 && r != Fib(0)
  {
    r := FibIterative(0);
  }

  /** `fib_iterative` with 0 answered as 0: the `n`-th Fibonacci number for
      every `n >= 0`; negative arguments still give 1. */
  method FibIterativeFixed(n: int) returns (r: int)
    ensures n >= 0 ==> r == Fib(n)
    ensures n < 0 ==> r == 1
  {
    if n == 0 {
      return 0;
    }
    var curr, prev := 1, 1;
    var i := 2;
    while i < n
      invariant 2 <= i <= if n > 2 then n else 2
      invariant curr == Fib(i) && prev == Fib(i - 1)
      decreases n - i
    {
      prev, curr := curr, curr + prev;
      i := i + 1;
    }
    r := curr;
  }

  // ---------------------------------------------------------------------
  // fib_memoized
  // ---------------------------------------------------------------------

  /** Python's `s[i]`: a negative index counts from the end. */
  function PyIndex(s: seq<int>, i: int): (r: int)
    requires -|s| <= i < |s|
    ensures i >= 0 ==> r == s[i]
    ensures i < 0 ==> r == s[|s| + i]
  {
    if i >= 0 then s[i] else s[|s| + i]
  }

  /** `fib_memoized`: the table `[0, 1]` grown to `n + 1` entries, then
      entry `n`. A negative `n` reads the two-entry table from the end, so
      -1 gives 1 and -2 gives 0; below -2 the source raises `IndexError`. */
  method FibMemoized(n: int) returns (r: int)
    requires n >= -2
    ensures n >= 0 ==> r == Fib(n)
    ensures n == -1 ==> r == 1
    ensures n == -2 ==> r == 0
  {
    var memory := [0, 1];
    var i := 2;
    while i < n + 1
      invariant 2 <= i && |memory| == i
      invariant i <= if n + 1 > 2 then n + 1 else 2
      invariant forall j :: 0 <= j < i ==> memory[j] == Fib(j)
      decreases n + 1 - i
    {
      var next := PyIndex(memory, -1) + PyIndex(memory, -2);
      assert memory[i - 1] == Fib(i - 1) && memory[i - 2] == Fib(i - 2);
      assert next == Fib(i);
      memory := memory + [next];
      i := i + 1;
    }
    assert memory[1] == Fib(1) == 1;
    r := PyIndex(memory, n);
  }

  // ---------------------------------------------------------------------
  // fib_matrix
  // ---------------------------------------------------------------------

  /** The matrix `[[1, 1], [1, 0]]` whose powers hold the sequence. */
  const Q: Matrix := [[1, 1], [1, 0]]

  /** Multiplying by `Q` on the left: in each column, the new top entry is
      the sum of the two entries and the new bottom entry is the old top. */
  lemma ProductByQ(b: Matrix)
    requires |b| == 2 && Tall(b)
    ensures Product(Q, b) == [[b[0][0] + b[0][1], b[0][0]], [b[1][0] + b[1][1], b[1][0]]]
  {
    var p := Product(Q, b);
    forall c | 0 <= c < 2
      ensures p[c] == [b[c][0] + b[c][1], b[c][0]]
    {
      var col := b[c][..2];
      DotOfTwo(Row(Q, 0), col);
      DotOfTwo(Row(Q, 1), col);
      assert p[c][0] == col[0] + col[1];
      assert p[c][1] == col[0];
    }
  }

  /** The `k`-th power of `Q`, in columns: `[[Fib(k+1), Fib(k)], [Fib(k), Fib(k-1)]]`. */
  lemma {:induction false} PowersOfQ(k: nat)
    requires k >= 1
    ensures RepeatedProduct(Q, k) == [[Fib(k + 1), Fib(k)], [Fib(k), Fib(k - 1)]]
  {
    if k > 1 {
      PowersOfQ(k - 1);
      ProductByQ(RepeatedProduct(Q, k - 1));
      assert Fib(k + 1) == Fib(k) + Fib(k - 1);
    }
  }

  /** `fib_matrix`: `n` itself below 2, 1 at 2, and above that the top-left
      entry of `Q` raised to `n - 1` with `matrix_power`. */
  function FibMatrix(n: int): (r: int)
    ensures n >= 0 ==> r == Fib(n)
    ensures n < 0 ==> r == n
  {
    if n < 2 then n
    else if n == 2 then 1
    else
      PowerIsRepeatedProduct(Q, n - 1);
      PowersOfQ(n - 1);
      Power(Q, n - 1).cols[0][0]
  }
}
