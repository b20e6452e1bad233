/**
 The copy of the matrix routines that sits next to the Fibonacci code
 (`Fibonacci/matrix.py`). Its sum, difference, quadrant read and quadrant
 write are the same as those of `Matrix/matrix.py`, so they are the members
 of `Matrices`. What differs is modelled here: `matrix_identity` returns an
 empty list for size 0, and `matrix_multiply` has no guards, so sizes it
 cannot handle are excluded by its precondition instead of answered with
 `None`.
 */
module FibonacciMatrix {
  import opened Wrappers
  import opened Matrices
  import opened LinearAlgebra
  import opened StrassenProofs

  /** `matrix_identity`: `n` columns, a one on the diagonal and zeros
      elsewhere; no columns at all for size 0. */
  function Identity(n: nat): (r: Matrix)
    ensures |r| == n && Square(r)
    ensures forall c, k {:trigger r[c][k]} :: 0 <= c < n && 0 <= k < n ==>
              r[c][k] == if c == k then 1 else 0
  {
    seq(n, c requires 0 <= c < n => seq(n, k requires 0 <= k < n => if c == k then 1 else 0))
  }

  /** The two identities agree on every positive size; at size 0 this one
      is the empty matrix where the other is the flat list `[0]`. */
  lemma IdentityAgrees(n: nat)
    ensures n == 0 ==> Identity(n) == [] && Matrices.Identity(n) == FlatZero
    ensures n >= 1 ==> Matrices.Identity(n) == Columns(Identity(n))
  {
    if n >= 1 {
      var u, v := Matrices.Identity(n).cols, Identity(n);
      forall c | 0 <= c < n
        ensures u[c] == v[c]
      {
        assert |u[c]| == |v[c]|;
        forall k | 0 <= k < n
          ensures u[c][k] == v[c][k]
        {
        }
      }
      assert u == v;
    }
  }

  /** `matrix_multiply` without guards: the scalar case at size 2 and the
      block recursion above it, which is the textbook product. */
  function Multiply(a: Matrix, b: Matrix): (r: Matrix)
    requires Conformable(a, b)
    ensures r == Product(a, b)
  {
    StrassenIsProduct(a, b);
    Strassen(a, b)
  }

  /** This copy's `matrix_multiply` when `a` is 2 x 2 and `b` at least as
      large: the size check only prints, so the scalar case runs anyway,
      reads the top-left 2 x 2 block of `b` and answers `a` times that
      block, whatever the rest of `b` holds. */
  function ScalarCaseAsWritten(a: Matrix, b: Matrix): (r: Matrix)
    requires |a| == 2 && Tall(a) && |b| >= 2 && |b[0]| >= 2 && |b[1]| >= 2
    ensures r == Product(a, Block(b, 0, 0, 2))
  {
    var top := Block(b, 0, 0, 2);
    assert Base2(a, b) == Base2(a, top);
    Base2IsProduct(a, top);
    Base2(a, b)
  }

  /** A 2 x 2 and a 4 x 4 matrix cannot be multiplied, yet this copy
      answers: the identity times the top-left block of the second. */
  lemma MismatchAnswered()
    ensures var b := [[1, 2, 3, 4], [5, 6, 7, 8], [9, 10, 11, 12], [13, 14, 15, 16]];
      ScalarCaseAsWritten([[1, 0], [0, 1]], b) == [[1, 2], [5, 6]]
  {
    var b := [[1, 2, 3, 4], [5, 6, 7, 8], [9, 10, 11, 12], [13, 14, 15, 16]];
    assert Base2([[1, 0], [0, 1]], b) == [[1, 2], [5, 6]];
  }

  /** This copy's `matrix_multiply` with the `return None` its size check
      evidently meant to have: operands of different sizes are refused,
      and equal ones multiply to the textbook product. */
  function CheckedMultiply(a: Matrix, b: Matrix): (r: Option<Matrix>)
    requires |a| == |b| ==> Conformable(a, b)
    ensures r.None? <==> |a| != |b|
    ensures r.Some? ==> r.value == Product(a, b)
  {
    if |a| != |b| then None else Some(Multiply(a, b))
  }

  /** On the inputs both accept, the unguarded product is the guarded one's
      answer. */
  lemma MultiplyAgrees(a: Matrix, b: Matrix)
    requires Conformable(a, b)
    ensures Matrices.Multiply(a, b) == Some(Multiply(a, b))
  {
    MultiplyIsProduct(a, b);
  }

  /** `matrix_power`: exponent 0 gives the identity of the same size,
      exponent 1 gives `m` itself, and every larger exponent is `m`
      multiplied by itself that many times. As in the source, it multiplies
      with this copy's unguarded `Multiply`; its operands always have equal
      sizes, so the missing size check never matters here. */
  function Power(m: Matrix, e: nat): (r: Matrix)
    requires e >= 2 ==> Conformable(m, m)
    ensures e == 0 ==> r == Identity(|m|)
    ensures e == 1 ==> r == m
    ensures e >= 2 ==> r == RepeatedProduct(m, e)
  {
    if e == 0 then Identity(|m|)
    else if e == 1 then m
    else
      var k := e / 2;
      var half := Power(m, k);
      assert half == RepeatedProduct(m, k);
      RepeatedProductAdds(m, k, k);
      var power := Multiply(half, half);
      if e % 2 == 0 then
        assert e == k + k;
        power
      else
        assert e == k + k + 1;
        Multiply(m, power)
  }

  /** Both copies of `matrix_power` compute the same matrix for every
      positive exponent. */
  lemma PowerAgrees(m: Matrix, e: nat)
    requires Conformable(m, m) && e >= 1
    ensures Matrices.Power(m, e) == Columns(Power(m, e))
  {
    PowerIsRepeatedProduct(m, e);
  }
}
