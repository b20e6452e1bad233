/**
 Square integer matrices and the helpers of Strassen's multiplication, as
 `Matrix/matrix.py` defines them.

 A matrix is a list of COLUMNS: `m[col][row]`. The Python helpers index rows
 `0 .. n-1` of every column of an `n`-column matrix, so the precondition under
 which those reads stay in range is `Tall(m)`: every column has at least
 `|m|` entries. Every matrix these helpers build is exactly square.

 Functions that print an error and return `None` in the source return `None`
 here; reads the source would make out of range (an `IndexError`) are excluded
 by preconditions.
 */
module Matrices {
  import opened Wrappers

  type Matrix = seq<seq<int>>

  /** Every column holds at least as many entries as there are columns. */
  ghost predicate Tall(m: Matrix) {
    forall c :: 0 <= c < |m| ==> |m[c]| >= |m|
  }

  /** `|m|` columns of exactly `|m|` entries each. */
  ghost predicate Square(m: Matrix) {
    forall c :: 0 <= c < |m| ==> |m[c]| == |m|
  }

  /** 1, 2, 4, 8, ...: the sizes Strassen's recursion can halve down to 2. */
  predicate PowerOfTwo(n: int)
    decreases if n < 0 then 0 else n
  {
    n > 0 && (n == 1 || (n % 2 == 0 && PowerOfTwo(n / 2)))
  }

  /** The `n x n` zero matrix, `[[0] * n] * n` in the source. */
  function Zeros(n: nat): (z: Matrix)
    ensures |z| == n && Square(z)
    ensures forall c, k {:trigger z[c][k]} :: 0 <= c < n && 0 <= k < n ==> z[c][k] == 0
  {
    seq(n, c => seq(n, k => 0))
  }

  // ---------------------------------------------------------------------
  // Element-wise sum and difference
  // ---------------------------------------------------------------------

  /** `matrix_sum`: element-wise sum, `None` when the column counts differ. */
  function Sum(a: Matrix, b: Matrix): (r: Option<Matrix>)
    requires |a| == |b| ==> Tall(a) && Tall(b)
    ensures r.Some? <==> |a| == |b|
    ensures r.Some? ==> |r.value| == |a| && Square(r.value)
    ensures r.Some? ==> forall c, k {:trigger r.value[c][k]} :: 0 <= c < |a| && 0 <= k < |a| ==>
                          r.value[c][k] == a[c][k] + b[c][k]
  {
    var n := |a|;
    if n != |b| then None
    else Some(seq(n, c requires 0 <= c < n =>
                seq(n, k requires 0 <= k < n => a[c][k] + b[c][k])))
  }

  /** `matrix_difference`: element-wise `a - b`, `None` when the column counts differ. */
  function Difference(a: Matrix, b: Matrix): (r: Option<Matrix>)
    requires |a| == |b| ==> Tall(a) && Tall(b)
    ensures r.Some? <==> |a| == |b|
    ensures r.Some? ==> |r.value| == |a| && Square(r.value)
    ensures r.Some? ==> forall c, k {:trigger r.value[c][k]} :: 0 <= c < |a| && 0 <= k < |a| ==>
                          r.value[c][k] == a[c][k] - b[c][k]
  {
    var n := |a|;
    if n != |b| then None
    else Some(seq(n, c requires 0 <= c < n =>
                seq(n, k requires 0 <= k < n => a[c][k] - b[c][k])))
  }

  /** Subtracting what was added gives back the first operand. */
  lemma DifferenceUndoesSum(a: Matrix, b: Matrix)
    requires |a| == |b| && Square(a) && Square(b)
    ensures Sum(a, b).Some?
    ensures Difference(Sum(a, b).value, b) == Some(a)
  {
    var s := Sum(a, b).value;
    var d := Difference(s, b).value;
    assert |d| == |a|;
    forall c | 0 <= c < |a|
      ensures d[c] == a[c]
    {
      assert |d[c]| == |a[c]|;
    }
    assert d == a;
  }

  /** Adding the difference back gives back the minuend. */
  lemma SumUndoesDifference(a: Matrix, b: Matrix)
    requires |a| == |b| && Square(a) && Square(b)
    ensures Difference(a, b).Some?
    ensures Sum(Difference(a, b).value, b) == Some(a)
  {
    var d := Difference(a, b).value;
    var s := Sum(d, b).value;
    assert |s| == |a|;
    forall c | 0 <= c < |a|
      ensures s[c] == a[c]
    {
      assert |s[c]| == |a[c]|;
    }
    assert s == a;
  }

  /** The sum does not depend on the order of its operands. */
  lemma SumCommutes(a: Matrix, b: Matrix)
    requires |a| == |b| ==> Tall(a) && Tall(b)
    ensures Sum(a, b) == Sum(b, a)
  {
    if |a| == |b| {
      var x, y := Sum(a, b).value, Sum(b, a).value;
      assert |x| == |y|;
      forall c | 0 <= c < |a|
        ensures x[c] == y[c]
      {
        assert |x[c]| == |y[c]|;
      }
      assert x == y;
    }
  }

  // ---------------------------------------------------------------------
  // Quadrants
  // ---------------------------------------------------------------------

  /** Position `p` (0..3) names a quadrant: 0 top-left, 1 top-right,
      2 bottom-left, 3 bottom-right. Its first column is `ColumnOffset`
      and its first row `RowOffset`, for quadrants of side `half`. */
  function ColumnOffset(p: int, half: nat): nat {
    if p == 1 || p == 3 then half else 0
  }

  function RowOffset(p: int, half: nat): nat {
    if p == 2 || p == 3 then half else 0
  }

  predicate InQuadrant(p: int, half: nat, c: int, k: int) {
    && ColumnOffset(p, half) <= c < ColumnOffset(p, half) + half
    && RowOffset(p, half) <= k < RowOffset(p, half) + half
  }

  /** The `half x half` block of `m` whose top-left entry is `m[co][ro]`. */
  function Block(m: Matrix, co: nat, ro: nat, half: nat): (b: Matrix)
    requires co + half <= |m|
    requires forall c :: co <= c < co + half ==> ro + half <= |m[c]|
    ensures |b| == half && Square(b)
    ensures forall c, k {:trigger b[c][k]} :: 0 <= c < half && 0 <= k < half ==> b[c][k] == m[co + c][ro + k]
  {
    seq(half, c requires 0 <= c < half =>
      seq(half, k requires 0 <= k < half => m[co + c][ro + k]))
  }

  /** The columns of quadrant `p` reach down to its last row: what
      `matrix_get` reads, and all it reads. */
  ghost predicate QuadrantReadable(m: Matrix, p: int) {
    var half := |m| / 2;
    forall c :: ColumnOffset(p, half) <= c < ColumnOffset(p, half) + half && c < |m| ==>
      RowOffset(p, half) + half <= |m[c]|
  }

  /** `matrix_get`: quadrant `p` of `m`; `None` for an odd size or a position
      outside 0..3 (the source falls off its `if` chain). */
  function Get(m: Matrix, p: int): (r: Option<Matrix>)
    requires |m| % 2 == 0 && 0 <= p < 4 ==> QuadrantReadable(m, p)
    ensures r.Some? <==> |m| % 2 == 0 && 0 <= p < 4
    ensures r.Some? ==> |r.value| == |m| / 2 && Square(r.value)
    ensures r.Some? ==> forall c, k {:trigger r.value[c][k]} :: 0 <= c < |m| / 2 && 0 <= k < |m| / 2 ==>
      r.value[c][k] == m[ColumnOffset(p, |m| / 2) + c][RowOffset(p, |m| / 2) + k]
  {
    var n := |m|;
    if n % 2 != 0 then None
    else if 0 <= p < 4 then
      var mid := n / 2;
      Some(Block(m, ColumnOffset(p, mid), RowOffset(p, mid), mid))
    else None
  }

  /** How far down column `c` `matrix_compile` reads `main` when it writes
      an `n x n` quadrant `p`: to the bottom, except in the columns of a
      bottom quadrant, where it stops above the quadrant. */
  function RowsKept(p: int, n: nat, c: int): (rows: nat)
    ensures rows == n || rows == 2 * n
  {
    if RowOffset(p, n) == n && ColumnOffset(p, n) <= c < ColumnOffset(p, n) + n then n else 2 * n
  }

  /** Every entry of `main` that `matrix_compile` keeps exists. */
  ghost predicate KeptReadable(main: Matrix, p: int, n: nat) {
    forall c :: 0 <= c < |main| ==> RowsKept(p, n, c) <= |main[c]|
  }

  /** `matrix_get` needs only the quadrant it reads: when every column
      holds only as many entries as the top half has rows, the two top
      quadrants still exist, with the entries of `m`. */
  lemma GetTopOfShort(m: Matrix)
    requires |m| % 2 == 0 && forall c :: 0 <= c < |m| ==> |m[c]| >= |m| / 2
    ensures Get(m, 0).Some? && Get(m, 1).Some?
    ensures forall c, k :: 0 <= c < |m| / 2 && 0 <= k < |m| / 2 ==>
      Get(m, 0).value[c][k] == m[c][k] && Get(m, 1).value[c][k] == m[|m| / 2 + c][k]
  {
    assert QuadrantReadable(m, 0) && QuadrantReadable(m, 1);
  }

  /** `matrix_compile`: a copy of `main` whose quadrant `p` is replaced by
      `sub`; `None` unless `main` has exactly twice as many columns as `sub`,
      or when `p` is outside 0..3. */
  function Compile(main: Matrix, sub: Matrix, p: int): (r: Option<Matrix>)
    requires |main| == 2 * |sub| && 0 <= p < 4 ==> KeptReadable(main, p, |sub|) && Tall(sub)
    ensures r.Some? <==> |main| == 2 * |sub| && 0 <= p < 4
    ensures r.Some? ==> |r.value| == |main| && Square(r.value)
    ensures r.Some? ==> forall c, k {:trigger r.value[c][k]} :: 0 <= c < |main| && 0 <= k < |main| ==>
      r.value[c][k] == if InQuadrant(p, |sub|, c, k)
                       then sub[c - ColumnOffset(p, |sub|)][k - RowOffset(p, |sub|)]
                       else main[c][k]
  {
    var n := |sub|;
    var total := |main|;
    if total != 2 * n then None
    else if 0 <= p < 4 then
      var co, ro := ColumnOffset(p, n), RowOffset(p, n);
      Some(seq(total, c requires 0 <= c < total =>
        seq(total, k requires 0 <= k < total =>
          if InQuadrant(p, n, c, k) then sub[c - co][k - ro] else main[c][k])))
    else None
  }

  /** Writing a quadrant back where it was read from changes nothing. */
  lemma CompileGet(m: Matrix, p: int)
    requires Square(m) && |m| % 2 == 0 && 0 <= p < 4
    ensures Get(m, p).Some?
    ensures Compile(m, Get(m, p).value, p) == Some(m)
  {
    var h := |m| / 2;
    var q := Get(m, p).value;
    assert |q| == h && Square(q);
    var r := Compile(m, q, p).value;
    forall c | 0 <= c < |m|
      ensures r[c] == m[c]
    {
      forall k | 0 <= k < |m|
        ensures r[c][k] == m[c][k]
      {
        var co, ro := ColumnOffset(p, h), RowOffset(p, h);
        if InQuadrant(p, h, c, k) {
          CompileWrites(m, q, p, c, k);
          GetReads(m, p, c, k);
        } else {
          CompileKeeps(m, q, p, c, k);
        }
      }
      assert |r[c]| == |m[c]|;
    }
    assert r == m;
  }

  /** An entry inside quadrant `p` is what `Get` answers at the entry's
      place within the quadrant. */
  lemma GetReads(m: Matrix, p: int, c: nat, k: nat)
    requires Tall(m) && |m| % 2 == 0 && 0 <= p < 4
    requires c < |m| && k < |m| && InQuadrant(p, |m| / 2, c, k)
    ensures Get(m, p).value[c - ColumnOffset(p, |m| / 2)][k - RowOffset(p, |m| / 2)] == m[c][k]
  {
    var h := |m| / 2;
    var c', k' := c - ColumnOffset(p, h), k - RowOffset(p, h);
    assert Get(m, p).value[c'][k'] == m[ColumnOffset(p, h) + c'][RowOffset(p, h) + k'];
  }

  /** Writing a quadrant leaves the entries outside it alone. */
  lemma CompileKeeps(main: Matrix, sub: Matrix, q: int, c: nat, k: nat)
    requires |main| == 2 * |sub| && Tall(main) && Tall(sub) && 0 <= q < 4
    requires c < |main| && k < |main| && !InQuadrant(q, |sub|, c, k)
    ensures Compile(main, sub, q).value[c][k] == main[c][k]
  {
  }

  /** Writing a quadrant puts the block's entries inside it. */
  lemma CompileWrites(main: Matrix, sub: Matrix, q: int, c: nat, k: nat)
    requires |main| == 2 * |sub| && Tall(main) && Tall(sub) && 0 <= q < 4
    requires c < |main| && k < |main| && InQuadrant(q, |sub|, c, k)
    ensures Compile(main, sub, q).value[c][k] == sub[c - ColumnOffset(q, |sub|)][k - RowOffset(q, |sub|)]
  {
  }

  /** Reading back the quadrant just written gives what was written. */
  lemma GetCompile(main: Matrix, sub: Matrix, p: int)
    requires Tall(main) && Square(sub) && |main| == 2 * |sub| && 0 <= p < 4
    ensures Compile(main, sub, p).Some?
    ensures Get(Compile(main, sub, p).value, p) == Some(sub)
  {
    var h := |sub|;
    var r := Compile(main, sub, p).value;
    assert |r| == 2 * h && Square(r);
    var q := Get(r, p).value;
    var co, ro := ColumnOffset(p, h), RowOffset(p, h);
    forall c | 0 <= c < h
      ensures q[c] == sub[c]
    {
      forall k | 0 <= k < h
        ensures q[c][k] == sub[c][k]
      {
        CompileWrites(main, sub, p, co + c, ro + k);
      }
      assert |q[c]| == |sub[c]|;
    }
    assert q == sub;
  }

  /** Writing quadrant `p` leaves every other quadrant as it was. */
  lemma CompileFrame(main: Matrix, sub: Matrix, p: int, q: int)
    requires Square(main) && Square(sub) && |main| == 2 * |sub|
    requires 0 <= p < 4 && 0 <= q < 4 && p != q
    ensures Compile(main, sub, p).Some?
    ensures Get(Compile(main, sub, p).value, q) == Get(main, q)
  {
    var r := Compile(main, sub, p).value;
    var x, y := Get(r, q).value, Get(main, q).value;
    var h := |sub|;
    forall c | 0 <= c < h
      ensures x[c] == y[c]
    {
      forall k | 0 <= k < h
        ensures x[c][k] == y[c][k]
      {
        var cc, kk := ColumnOffset(q, h) + c, RowOffset(q, h) + k;
        assert !InQuadrant(p, h, cc, kk);
      }
    }
    assert x == y;
  }

  // ---------------------------------------------------------------------
  // Identity and transpose
  // ---------------------------------------------------------------------

  /** What `matrix_identity` hands back: a list of columns, or, for size 0,
      the flat one-element list `[0]`, which is not a list of columns. */
  datatype Value = Columns(cols: Matrix) | FlatZero

  /** `matrix_identity`. */
  function Identity(n: nat): (r: Value)
    ensures r.FlatZero? <==> n == 0
    ensures r.Columns? ==> |r.cols| == n && Square(r.cols)
    ensures r.Columns? ==> forall c, k {:trigger r.cols[c][k]} :: 0 <= c < n && 0 <= k < n ==>
                             r.cols[c][k] == if c == k then 1 else 0
  {
    if n == 0 then FlatZero
    else Columns(seq(n, c => seq(n, k => if c == k then 1 else 0)))
  }

  /** A matrix with `rows` entries in every column: the shape `matrix_transpose`
      expects (it takes the row count from column 1). */
  ghost predicate Rectangular(m: Matrix, rows: nat) {
    forall c :: 0 <= c < |m| ==> |m[c]| == rows
  }

  /** `matrix_transpose`: entry `[r][c]` of the result is entry `[c][r]` of
      `m`. The source reads `matrix[1]` to count rows, so `m` needs two
      columns, and every column must be at least that long. */
  function Transpose(m: Matrix): (t: Matrix)
    requires |m| >= 2
    requires forall c :: 0 <= c < |m| ==> |m[c]| >= |m[1]|
    ensures |t| == |m[1]| && Rectangular(t, |m|)
    ensures forall r, c {:trigger t[r][c]} :: 0 <= r < |t| && 0 <= c < |m| ==> t[r][c] == m[c][r]
  {
    seq(|m[1]|, r requires 0 <= r < |m[1]| =>
      seq(|m|, c requires 0 <= c < |m| => m[c][r]))
  }

  /** Transposing twice gives back any matrix with at least two rows and
      two columns. */
  lemma TransposeTwice(m: Matrix, rows: nat)
    requires |m| >= 2 && rows >= 2 && Rectangular(m, rows)
    ensures Transpose(Transpose(m)) == m
  {
    var t := Transpose(m);
    var tt := Transpose(t);
    assert |tt| == |m|;
    forall c | 0 <= c < |m|
      ensures tt[c] == m[c]
    {
      assert |tt[c]| == |m[c]|;
    }
    assert tt == m;
  }

  // ---------------------------------------------------------------------
  // Strassen's multiplication
  // ---------------------------------------------------------------------

  /** The scalar case of `matrix_multiply` for two 2 x 2 matrices: ten sums,
      seven products and four combinations. */
  function Base2(a: Matrix, b: Matrix): (r: Matrix)
    requires |a| == 2 && Tall(a) && |b| >= 2 && |b[0]| >= 2 && |b[1]| >= 2
    ensures |r| == 2 && Square(r)
  {
    var s1 := b[1][0] - b[1][1];
    var s2 := a[0][0] + a[1][0];
    var s3 := a[0][1] + a[1][1];
    var s4 := b[0][1] - b[0][0];
    var s5 := a[0][0] + a[1][1];
    var s6 := b[0][0] + b[1][1];
    var s7 := a[1][0] - a[1][1];
    var s8 := b[0][1] + b[1][1];
    var s9 := a[0][0] - a[0][1];
    var s10 := b[0][0] + b[1][0];

    var p1 := a[0][0] * s1;
    var p2 := b[1][1] * s2;
    var p3 := b[0][0] * s3;
    var p4 := a[1][1] * s4;
    var p5 := s5 * s6;
    var p6 := s7 * s8;
    var p7 := s9 * s10;

    [[p5 + p4 - p2 + p6, p3 + p4], [p1 + p2, p5 + p1 - p3 - p7]]
  }

  /** The seven pairs of factors the block case multiplies, in the order
      `p1 .. p7` of the source, built from the quadrants of `a` and `b` and
      the ten block sums `s1 .. s10`. */
  function Factors(a: Matrix, b: Matrix): (f: seq<(Matrix, Matrix)>)
    requires |a| == |b| && |a| % 2 == 0 && Tall(a) && Tall(b)
    ensures |f| == 7
    ensures forall i :: 0 <= i < 7 ==> HalfSized(f[i], |a| / 2)
  {
    var a0, a1, a2, a3 := Get(a, 0).value, Get(a, 1).value, Get(a, 2).value, Get(a, 3).value;
    var b0, b1, b2, b3 := Get(b, 0).value, Get(b, 1).value, Get(b, 2).value, Get(b, 3).value;
    var s1 := Difference(b1, b3).value;
    var s2 := Sum(a0, a1).value;
    var s3 := Sum(a2, a3).value;
    var s4 := Difference(b2, b0).value;
    var s5 := Sum(a0, a3).value;
    var s6 := Sum(b0, b3).value;
    var s7 := Difference(a1, a3).value;
    var s8 := Sum(b2, b3).value;
    var s9 := Difference(a0, a2).value;
    var s10 := Sum(b0, b1).value;
    [(a0, s1), (s2, b3), (s3, b0), (a3, s4), (s5, s6), (s7, s8), (s9, s10)]
  }

  /** Both factors square, of side `half`. */
  ghost predicate HalfSized(pair: (Matrix, Matrix), half: nat) {
    && |pair.0| == half && Square(pair.0) && Tall(pair.0)
    && |pair.1| == half && Square(pair.1) && Tall(pair.1)
  }

  /** True when `p` holds seven square products of side `half`. */
  ghost predicate SevenProducts(p: seq<Matrix>, half: nat) {
    |p| == 7 && forall i :: 0 <= i < 7 ==> |p[i]| == half && Square(p[i])
  }

  /** The last step of the block case: combine the seven products into the
      four quadrants of an `n x n` zero matrix. */
  function Assemble(n: nat, p: seq<Matrix>): (r: Matrix)
    requires n % 2 == 0 && SevenProducts(p, n / 2)
    ensures |r| == n && Square(r)
  {
    var p1, p2, p3, p4, p5, p6, p7 := p[0], p[1], p[2], p[3], p[4], p[5], p[6];
    var r0 := Compile(Zeros(n), Sum(Sum(p5, p4).value, Difference(p6, p2).value).value, 0).value;
    var r1 := Compile(r0, Sum(p1, p2).value, 1).value;
    var r2 := Compile(r1, Sum(p3, p4).value, 2).value;
    Compile(r2, Difference(Sum(p5, p1).value, Sum(p3, p7).value).value, 3).value
  }

  /** Operands the block recursion can multiply: equal power-of-two sizes
      of at least 2, and every read row in range. */
  ghost predicate Conformable(a: Matrix, b: Matrix) {
    |a| == |b| && |a| >= 2 && PowerOfTwo(|a|) && Tall(a) && Tall(b)
  }

  lemma HalfOfPowerOfTwo(n: nat)
    requires n > 2 && PowerOfTwo(n)
    ensures n % 2 == 0 && n / 2 >= 2 && PowerOfTwo(n / 2)
  {
  }

  /** The body of `matrix_multiply` once its guards have passed: the scalar
      case at size 2, the seven block products above it. */
  function Strassen(a: Matrix, b: Matrix): (r: Matrix)
    requires Conformable(a, b)
    ensures |r| == |a| && Square(r)
    decreases |a|, 1
  {
    if |a| == 2 then Base2(a, b) else Blocks(a, b)
  }

  /** The block case of `Strassen`: seven half-size products of the
      factors, recombined. */
  function Blocks(a: Matrix, b: Matrix): (r: Matrix)
    requires Conformable(a, b) && |a| > 2
    ensures |r| == |a| && Square(r)
    decreases |a|, 0
  {
    var n := |a|;
    HalfOfPowerOfTwo(n);
    var f := Factors(a, b);
    Assemble(n, seq(7, i requires 0 <= i < 7 => Strassen(f[i].0, f[i].1)))
  }

  /** `matrix_multiply`: Strassen's product. `None` when the column counts
      differ or are odd. An even size must be a power of two: for size 0 the
      source indexes an empty list, and for other even sizes the recursion
      reaches an odd block and then adds `None`. */
  function Multiply(a: Matrix, b: Matrix): (r: Option<Matrix>)
    requires |a| == |b| && |a| % 2 == 0 ==> PowerOfTwo(|a|) && Tall(a) && Tall(b)
    ensures r.Some? <==> |a| == |b| && |a| % 2 == 0
    ensures r.Some? ==> |r.value| == |a| && Square(r.value)
  {
    if |a| != |b| then None
    else if |a| % 2 != 0 then None
    else Some(Strassen(a, b))
  }

  /** Python's `e // 2` on the exponent: Dafny's division by a positive
      divisor rounds down, as floor division does. */
  function HalfExponent(e: int): (h: int)
    ensures 2 * h <= e < 2 * h + 2
  {
    e / 2
  }

  /** The exponent `matrix_power` is called with after `depth` nested
      halvings of `e`. */
  function ExponentAt(e: int, depth: nat): int {
    if depth == 0 then e else HalfExponent(ExponentAt(e, depth - 1))
  }

  /** A negative exponent stays negative at every depth of the recursion
      (-1 halves to itself), so neither base case, 0 or 1, is ever reached:
      the source recurses until Python raises `RecursionError`. */
  lemma {:induction false} NegativeExponentDiverges(e: int, depth: nat)
    requires e < 0
    ensures ExponentAt(e, depth) < 0
    ensures HalfExponent(-1) == -1
  {
    if depth > 0 {
      NegativeExponentDiverges(e, depth - 1);
    }
  }

  /** `matrix_power`: exponentiation by repeated squaring. Exponent 0 gives
      the identity of the same size, exponent 1 gives `m` itself. Every
      larger exponent multiplies, so the size must suit `Multiply`. */
  function Power(m: Matrix, e: nat): (r: Value)
    requires e >= 2 ==> PowerOfTwo(|m|) && |m| >= 2 && Tall(m)
    ensures e == 0 ==> r == Identity(|m|)
    ensures e == 1 ==> r == Columns(m)
    ensures e >= 2 ==> r.Columns? && |r.cols| == |m| && Square(r.cols)
  {
    if e == 0 then Identity(|m|)
    else if e == 1 then Columns(m)
    else
      var half := Power(m, e / 2).cols;
      var power := Multiply(half, half).value;
      if e % 2 == 0 then Columns(power)
      else Columns(Multiply(m, power).value)
  }
}
