/**
 Correctness of `matrix_multiply` and `matrix_power` from `Matrix/matrix.py`:
 for power-of-two sizes Strassen's seven-product scheme computes the
 textbook product, and squaring-and-multiplying computes repeated products.
 */
module StrassenProofs {
  import opened Wrappers
  import opened Matrices
  import opened LinearAlgebra

  /** The 2 x 2 scalar case agrees with the textbook product entry by entry. */
  lemma Base2IsProduct(a: Matrix, b: Matrix)
    requires |a| == |b| == 2 && Tall(a) && Tall(b)
    ensures Base2(a, b) == Product(a, b)
  {
    var p := Product(a, b);
    forall c, r | 0 <= c < 2 && 0 <= r < 2
      ensures p[c][r] == a[0][r] * b[c][0] + a[1][r] * b[c][1]
    {
      DotOfTwo(Row(a, r), b[c][..2]);
    }
    var q := Base2(a, b);
    assert q[0][0] == p[0][0];
    assert q[0][1] == p[0][1];
    assert q[1][0] == p[1][0];
    assert q[1][1] == p[1][1];
    assert q[0] == p[0] && q[1] == p[1];
  }

  /** Quadrant `q` of an even-sized matrix: the block of half the size at
      the quadrant's offsets. */
  function Quadrant(m: Matrix, q: int): (r: Matrix)
    requires Tall(m) && |m| % 2 == 0 && 0 <= q < 4
    ensures |r| == |m| / 2 && Square(r) && Tall(r)
  {
    var h := |m| / 2;
    Block(m, ColumnOffset(q, h), RowOffset(q, h), h)
  }

  /** Entry `[c][k]` of the product of quadrant `i` of `a` and quadrant `j`
      of `b`: the sixteen block products Strassen's seven products are
      combinations of. */
  function X(a: Matrix, b: Matrix, i: int, j: int, c: nat, k: nat): int
    requires |a| == |b| && |a| % 2 == 0 && Tall(a) && Tall(b)
    requires 0 <= i < 4 && 0 <= j < 4 && c < |a| / 2 && k < |a| / 2
  {
    Product(Quadrant(a, i), Quadrant(b, j))[c][k]
  }

  /** The seven pairs of factors, in terms of the quadrants. */
  lemma FactorsAre(a: Matrix, b: Matrix)
    requires |a| == |b| && |a| % 2 == 0 && Tall(a) && Tall(b)
    ensures var a0, a1, a2, a3 := Quadrant(a, 0), Quadrant(a, 1), Quadrant(a, 2), Quadrant(a, 3);
      var b0, b1, b2, b3 := Quadrant(b, 0), Quadrant(b, 1), Quadrant(b, 2), Quadrant(b, 3);
      Factors(a, b) == [
        (a0, Combined(b1, b3, false)), (Combined(a0, a1, true), b3),
        (Combined(a2, a3, true), b0), (a3, Combined(b2, b0, false)),
        (Combined(a0, a3, true), Combined(b0, b3, true)),
        (Combined(a1, a3, false), Combined(b2, b3, true)),
        (Combined(a0, a2, false), Combined(b0, b1, true))]
  {
  }

  /** The two products whose right factor is combined, at one entry, as
      combinations of block products. */
  lemma RightCombinedEntries(a: Matrix, b: Matrix, c: nat, k: nat)
    requires |a| == |b| && |a| % 2 == 0 && Tall(a) && Tall(b)
    requires c < |a| / 2 && k < |a| / 2
    ensures FactorProduct(a, b, 0)[c][k] == X(a, b, 0, 1, c, k) - X(a, b, 0, 3, c, k)
    ensures FactorProduct(a, b, 3)[c][k] == X(a, b, 3, 2, c, k) - X(a, b, 3, 0, c, k)
  {
    var b0, b1, b2, b3 := Quadrant(b, 0), Quadrant(b, 1), Quadrant(b, 2), Quadrant(b, 3);
    FactorsAre(a, b);
    // p1 = a0 (b1 - b3)
    ProductDistributesRight(Quadrant(a, 0), b1, b3, false);
    // p4 = a3 (b2 - b0)
    ProductDistributesRight(Quadrant(a, 3), b2, b0, false);
  }

  /** The two products whose left factor is combined, at one entry, as
      combinations of block products. */
  lemma LeftCombinedEntries(a: Matrix, b: Matrix, c: nat, k: nat)
    requires |a| == |b| && |a| % 2 == 0 && Tall(a) && Tall(b)
    requires c < |a| / 2 && k < |a| / 2
    ensures FactorProduct(a, b, 1)[c][k] == X(a, b, 0, 3, c, k) + X(a, b, 1, 3, c, k)
    ensures FactorProduct(a, b, 2)[c][k] == X(a, b, 2, 0, c, k) + X(a, b, 3, 0, c, k)
  {
    var a0, a1, a2, a3 := Quadrant(a, 0), Quadrant(a, 1), Quadrant(a, 2), Quadrant(a, 3);
    FactorsAre(a, b);
    // p2 = (a0 + a1) b3
    ProductDistributesLeft(a0, a1, Quadrant(b, 3), true);
    // p3 = (a2 + a3) b0
    ProductDistributesLeft(a2, a3, Quadrant(b, 0), true);
  }

  /** The product of two combinations, at one entry, as four block
      products. */
  lemma ProductOfCombinations(x0: Matrix, x1: Matrix, y0: Matrix, y1: Matrix,
                              left: bool, right: bool, c: nat, k: nat)
    requires |x0| == |x1| == |y0| == |y1| && Tall(x0) && Tall(x1) && Tall(y0) && Tall(y1)
    requires c < |x0| && k < |x0|
    ensures var sign := (if left then 1 else -1);
      Product(Combined(x0, x1, left), Combined(y0, y1, true))[c][k] ==
        Product(x0, y0)[c][k] + Product(x0, y1)[c][k]
        + sign * (Product(x1, y0)[c][k] + Product(x1, y1)[c][k])
  {
    var y := Combined(y0, y1, true);
    ProductDistributesLeft(x0, x1, y, left);
    ProductDistributesRight(x0, y0, y1, true);
    ProductDistributesRight(x1, y0, y1, true);
  }

  /** The three products of two combined factors, at one entry, as
      combinations of block products. */
  lemma MixedFactorEntries(a: Matrix, b: Matrix, c: nat, k: nat)
    requires |a| == |b| && |a| % 2 == 0 && Tall(a) && Tall(b)
    requires c < |a| / 2 && k < |a| / 2
    ensures FactorProduct(a, b, 4)[c][k] ==
      X(a, b, 0, 0, c, k) + X(a, b, 0, 3, c, k) + X(a, b, 3, 0, c, k) + X(a, b, 3, 3, c, k)
    ensures FactorProduct(a, b, 5)[c][k] ==
      X(a, b, 1, 2, c, k) + X(a, b, 1, 3, c, k) - X(a, b, 3, 2, c, k) - X(a, b, 3, 3, c, k)
    ensures FactorProduct(a, b, 6)[c][k] ==
      X(a, b, 0, 0, c, k) + X(a, b, 0, 1, c, k) - X(a, b, 2, 0, c, k) - X(a, b, 2, 1, c, k)
  {
    var a0, a1, a2, a3 := Quadrant(a, 0), Quadrant(a, 1), Quadrant(a, 2), Quadrant(a, 3);
    var b0, b1, b2, b3 := Quadrant(b, 0), Quadrant(b, 1), Quadrant(b, 2), Quadrant(b, 3);
    FactorsAre(a, b);
    // p5 = (a0 + a3) (b0 + b3)
    ProductOfCombinations(a0, a3, b0, b3, true, true, c, k);
    // p6 = (a1 - a3) (b2 + b3)
    ProductOfCombinations(a1, a3, b2, b3, false, true, c, k);
    // p7 = (a0 - a2) (b0 + b1)
    ProductOfCombinations(a0, a2, b0, b1, false, true, c, k);
  }

  /** The product of the `i`-th pair of factors. */
  ghost function FactorProduct(a: Matrix, b: Matrix, i: int): Matrix
    requires |a| == |b| && |a| % 2 == 0 && Tall(a) && Tall(b) && 0 <= i < 7
  {
    Product(Factors(a, b)[i].0, Factors(a, b)[i].1)
  }

  /** `p` holds the seven products of the factors of `a` and `b`. */
  ghost predicate ProductsOfFactors(a: Matrix, b: Matrix, p: seq<Matrix>)
    requires |a| == |b| && |a| % 2 == 0 && Tall(a) && Tall(b)
  {
    && SevenProducts(p, |a| / 2)
    && forall i {:trigger FactorProduct(a, b, i)} :: 0 <= i < 7 ==> p[i] == FactorProduct(a, b, i)
  }

  /** The seven products at one entry, as combinations of block products. */
  lemma SevenEntries(a: Matrix, b: Matrix, p: seq<Matrix>, c: nat, k: nat)
    requires |a| == |b| && |a| % 2 == 0 && Tall(a) && Tall(b)
    requires ProductsOfFactors(a, b, p) && c < |a| / 2 && k < |a| / 2
    ensures p[0][c][k] == X(a, b, 0, 1, c, k) - X(a, b, 0, 3, c, k)
    ensures p[1][c][k] == X(a, b, 0, 3, c, k) + X(a, b, 1, 3, c, k)
    ensures p[2][c][k] == X(a, b, 2, 0, c, k) + X(a, b, 3, 0, c, k)
    ensures p[3][c][k] == X(a, b, 3, 2, c, k) - X(a, b, 3, 0, c, k)
    ensures p[4][c][k] ==
      X(a, b, 0, 0, c, k) + X(a, b, 0, 3, c, k) + X(a, b, 3, 0, c, k) + X(a, b, 3, 3, c, k)
    ensures p[5][c][k] ==
      X(a, b, 1, 2, c, k) + X(a, b, 1, 3, c, k) - X(a, b, 3, 2, c, k) - X(a, b, 3, 3, c, k)
    ensures p[6][c][k] ==
      X(a, b, 0, 0, c, k) + X(a, b, 0, 1, c, k) - X(a, b, 2, 0, c, k) - X(a, b, 2, 1, c, k)
  {
    assert p[0] == FactorProduct(a, b, 0);
    assert p[1] == FactorProduct(a, b, 1);
    assert p[2] == FactorProduct(a, b, 2);
    assert p[3] == FactorProduct(a, b, 3);
    assert p[4] == FactorProduct(a, b, 4);
    assert p[5] == FactorProduct(a, b, 5);
    assert p[6] == FactorProduct(a, b, 6);
    RightCombinedEntries(a, b, c, k);
    LeftCombinedEntries(a, b, c, k);
    MixedFactorEntries(a, b, c, k);
  }

  /** The four quadrants as blocks at their offsets. */
  lemma QuadrantBlocks(m: Matrix)
    requires Tall(m) && |m| % 2 == 0
    ensures var h := |m| / 2;
      && Quadrant(m, 0) == Block(m, 0, 0, h) && Quadrant(m, 1) == Block(m, h, 0, h)
      && Quadrant(m, 2) == Block(m, 0, h, h) && Quadrant(m, 3) == Block(m, h, h, h)
  {
  }

  /** The textbook product's entry in each quadrant, as the sum of two block
      products: a row of blocks of `a` times a column of blocks of `b`. */
  lemma ProductTopLeft(a: Matrix, b: Matrix, c: nat, k: nat)
    requires |a| == |b| && |a| % 2 == 0 && Tall(a) && Tall(b)
    requires c < |a| / 2 && k < |a| / 2
    ensures Product(a, b)[c][k] == X(a, b, 0, 0, c, k) + X(a, b, 1, 2, c, k)
  {
    var h := |a| / 2;
    BlockEntry(a, b, h, 0, 0, c, k);
    QuadrantBlocks(a);
    QuadrantBlocks(b);
  }

  lemma ProductTopRight(a: Matrix, b: Matrix, c: nat, k: nat)
    requires |a| == |b| && |a| % 2 == 0 && Tall(a) && Tall(b)
    requires c < |a| / 2 && k < |a| / 2
    ensures Product(a, b)[|a| / 2 + c][k] == X(a, b, 0, 1, c, k) + X(a, b, 1, 3, c, k)
  {
    var h := |a| / 2;
    BlockEntry(a, b, h, h, 0, c, k);
    QuadrantBlocks(a);
    QuadrantBlocks(b);
  }

  lemma ProductBottomLeft(a: Matrix, b: Matrix, c: nat, k: nat)
    requires |a| == |b| && |a| % 2 == 0 && Tall(a) && Tall(b)
    requires c < |a| / 2 && k < |a| / 2
    ensures Product(a, b)[c][|a| / 2 + k] == X(a, b, 2, 0, c, k) + X(a, b, 3, 2, c, k)
  {
    var h := |a| / 2;
    BlockEntry(a, b, h, 0, h, c, k);
    QuadrantBlocks(a);
    QuadrantBlocks(b);
  }

  lemma ProductBottomRight(a: Matrix, b: Matrix, c: nat, k: nat)
    requires |a| == |b| && |a| % 2 == 0 && Tall(a) && Tall(b)
    requires c < |a| / 2 && k < |a| / 2
    ensures Product(a, b)[|a| / 2 + c][|a| / 2 + k] == X(a, b, 2, 1, c, k) + X(a, b, 3, 3, c, k)
  {
    var h := |a| / 2;
    BlockEntry(a, b, h, h, h, c, k);
    QuadrantBlocks(a);
    QuadrantBlocks(b);
  }

  /** What `Assemble` writes at `[c][k]`: the combination of the seven
      products that belongs to the quadrant holding `[c][k]`. */
  ghost function Combination(n: nat, p: seq<Matrix>, c: nat, k: nat): int
    requires n % 2 == 0 && SevenProducts(p, n / 2) && c < n && k < n
  {
    var h := n / 2;
    if c < h && k < h then (p[4][c][k] + p[3][c][k]) + (p[5][c][k] - p[1][c][k])
    else if k < h then p[0][c - h][k] + p[1][c - h][k]
    else if c < h then p[2][c][k - h] + p[3][c][k - h]
    else (p[4][c - h][k - h] + p[0][c - h][k - h]) - (p[2][c - h][k - h] + p[6][c - h][k - h])
  }

  /** Writing the four quadrants in turn: every entry ends up holding what
      was written into its own quadrant. */
  lemma CompileFour(z: Matrix, w0: Matrix, w1: Matrix, w2: Matrix, w3: Matrix, c: nat, k: nat)
    requires Tall(z) && Tall(w0) && Tall(w1) && Tall(w2) && Tall(w3)
    requires |z| == 2 * |w0| == 2 * |w1| == 2 * |w2| == 2 * |w3| && c < |z| && k < |z|
    ensures var h, r0 := |w0|, Compile(z, w0, 0).value;
      var r1 := Compile(r0, w1, 1).value;
      var r2 := Compile(r1, w2, 2).value;
      var r := Compile(r2, w3, 3).value;
      && (c < h && k < h ==> r[c][k] == w0[c][k])
      && (h <= c && k < h ==> r[c][k] == w1[c - h][k])
      && (c < h && h <= k ==> r[c][k] == w2[c][k - h])
      && (h <= c && h <= k ==> r[c][k] == w3[c - h][k - h])
  {
    var h, r0 := |w0|, Compile(z, w0, 0).value;
    var r1 := Compile(r0, w1, 1).value;
    var r2 := Compile(r1, w2, 2).value;
    if c < h && k < h {
      CompileKeeps(r2, w3, 3, c, k);
      CompileKeeps(r1, w2, 2, c, k);
      CompileKeeps(r0, w1, 1, c, k);
      CompileWrites(z, w0, 0, c, k);
    } else if k < h {
      CompileKeeps(r2, w3, 3, c, k);
      CompileKeeps(r1, w2, 2, c, k);
      CompileWrites(r0, w1, 1, c, k);
    } else if c < h {
      CompileKeeps(r2, w3, 3, c, k);
      CompileWrites(r1, w2, 2, c, k);
    } else {
      CompileWrites(r2, w3, 3, c, k);
    }
  }

  /** `Assemble` at `[c][k]` in each quadrant: the entry of the
      combination of the seven products written there. */
  lemma AssembleTopLeft(n: nat, p: seq<Matrix>, c: nat, k: nat)
    requires n % 2 == 0 && SevenProducts(p, n / 2) && c < n / 2 && k < n / 2
    ensures Assemble(n, p)[c][k] == (p[4][c][k] + p[3][c][k]) + (p[5][c][k] - p[1][c][k])
  {
    var p1, p2, p3, p4, p5, p6, p7 := p[0], p[1], p[2], p[3], p[4], p[5], p[6];
    var w0 := Sum(Sum(p5, p4).value, Difference(p6, p2).value).value;
    var w1, w2 := Sum(p1, p2).value, Sum(p3, p4).value;
    var w3 := Difference(Sum(p5, p1).value, Sum(p3, p7).value).value;
    CompileFour(Zeros(n), w0, w1, w2, w3, c, k);
  }

  lemma AssembleTopRight(n: nat, p: seq<Matrix>, c: nat, k: nat)
    requires n % 2 == 0 && SevenProducts(p, n / 2) && n / 2 <= c < n && k < n / 2
    ensures Assemble(n, p)[c][k] == p[0][c - n / 2][k] + p[1][c - n / 2][k]
  {
    var p1, p2, p3, p4, p5, p6, p7 := p[0], p[1], p[2], p[3], p[4], p[5], p[6];
    var w0 := Sum(Sum(p5, p4).value, Difference(p6, p2).value).value;
    var w1, w2 := Sum(p1, p2).value, Sum(p3, p4).value;
    var w3 := Difference(Sum(p5, p1).value, Sum(p3, p7).value).value;
    CompileFour(Zeros(n), w0, w1, w2, w3, c, k);
  }

  lemma AssembleBottomLeft(n: nat, p: seq<Matrix>, c: nat, k: nat)
    requires n % 2 == 0 && SevenProducts(p, n / 2) && c < n / 2 && n / 2 <= k < n
    ensures Assemble(n, p)[c][k] == p[2][c][k - n / 2] + p[3][c][k - n / 2]
  {
    var p1, p2, p3, p4, p5, p6, p7 := p[0], p[1], p[2], p[3], p[4], p[5], p[6];
    var w0 := Sum(Sum(p5, p4).value, Difference(p6, p2).value).value;
    var w1, w2 := Sum(p1, p2).value, Sum(p3, p4).value;
    var w3 := Difference(Sum(p5, p1).value, Sum(p3, p7).value).value;
    CompileFour(Zeros(n), w0, w1, w2, w3, c, k);
  }

  lemma AssembleBottomRight(n: nat, p: seq<Matrix>, c: nat, k: nat)
    requires n % 2 == 0 && SevenProducts(p, n / 2) && n / 2 <= c < n && n / 2 <= k < n
    ensures var h := n / 2;
      Assemble(n, p)[c][k] == (p[4][c - h][k - h] + p[0][c - h][k - h]) - (p[2][c - h][k - h] + p[6][c - h][k - h])
  {
    var p1, p2, p3, p4, p5, p6, p7 := p[0], p[1], p[2], p[3], p[4], p[5], p[6];
    var w0 := Sum(Sum(p5, p4).value, Difference(p6, p2).value).value;
    var w1, w2 := Sum(p1, p2).value, Sum(p3, p4).value;
    var w3 := Difference(Sum(p5, p1).value, Sum(p3, p7).value).value;
    CompileFour(Zeros(n), w0, w1, w2, w3, c, k);
  }

  lemma AssembleEntry(n: nat, p: seq<Matrix>, c: nat, k: nat)
    requires n % 2 == 0 && SevenProducts(p, n / 2) && c < n && k < n
    ensures Assemble(n, p)[c][k] == Combination(n, p, c, k)
  {
    var h := n / 2;
    if c < h && k < h {
      AssembleTopLeft(n, p, c, k);
      assert Combination(n, p, c, k) == (p[4][c][k] + p[3][c][k]) + (p[5][c][k] - p[1][c][k]);
    } else if k < h {
      AssembleTopRight(n, p, c, k);
      assert Combination(n, p, c, k) == p[0][c - h][k] + p[1][c - h][k];
    } else if c < h {
      AssembleBottomLeft(n, p, c, k);
      assert Combination(n, p, c, k) == p[2][c][k - h] + p[3][c][k - h];
    } else {
      AssembleBottomRight(n, p, c, k);
      assert Combination(n, p, c, k) ==
        (p[4][c - h][k - h] + p[0][c - h][k - h]) - (p[2][c - h][k - h] + p[6][c - h][k - h]);
    }
  }

  /** The seven products and the four quadrants of the textbook product at
      one entry, over the sixteen block products `x[4 * i + j]` (quadrant
      `i` of `a` times quadrant `j` of `b`). */
  lemma BlockTerms(a: Matrix, b: Matrix, p: seq<Matrix>, c: nat, k: nat) returns (x: seq<int>)
    requires |a| == |b| && |a| % 2 == 0 && Tall(a) && Tall(b)
    requires ProductsOfFactors(a, b, p) && c < |a| / 2 && k < |a| / 2
    ensures |x| == 16
    ensures p[0][c][k] == x[1] - x[3]
    ensures p[1][c][k] == x[3] + x[7]
    ensures p[2][c][k] == x[8] + x[12]
    ensures p[3][c][k] == x[14] - x[12]
    ensures p[4][c][k] == x[0] + x[3] + x[12] + x[15]
    ensures p[5][c][k] == x[6] + x[7] - x[14] - x[15]
    ensures p[6][c][k] == x[0] + x[1] - x[8] - x[9]
    ensures Product(a, b)[c][k] == x[0] + x[6]
    ensures Product(a, b)[|a| / 2 + c][k] == x[1] + x[7]
    ensures Product(a, b)[c][|a| / 2 + k] == x[8] + x[14]
    ensures Product(a, b)[|a| / 2 + c][|a| / 2 + k] == x[9] + x[15]
  {
    x := seq(16, t requires 0 <= t < 16 => X(a, b, t / 4, t % 4, c, k));
    SevenEntries(a, b, p, c, k);
    ProductTopLeft(a, b, c, k);
    ProductTopRight(a, b, c, k);
    ProductBottomLeft(a, b, c, k);
    ProductBottomRight(a, b, c, k);
  }

  /** Strassen's identities over scalars: with `x[4 * i + j]` standing for
      the block product of quadrant `i` of `a` and quadrant `j` of `b`, the
      four combinations of the seven products are the four quadrants of the
      product. */
  lemma StrassenIdentities(x: seq<int>, p: seq<int>)
    requires |x| == 16 && |p| == 7
    requires p[0] == x[1] - x[3] && p[1] == x[3] + x[7]
    requires p[2] == x[8] + x[12] && p[3] == x[14] - x[12]
    requires p[4] == x[0] + x[3] + x[12] + x[15]
    requires p[5] == x[6] + x[7] - x[14] - x[15]
    requires p[6] == x[0] + x[1] - x[8] - x[9]
    ensures (p[4] + p[3]) + (p[5] - p[1]) == x[0] + x[6]
    ensures p[0] + p[1] == x[1] + x[7]
    ensures p[2] + p[3] == x[8] + x[14]
    ensures (p[4] + p[0]) - (p[2] + p[6]) == x[9] + x[15]
  {
  }

  /** Each quadrant's combination of the seven products is the textbook
      product's entry there. */
  lemma CombinationIsProduct(a: Matrix, b: Matrix, p: seq<Matrix>, c: nat, k: nat)
    requires |a| == |b| && |a| % 2 == 0 && Tall(a) && Tall(b)
    requires ProductsOfFactors(a, b, p) && c < |a| && k < |a|
    ensures Combination(|a|, p, c, k) == Product(a, b)[c][k]
  {
    var h := |a| / 2;
    var c', k' := if c < h then c else c - h, if k < h then k else k - h;
    var x := BlockTerms(a, b, p, c', k');
    StrassenIdentities(x, seq(7, i requires 0 <= i < 7 => p[i][c'][k']));
  }

  /** Combining the seven products computes the textbook product. */
  lemma AssembleIsProduct(a: Matrix, b: Matrix, p: seq<Matrix>)
    requires |a| == |b| && |a| % 2 == 0 && Tall(a) && Tall(b)
    requires ProductsOfFactors(a, b, p)
    ensures Assemble(|a|, p) == Product(a, b)
  {
    var r, q := Assemble(|a|, p), Product(a, b);
    forall c | 0 <= c < |a|
      ensures r[c] == q[c]
    {
      forall k | 0 <= k < |a|
        ensures r[c][k] == q[c][k]
      {
        AssembleEntry(|a|, p, c, k);
        CombinationIsProduct(a, b, p, c, k);
      }
      assert |r[c]| == |q[c]|;
    }
    assert r == q;
  }

  /** Strassen's recursion computes the textbook product. */
  lemma {:induction false} StrassenIsProduct(a: Matrix, b: Matrix)
    requires Conformable(a, b)
    ensures Strassen(a, b) == Product(a, b)
    decreases |a|
  {
    var n := |a|;
    if n == 2 {
      Base2IsProduct(a, b);
    } else {
      HalfOfPowerOfTwo(n);
      var f := Factors(a, b);
      var p := seq(7, i requires 0 <= i < 7 => Strassen(f[i].0, f[i].1));
      forall i | 0 <= i < 7
        ensures p[i] == FactorProduct(a, b, i)
      {
        StrassenIsProduct(f[i].0, f[i].1);
      }
      AssembleIsProduct(a, b, p);
      assert Blocks(a, b) == Assemble(n, p);
    }
  }

  /** `matrix_multiply` on equal power-of-two sizes returns the textbook
      product. */
  lemma MultiplyIsProduct(a: Matrix, b: Matrix)
    requires Conformable(a, b)
    ensures Multiply(a, b) == Some(Product(a, b))
  {
    StrassenIsProduct(a, b);
  }

  /** Squaring `m^k` gives `m^(2k)`. */
  lemma SquareStep(m: Matrix, k: nat)
    requires Conformable(m, m) && k >= 1
    ensures Multiply(RepeatedProduct(m, k), RepeatedProduct(m, k)) == Some(RepeatedProduct(m, k + k))
  {
    var half := RepeatedProduct(m, k);
    MultiplyIsProduct(half, half);
    RepeatedProductAdds(m, k, k);
  }

  /** Multiplying `m^(2k)` by `m` on the left gives `m^(2k+1)`. */
  lemma OddStep(m: Matrix, k: nat)
    requires Conformable(m, m) && k >= 1
    ensures Multiply(m, RepeatedProduct(m, k + k)) == Some(RepeatedProduct(m, k + k + 1))
  {
    MultiplyIsProduct(m, RepeatedProduct(m, k + k));
  }

  /** `matrix_power` with a positive exponent multiplies `m` by itself that
      many times. */
  lemma {:induction false} PowerIsRepeatedProduct(m: Matrix, e: nat)
    requires Conformable(m, m) && e >= 1
    ensures Power(m, e) == Columns(RepeatedProduct(m, e))
  {
    if e >= 2 {
      var k := e / 2;
      PowerIsRepeatedProduct(m, k);
      SquareStep(m, k);
      if e % 2 == 1 {
        OddStep(m, k);
      }
    }
  }

  /** `matrix_power` with negative exponents refused: `None` exactly for
      an exponent below 0, the identity at 0, and `m` multiplied by itself
      `e` times for every positive `e`. */
  function CheckedPower(m: Matrix, e: int): (r: Option<Value>)
    requires e >= 1 ==> Tall(m)
    requires e >= 2 ==> Conformable(m, m)
    ensures r.None? <==> e < 0
    ensures e == 0 ==> r == Some(Identity(|m|))
    ensures e >= 1 ==> r == Some(Columns(RepeatedProduct(m, e)))
  {
    if e < 0 then None
    else if e >= 2 then
      PowerIsRepeatedProduct(m, e);
      Some(Power(m, e))
    else Some(Power(m, e))
  }
}
