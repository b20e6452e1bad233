/**
 The textbook matrix product over column-major matrices, the reference
 against which Strassen's scheme is checked:
   `Product(a, b)[c][r] == a[0][r] * b[c][0] + ... + a[n-1][r] * b[c][n-1]`.
 Its algebra (linearity, block decomposition, associativity, identity) is
 proved here from the dot product up.
 */
module LinearAlgebra {
  import opened Matrices

  // ---------------------------------------------------------------------
  // Dot products
  // ---------------------------------------------------------------------

  function Dot(u: seq<int>, v: seq<int>): int
    requires |u| == |v|
  {
    if |u| == 0 then 0 else u[0] * v[0] + Dot(u[1..], v[1..])
  }

  lemma DotOfTwo(u: seq<int>, v: seq<int>)
    requires |u| == |v| == 2
    ensures Dot(u, v) == u[0] * v[0] + u[1] * v[1]
  {
    assert Dot(u[1..][1..], v[1..][1..]) == 0;
  }

  lemma {:induction false} DotCommutes(u: seq<int>, v: seq<int>)
    requires |u| == |v|
    ensures Dot(u, v) == Dot(v, u)
  {
    if |u| > 0 {
      DotCommutes(u[1..], v[1..]);
    }
  }

  /** The dot product of concatenations is the sum of the parts' products. */
  lemma {:induction false} DotAppend(u1: seq<int>, u2: seq<int>, v1: seq<int>, v2: seq<int>)
    requires |u1| == |v1| && |u2| == |v2|
    ensures Dot(u1 + u2, v1 + v2) == Dot(u1, v1) + Dot(u2, v2)
  {
    if |u1| > 0 {
      assert (u1 + u2)[1..] == u1[1..] + u2;
      assert (v1 + v2)[1..] == v1[1..] + v2;
      DotAppend(u1[1..], u2, v1[1..], v2);
    } else {
      assert u1 + u2 == u2 && v1 + v2 == v2;
    }
  }

  /** Linearity in the left operand, for a pointwise sum or difference. */
  lemma {:induction false} DotLinearLeft(s: seq<int>, u: seq<int>, v: seq<int>, w: seq<int>, plus: bool)
    requires |s| == |u| == |v| == |w|
    requires forall i :: 0 <= i < |s| ==> s[i] == if plus then u[i] + v[i] else u[i] - v[i]
    ensures Dot(s, w) == if plus then Dot(u, w) + Dot(v, w) else Dot(u, w) - Dot(v, w)
  {
    if |s| > 0 {
      DotLinearLeft(s[1..], u[1..], v[1..], w[1..], plus);
      if plus {
        assert s[0] * w[0] == u[0] * w[0] + v[0] * w[0];
      } else {
        assert s[0] * w[0] == u[0] * w[0] - v[0] * w[0];
      }
    }
  }

  lemma DotLinearRight(s: seq<int>, u: seq<int>, v: seq<int>, w: seq<int>, plus: bool)
    requires |s| == |u| == |v| == |w|
    requires forall i :: 0 <= i < |s| ==> s[i] == if plus then u[i] + v[i] else u[i] - v[i]
    ensures Dot(w, s) == if plus then Dot(w, u) + Dot(w, v) else Dot(w, u) - Dot(w, v)
  {
    DotLinearLeft(s, u, v, w, plus);
    DotCommutes(w, s);
    DotCommutes(w, u);
    DotCommutes(w, v);
  }

  /** Scaling the right operand scales the product. */
  lemma {:induction false} DotScaleRight(u: seq<int>, v: seq<int>, s: seq<int>, k: int)
    requires |u| == |v| == |s|
    requires forall i :: 0 <= i < |s| ==> s[i] == v[i] * k
    ensures Dot(u, s) == Dot(u, v) * k
  {
    if |u| > 0 {
      DotScaleRight(u[1..], v[1..], s[1..], k);
      assert u[0] * s[0] == (u[0] * v[0]) * k;
    }
  }

  /** Against a unit vector, the dot product picks out one entry. */
  lemma {:induction false} DotUnit(e: seq<int>, v: seq<int>, j: nat)
    requires |e| == |v| && j < |e|
    requires forall i :: 0 <= i < |e| ==> e[i] == if i == j then 1 else 0
    ensures Dot(e, v) == v[j]
  {
    if j == 0 {
      DotZero(e[1..], v[1..]);
    } else {
      DotUnit(e[1..], v[1..], j - 1);
    }
  }

  lemma {:induction false} DotZero(e: seq<int>, v: seq<int>)
    requires |e| == |v|
    requires forall i :: 0 <= i < |e| ==> e[i] == 0
    ensures Dot(e, v) == 0
  {
    if |e| > 0 {
      DotZero(e[1..], v[1..]);
    }
  }

  // ---------------------------------------------------------------------
  // Rows, matrix-vector products and the product
  // ---------------------------------------------------------------------

  /** Row `r` of `m`: entry `r` of every column. */
  function Row(m: Matrix, r: nat): (row: seq<int>)
    requires forall c :: 0 <= c < |m| ==> r < |m[c]|
    ensures |row| == |m|
    ensures forall c {:trigger row[c]} :: 0 <= c < |row| ==> row[c] == m[c][r]
  {
    seq(|m|, c requires 0 <= c < |m| => m[c][r])
  }

  /** `m` applied to the column vector `y`, keeping the first `rows` rows. */
  function Apply(m: Matrix, y: seq<int>, rows: nat): (v: seq<int>)
    requires |y| == |m|
    requires forall c :: 0 <= c < |m| ==> rows <= |m[c]|
    ensures |v| == rows
    ensures forall r {:trigger v[r]} :: 0 <= r < rows ==> v[r] == Dot(Row(m, r), y)
  {
    seq(rows, r requires 0 <= r < rows => Dot(Row(m, r), y))
  }

  /** The row vector `x` times `m`, reading the first `|x|` entries of each column. */
  function Combine(x: seq<int>, m: Matrix): (v: seq<int>)
    requires forall c :: 0 <= c < |m| ==> |x| <= |m[c]|
    ensures |v| == |m|
    ensures forall c {:trigger v[c]} :: 0 <= c < |m| ==> v[c] == Dot(x, m[c][..|x|])
  {
    seq(|m|, c requires 0 <= c < |m| => Dot(x, m[c][..|x|]))
  }

  /** `(x m) y == x (m y)`: the two ways of summing `x[i] * m[j][i] * y[j]`. */
  lemma {:induction false} DotSwap(x: seq<int>, m: Matrix, y: seq<int>)
    requires |y| == |m|
    requires forall c :: 0 <= c < |m| ==> |x| <= |m[c]|
    ensures Dot(Combine(x, m), y) == Dot(x, Apply(m, y, |x|))
  {
    var n := |x|;
    if |m| == 0 {
      DotZero(Apply(m, y, n), x);
      DotCommutes(x, Apply(m, y, n));
    } else {
      var m', y' := m[1..], y[1..];
      DotSwap(x, m', y');
      var rest := Apply(m', y', n);
      var first := seq(n, i requires 0 <= i < n => m[0][i] * y[0]);
      forall i | 0 <= i < n
        ensures Apply(m, y, n)[i] == first[i] + rest[i]
      {
        assert Row(m, i)[1..] == Row(m', i);
      }
      DotLinearRight(Apply(m, y, n), first, rest, x, true);
      DotScaleRight(x, m[0][..n], first, y[0]);
      assert Combine(x, m)[1..] == Combine(x, m');
    }
  }

  /** The textbook product: column `c` of the result is `a` applied to column
      `c` of `b`. */
  function Product(a: Matrix, b: Matrix): (p: Matrix)
    requires |a| == |b| && Tall(a) && Tall(b)
    ensures |p| == |a| && Square(p)
    ensures forall c, r {:trigger p[c][r]} :: 0 <= c < |a| && 0 <= r < |a| ==>
              p[c][r] == Dot(Row(a, r), b[c][..|a|])
  {
    var n := |a|;
    seq(n, c requires 0 <= c < n => Apply(a, b[c][..n], n))
  }

  /** Matrix multiplication is associative. */
  lemma ProductAssociates(a: Matrix, b: Matrix, c: Matrix)
    requires |a| == |b| == |c| && Tall(a) && Tall(b) && Tall(c)
    ensures Product(Product(a, b), c) == Product(a, Product(b, c))
  {
    var n := |a|;
    var ab, bc := Product(a, b), Product(b, c);
    var left, right := Product(ab, c), Product(a, bc);
    forall col | 0 <= col < n
      ensures left[col] == right[col]
    {
      forall r | 0 <= r < n
        ensures left[col][r] == right[col][r]
      {
        var x := Row(a, r);
        assert Row(ab, r) == Combine(x, b);
        assert bc[col][..n] == Apply(b, c[col][..n], n);
        DotSwap(x, b, c[col][..n]);
      }
      assert |left[col]| == |right[col]|;
    }
  }

  /** The identity is neutral on both sides. */
  lemma ProductIdentity(m: Matrix)
    requires Square(m) && |m| >= 1
    ensures Product(Identity(|m|).cols, m) == m
    ensures Product(m, Identity(|m|).cols) == m
  {
    var n := |m|;
    var u := Identity(n).cols;
    var left, right := Product(u, m), Product(m, u);
    forall c | 0 <= c < n
      ensures left[c] == m[c] && right[c] == m[c]
    {
      forall r | 0 <= r < n
        ensures left[c][r] == m[c][r] && right[c][r] == m[c][r]
      {
        DotUnit(Row(u, r), m[c][..n], r);
        DotCommutes(Row(m, r), u[c][..n]);
        DotUnit(u[c][..n], Row(m, r), c);
      }
      assert |left[c]| == |m[c]| && |right[c]| == |m[c]|;
    }
  }

  // ---------------------------------------------------------------------
  // Products of sums, and products of blocks
  // ---------------------------------------------------------------------

  /** Entry of a sum or difference, as `Sum`/`Difference` compute it. */
  function Combined(x: Matrix, y: Matrix, plus: bool): (s: Matrix)
    requires |x| == |y| && Tall(x) && Tall(y)
    ensures |s| == |x| && Square(s)
    ensures forall c, k {:trigger s[c][k]} :: 0 <= c < |x| && 0 <= k < |x| ==>
              s[c][k] == if plus then x[c][k] + y[c][k] else x[c][k] - y[c][k]
  {
    if plus then Sum(x, y).value else Difference(x, y).value
  }

  /** `(x ± y) z == x z ± y z` entry by entry. */
  lemma ProductDistributesLeft(x: Matrix, y: Matrix, z: Matrix, plus: bool)
    requires |x| == |y| == |z| && Tall(x) && Tall(y) && Tall(z)
    ensures forall c, r :: 0 <= c < |x| && 0 <= r < |x| ==>
      Product(Combined(x, y, plus), z)[c][r] ==
        if plus then Product(x, z)[c][r] + Product(y, z)[c][r]
        else Product(x, z)[c][r] - Product(y, z)[c][r]
  {
    var n := |x|;
    var s := Combined(x, y, plus);
    forall c, r | 0 <= c < n && 0 <= r < n
      ensures Product(s, z)[c][r] ==
        if plus then Product(x, z)[c][r] + Product(y, z)[c][r]
        else Product(x, z)[c][r] - Product(y, z)[c][r]
    {
      DotLinearLeft(Row(s, r), Row(x, r), Row(y, r), z[c][..n], plus);
    }
  }

  /** `z (x ± y) == z x ± z y` entry by entry. */
  lemma ProductDistributesRight(z: Matrix, x: Matrix, y: Matrix, plus: bool)
    requires |x| == |y| == |z| && Tall(x) && Tall(y) && Tall(z)
    ensures forall c, r :: 0 <= c < |x| && 0 <= r < |x| ==>
      Product(z, Combined(x, y, plus))[c][r] ==
        if plus then Product(z, x)[c][r] + Product(z, y)[c][r]
        else Product(z, x)[c][r] - Product(z, y)[c][r]
  {
    var n := |x|;
    var s := Combined(x, y, plus);
    forall c, r | 0 <= c < n && 0 <= r < n
      ensures Product(z, s)[c][r] ==
        if plus then Product(z, x)[c][r] + Product(z, y)[c][r]
        else Product(z, x)[c][r] - Product(z, y)[c][r]
    {
      DotLinearRight(s[c][..n], x[c][..n], y[c][..n], Row(z, r), plus);
    }
  }

  /** An entry of a product of `2h x 2h` matrices, read through blocks of
      side `h`: the entry in block column `co` and block row `ro` sums the
      products of the two blocks of `a` in row `ro` and the two blocks of `b`
      in column `co`. */
  lemma BlockEntry(a: Matrix, b: Matrix, h: nat, co: nat, ro: nat, c: nat, r: nat)
    requires |a| == |b| == 2 * h && Tall(a) && Tall(b)
    requires (co == 0 || co == h) && (ro == 0 || ro == h) && c < h && r < h
    ensures Product(a, b)[co + c][ro + r] ==
      Product(Block(a, 0, ro, h), Block(b, co, 0, h))[c][r] +
      Product(Block(a, h, ro, h), Block(b, co, h, h))[c][r]
  {
    var a1, a2 := Block(a, 0, ro, h), Block(a, h, ro, h);
    var b1, b2 := Block(b, co, 0, h), Block(b, co, h, h);
    RowSplits(a, h, ro, r);
    ColumnSplits(b, h, co, c);
    DotAppend(Row(a1, r), Row(a2, r), b1[c][..h], b2[c][..h]);
  }

  /** A row of `a` is the same row of its left block, then of its right
      block. */
  lemma RowSplits(a: Matrix, h: nat, ro: nat, r: nat)
    requires |a| == 2 * h && Tall(a) && (ro == 0 || ro == h) && r < h
    ensures Row(a, ro + r) == Row(Block(a, 0, ro, h), r) + Row(Block(a, h, ro, h), r)
  {
    var row, a1, a2 := Row(a, ro + r), Block(a, 0, ro, h), Block(a, h, ro, h);
    var joined := Row(a1, r) + Row(a2, r);
    forall k | 0 <= k < 2 * h
      ensures row[k] == joined[k]
    {
      if k < h {
        assert joined[k] == a1[k][r];
      } else {
        assert joined[k] == a2[k - h][r];
      }
    }
    assert |row| == |joined|;
  }

  /** A column of `b`, cut to `2h` rows, is the same column of its upper
      block, then of its lower block. */
  lemma ColumnSplits(b: Matrix, h: nat, co: nat, c: nat)
    requires |b| == 2 * h && Tall(b) && (co == 0 || co == h) && c < h
    ensures b[co + c][..2 * h] == Block(b, co, 0, h)[c][..h] + Block(b, co, h, h)[c][..h]
  {
    var col, b1, b2 := b[co + c][..2 * h], Block(b, co, 0, h), Block(b, co, h, h);
    var joined := b1[c][..h] + b2[c][..h];
    forall k | 0 <= k < 2 * h
      ensures col[k] == joined[k]
    {
      if k < h {
        assert joined[k] == b1[c][k];
      } else {
        assert joined[k] == b2[c][k - h];
      }
    }
    assert |col| == |joined|;
  }

  // ---------------------------------------------------------------------
  // Repeated products
  // ---------------------------------------------------------------------

  /** `m` multiplied by itself `e` times, `e >= 1`, one factor at a time. */
  function RepeatedProduct(m: Matrix, e: nat): (p: Matrix)
    requires Tall(m) && e >= 1
    ensures |p| == |m| && Tall(p)
  {
    if e == 1 then m else Product(m, RepeatedProduct(m, e - 1))
  }

  /** `m^(i+j) == m^i m^j`. */
  lemma {:induction false} RepeatedProductAdds(m: Matrix, i: nat, j: nat)
    requires Tall(m) && i >= 1 && j >= 1
    ensures RepeatedProduct(m, i + j) == Product(RepeatedProduct(m, i), RepeatedProduct(m, j))
  {
    if i > 1 {
      RepeatedProductAdds(m, i - 1, j);
      ProductAssociates(m, RepeatedProduct(m, i - 1), RepeatedProduct(m, j));
    }
  }
}
