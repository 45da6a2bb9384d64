/** Dense matrices over exact reals: the `Matriz` helpers of utils/algebra.py.
    A matrix is a sequence of rows. The constructors, transpose, products,
    sum and difference fill a freshly allocated result entry by entry in
    nested loops, as the source does; each such method is proved equal to
    a specification function, and the algebra is proved about those. */
module Matrices {
  import opened Vectors

  type Matrix = seq<seq<real>>

  /** The `ValueError` that `multiplicar`, `soma` and `subtracao` raise on
      incompatible shapes. */
  datatype Result<T> = Ok(value: T) | DimensionMismatch

  /** `m` has exactly `r` rows of exactly `c` entries each. */
  predicate IsMatrix(m: Matrix, r: nat, c: nat)
  {
    |m| == r && forall i :: 0 <= i < r ==> |m[i]| == c
  }

  /** What the loops that take their column count from `len(m[0])` can
      index without failing: a first row exists and no row is shorter. */
  predicate Shaped(m: Matrix)
  {
    |m| > 0 && forall i :: 0 <= i < |m| ==> |m[0]| <= |m[i]|
  }

  /** `n`-by-`n`, holding `v` on the main diagonal and zero elsewhere. */
  predicate IsDiagonal(m: Matrix, n: nat, v: real)
  {
    IsMatrix(m, n, n) &&
    forall i, j :: 0 <= i < n && 0 <= j < n ==> m[i][j] == if i == j then v else 0.0
  }

  /** `n`-by-`n`, holding `v` on the secondary diagonal and zero elsewhere. */
  predicate IsAntiDiagonal(m: Matrix, n: nat, v: real)
  {
    IsMatrix(m, n, n) &&
    forall i, j :: 0 <= i < n && 0 <= j < n ==> m[i][j] == if j == n - 1 - i then v else 0.0
  }

  /** `Matriz.clone`: a row-by-row copy, equal to the original. */
  function Clone(m: Matrix): (r: Matrix)
    ensures r == m
  {
    seq(|m|, i requires 0 <= i < |m| => m[i][..])
  }

  /** `Matriz.constante`. */
  method Constant(rows: int, cols: int, value: real) returns (m: Matrix)
    ensures IsMatrix(m, Count(rows), Count(cols))
    ensures forall i, j :: 0 <= i < |m| && 0 <= j < |m[i]| ==> m[i][j] == value
  {
    m := [];
    var i: nat := 0;
    while i < rows
      invariant i <= Count(rows)
      invariant IsMatrix(m, i, Count(cols))
      invariant forall r, j :: 0 <= r < i && 0 <= j < |m[r]| ==> m[r][j] == value
    {
      m := m + [Create(cols, value)];
      i := i + 1;
    }
  }

  /** `Matriz.zeros`. */
  method Zeros(rows: int, cols: int) returns (m: Matrix)
    ensures IsMatrix(m, Count(rows), Count(cols))
    ensures forall i, j :: 0 <= i < |m| && 0 <= j < |m[i]| ==> m[i][j] == 0.0
  {
    m := Constant(rows, cols, 0.0);
  }

  /** `Matriz.diagonal_principal`. */
  method DiagonalMain(size: int, value: real) returns (m: Matrix)
    ensures IsDiagonal(m, Count(size), value)
  {
    m := [];
    var i: nat := 0;
    while i < size
      invariant i <= Count(size)
      invariant IsMatrix(m, i, Count(size))
      invariant forall r, j :: 0 <= r < i && 0 <= j < Count(size) ==>
                  m[r][j] == if r == j then value else 0.0
    {
      var row := Create(size, 0.0);
      row := row[i := value];
      m := m + [row];
      i := i + 1;
    }
  }

  /** `Matriz.diagonal_secundaria`. */
  method DiagonalSecondary(size: int, value: real) returns (m: Matrix)
    ensures IsAntiDiagonal(m, Count(size), value)
  {
    m := [];
    var i: nat := 0;
    while i < size
      invariant i <= Count(size)
      invariant IsMatrix(m, i, Count(size))
      invariant forall r, j :: 0 <= r < i && 0 <= j < Count(size) ==>
                  m[r][j] == if j == Count(size) - 1 - r then value else 0.0
    {
      var row := Create(size, 0.0);
      row := row[size - 1 - i := value];
      m := m + [row];
      i := i + 1;
    }
  }

  /** `Matriz.identidade`. */
  method Identity(size: int) returns (m: Matrix)
    ensures IsDiagonal(m, Count(size), 1.0)
  {
    m := DiagonalMain(size, 1.0);
  }

  /** `Matriz.separar_sistema`: every row loses its last entry, and those
      last entries form the right-hand side. `linha[-1]` fails on an empty
      row, hence the precondition. */
  function SplitSystem(s: Matrix): (ab: (Matrix, Vector))
    requires forall i :: 0 <= i < |s| ==> |s[i]| > 0
    ensures |ab.0| == |s| && |ab.1| == |s|
    ensures forall i :: 0 <= i < |s| ==> ab.0[i] + [ab.1[i]] == s[i]
  {
    (seq(|s|, i requires 0 <= i < |s| => s[i][..|s[i]| - 1]),
     seq(|s|, i requires 0 <= i < |s| => s[i][|s[i]| - 1]))
  }

  /** The transpose: entry `(j, i)` is entry `(i, j)` of `m`. */
  function Transposed(m: Matrix): (t: Matrix)
    requires Shaped(m)
    ensures IsMatrix(t, |m[0]|, |m|)
  {
    seq(|m[0]|, j requires 0 <= j < |m[0]| => seq(|m|, i requires 0 <= i < |m| => m[i][j]))
  }

  /** `Matriz.transposta`. */
  method Transpose(m: Matrix) returns (t: Matrix)
    requires Shaped(m)
    ensures t == Transposed(m)
  {
    var rows, cols := |m|, |m[0]|;
    t := Zeros(cols, rows);
    for i := 0 to rows
      invariant IsMatrix(t, cols, rows)
      invariant forall j, r :: 0 <= j < cols && 0 <= r < i ==> t[j][r] == m[r][j]
    {
      for j := 0 to cols
        invariant IsMatrix(t, cols, rows)
        invariant forall jj, r :: 0 <= jj < cols && 0 <= r < i ==> t[jj][r] == m[r][jj]
        invariant forall jj :: 0 <= jj < j ==> t[jj][i] == m[i][jj]
      {
        t := t[j := t[j][i := m[i][j]]];
      }
    }
    forall j | 0 <= j < cols ensures t[j] == Transposed(m)[j] {
    }
  }

  /** Transposing an `r`-by-`c` matrix twice gives it back. */
  lemma TransposeTwice(m: Matrix, r: nat, c: nat)
    requires r > 0 && c > 0 && IsMatrix(m, r, c)
    ensures Transposed(Transposed(m)) == m
  {
    var t := Transposed(m);
    var tt := Transposed(t);
    forall i | 0 <= i < r ensures tt[i] == m[i] {
    }
  }

  /** Column `j` of `m`. */
  function Column(m: Matrix, j: nat): (c: Vector)
    requires forall k :: 0 <= k < |m| ==> j < |m[k]|
    ensures |c| == |m|
  {
    seq(|m|, k requires 0 <= k < |m| => m[k][j])
  }

  /** The matrix product: entry `(i, j)` is the sum over `k` of `a[i][k] * b[k][j]`. */
  function Product(a: Matrix, b: Matrix): (p: Matrix)
    requires Shaped(b)
    ensures IsMatrix(p, |a|, |b[0]|)
  {
    seq(|a|, i requires 0 <= i < |a| =>
      seq(|b[0]|, j requires 0 <= j < |b[0]| => Dot(a[i], Column(b, j))))
  }

  /** The matrix-vector product: entry `i` is the sum over `j` of `a[i][j] * v[j]`. */
  function Apply(a: Matrix, v: Vector): (w: Vector)
    ensures |w| == |a|
  {
    seq(|a|, i requires 0 <= i < |a| => Dot(a[i], v))
  }

  /** Entry `i` of `a v` is row `i` of `a` dotted with `v`. */
  lemma ApplyEntry(a: Matrix, v: Vector, i: nat)
    requires i < |a|
    ensures Apply(a, v)[i] == Dot(a[i], v)
  {
  }

  /** `Matriz.multiplicar` when its second operand is a matrix. */
  method Multiply(a: Matrix, b: Matrix) returns (r: Result<Matrix>)
    requires |a| > 0 && |b| > 0 && (|a[0]| == |b| ==> Shaped(a) && Shaped(b))
    ensures r == if |a[0]| != |b| then DimensionMismatch else Ok(Product(a, b))
  {
    var rowsA, colsA, rowsB, colsB := |a|, |a[0]|, |b|, |b[0]|;
    if colsA != rowsB {
      return DimensionMismatch;
    }
    var res := Zeros(rowsA, colsB);
    for i := 0 to rowsA
      invariant IsMatrix(res, rowsA, colsB)
      invariant forall r :: 0 <= r < i ==> res[r] == Product(a, b)[r]
    {
      for j := 0 to colsB
        invariant IsMatrix(res, rowsA, colsB)
        invariant forall r :: 0 <= r < i ==> res[r] == Product(a, b)[r]
        invariant forall jj :: 0 <= jj < j ==> res[i][jj] == Product(a, b)[i][jj]
      {
        var col := Column(b, j);
        var sum := 0.0;
        for k := 0 to colsA
          invariant sum == Dot(a[i][..k], col[..k])
        {
          DotSnoc(a[i], col, k);
          sum := sum + a[i][k] * b[k][j];
        }
        DotTruncate(a[i], col);
        assert col[..colsA] == col;
        res := res[i := res[i][j := sum]];
      }
      assert res[i] == Product(a, b)[i];
    }
    assert res == Product(a, b);
    r := Ok(res);
  }

  /** `Matriz.multiplicar` when its second operand is a vector. The source
      reads `v[0]` to tell the two shapes apart, and checks no dimension. */
  method MultiplyVector(a: Matrix, v: Vector) returns (w: Vector)
    requires |v| > 0
    requires forall i :: 0 <= i < |a| ==> |v| <= |a[i]|
    ensures w == Apply(a, v)
  {
    var rows, cols := |a|, |v|;
    w := Create(rows, 0.0);
    for i := 0 to rows
      invariant |w| == rows
      invariant forall r :: 0 <= r < i ==> w[r] == Dot(a[r], v)
    {
      var sum := 0.0;
      for j := 0 to cols
        invariant sum == Dot(a[i][..j], v[..j])
      {
        DotSnoc(a[i], v, j);
        sum := sum + a[i][j] * v[j];
      }
      DotTruncate(a[i], v);
      assert v[..cols] == v;
      w := w[i := sum];
    }
  }

  /** The entry-wise sum on the shape of `a`. */
  function Sum(a: Matrix, b: Matrix): (s: Matrix)
    requires Shaped(a) && |b| == |a| && forall i :: 0 <= i < |b| ==> |a[0]| <= |b[i]|
    ensures IsMatrix(s, |a|, |a[0]|)
  {
    seq(|a|, i requires 0 <= i < |a| =>
      seq(|a[0]|, j requires 0 <= j < |a[0]| => a[i][j] + b[i][j]))
  }

  /** The entry-wise difference on the shape of `a`. */
  function Difference(a: Matrix, b: Matrix): (d: Matrix)
    requires Shaped(a) && |b| == |a| && forall i :: 0 <= i < |b| ==> |a[0]| <= |b[i]|
    ensures IsMatrix(d, |a|, |a[0]|)
  {
    seq(|a|, i requires 0 <= i < |a| =>
      seq(|a[0]|, j requires 0 <= j < |a[0]| => a[i][j] - b[i][j]))
  }

  /** `Matriz.soma`. */
  method Add(a: Matrix, b: Matrix) returns (r: Result<Matrix>)
    requires Shaped(a) && (|b| == |a| && |b[0]| == |a[0]| ==> Shaped(b))
    ensures r == if |a| != |b| || |a[0]| != |b[0]| then DimensionMismatch else Ok(Sum(a, b))
  {
    var rows, cols := |a|, |a[0]|;
    if rows != |b| || cols != |b[0]| {
      return DimensionMismatch;
    }
    var res := Zeros(rows, cols);
    for i := 0 to rows
      invariant IsMatrix(res, rows, cols)
      invariant forall r :: 0 <= r < i ==> res[r] == Sum(a, b)[r]
    {
      for j := 0 to cols
        invariant IsMatrix(res, rows, cols)
        invariant forall r :: 0 <= r < i ==> res[r] == Sum(a, b)[r]
        invariant forall jj :: 0 <= jj < j ==> res[i][jj] == a[i][jj] + b[i][jj]
      {
        res := res[i := res[i][j := a[i][j] + b[i][j]]];
      }
      assert res[i] == Sum(a, b)[i];
    }
    assert res == Sum(a, b);
    r := Ok(res);
  }

  /** `Matriz.subtracao`. */
  method Subtract(a: Matrix, b: Matrix) returns (r: Result<Matrix>)
    requires Shaped(a) && (|b| == |a| && |b[0]| == |a[0]| ==> Shaped(b))
    ensures r == if |a| != |b| || |a[0]| != |b[0]| then DimensionMismatch else Ok(Difference(a, b))
  {
    var rows, cols := |a|, |a[0]|;
    if rows != |b| || cols != |b[0]| {
      return DimensionMismatch;
    }
    var res := Zeros(rows, cols);
    for i := 0 to rows
      invariant IsMatrix(res, rows, cols)
      invariant forall r :: 0 <= r < i ==> res[r] == Difference(a, b)[r]
    {
      for j := 0 to cols
        invariant IsMatrix(res, rows, cols)
        invariant forall r :: 0 <= r < i ==> res[r] == Difference(a, b)[r]
        invariant forall jj :: 0 <= jj < j ==> res[i][jj] == a[i][jj] - b[i][jj]
      {
        res := res[i := res[i][j := a[i][j] - b[i][j]]];
      }
      assert res[i] == Difference(a, b)[i];
    }
    assert res == Difference(a, b);
    r := Ok(res);
  }

  /** Over exact reals, subtracting `b` undoes adding it. */
  lemma SubtractAfterAdd(a: Matrix, b: Matrix, r: nat, c: nat)
    requires r > 0 && IsMatrix(a, r, c) && IsMatrix(b, r, c)
    ensures Difference(Sum(a, b), b) == a
  {
    var d := Difference(Sum(a, b), b);
    forall i | 0 <= i < r ensures d[i] == a[i] {
    }
  }

  /** A matrix of zeros is neutral for the sum. */
  lemma SumZeros(a: Matrix, z: Matrix, r: nat, c: nat)
    requires r > 0 && IsMatrix(a, r, c) && IsMatrix(z, r, c)
    requires forall i, j :: 0 <= i < r && 0 <= j < c ==> z[i][j] == 0.0
    ensures Sum(a, z) == a
  {
    var s := Sum(a, z);
    forall i | 0 <= i < r ensures s[i] == a[i] {
    }
  }

  /** A main-diagonal matrix scales a vector entry by entry. */
  lemma DiagonalApply(m: Matrix, v: real, x: Vector)
    requires IsDiagonal(m, |x|, v)
    ensures Apply(m, x) == Scale(x, v)
  {
    forall i | 0 <= i < |x| ensures Apply(m, x)[i] == Scale(x, v)[i] {
      DotSingle(m[i], x, i);
    }
  }

  /** The vector read backwards. */
  function Reverse(x: Vector): (r: Vector)
    ensures |r| == |x|
  {
    seq(|x|, i requires 0 <= i < |x| => x[|x| - 1 - i])
  }

  /** A secondary-diagonal matrix reverses a vector (and scales it). */
  lemma AntiDiagonalApply(m: Matrix, v: real, x: Vector)
    requires IsAntiDiagonal(m, |x|, v)
    ensures Apply(m, x) == Scale(Reverse(x), v)
  {
    forall i | 0 <= i < |x| ensures Apply(m, x)[i] == Scale(Reverse(x), v)[i] {
      var p := |x| - 1 - i;
      DotSingle(m[i], x, p);
      assert m[i][p] == v && Reverse(x)[i] == x[p];
    }
  }

  /** Row `row` combined with the first `k` rows of `b`: the sum of
      `row[q] * b[q]` over `q < k`. */
  ghost function Combination(row: Vector, b: Matrix, k: nat): (c: Vector)
    requires Shaped(b) && k <= |row| && k <= |b|
    ensures |c| == |b[0]|
  {
    if k == 0 then Create(|b[0]|, 0.0)
    else
      var prev := Combination(row, b, k - 1);
      seq(|b[0]|, j requires 0 <= j < |b[0]| => prev[j] + row[k - 1] * b[k - 1][j])
  }

  /** Column `j` of the combination is the dot product of `row` with column `j` of `b`. */
  lemma {:induction false} CombinationEntry(row: Vector, b: Matrix, k: nat, j: nat)
    requires Shaped(b) && k <= |row| && k <= |b| && j < |b[0]|
    ensures Combination(row, b, k)[j] == Dot(row[..k], Column(b, j)[..k])
  {
    if k > 0 {
      CombinationEntry(row, b, k - 1, j);
      DotSnoc(row, Column(b, j), k - 1);
    }
  }

  /** Applying the combination is combining the applied rows. */
  lemma {:induction false} CombinationApply(row: Vector, b: Matrix, x: Vector, k: nat)
    requires Shaped(b) && IsMatrix(b, |b|, |b[0]|) && k <= |row| && k <= |b|
    ensures Dot(Combination(row, b, k), x) == Dot(row[..k], Apply(b, x)[..k])
  {
    var w := Apply(b, x);
    if k == 0 {
      DotZero(Combination(row, b, 0), x);
      DotZero(row[..0], w[..0]);
    } else {
      calc {
        Dot(Combination(row, b, k), x);
      == { CombinationApplyStep(row, b, x, k); }
        Dot(Combination(row, b, k - 1), x) + row[k - 1] * w[k - 1];
      == { CombinationApply(row, b, x, k - 1); }
        Dot(row[..k - 1], w[..k - 1]) + row[k - 1] * w[k - 1];
      == { DotSnoc(row, w, k - 1); }
        Dot(row[..k], w[..k]);
      }
    }
  }

  /** One more row of `b` adds its applied value, weighted by `row[k - 1]`. */
  lemma CombinationApplyStep(row: Vector, b: Matrix, x: Vector, k: nat)
    requires Shaped(b) && IsMatrix(b, |b|, |b[0]|) && 0 < k <= |row| && k <= |b|
    ensures Dot(Combination(row, b, k), x)
         == Dot(Combination(row, b, k - 1), x) + row[k - 1] * Apply(b, x)[k - 1]
  {
    var next, prev, c := Combination(row, b, k), Combination(row, b, k - 1), b[k - 1];
    forall j | 0 <= j < |next| ensures next[j] == prev[j] + row[k - 1] * c[j] {
    }
    DotCombine(next, prev, c, row[k - 1], x);
    ApplyEntry(b, x, k - 1);
  }

  /** Applying a product is applying its factors in turn. */
  lemma ApplyProduct(a: Matrix, b: Matrix, x: Vector)
    requires Shaped(b) && IsMatrix(b, |b|, |b[0]|)
    requires forall i :: 0 <= i < |a| ==> |a[i]| == |b|
    ensures Apply(Product(a, b), x) == Apply(a, Apply(b, x))
  {
    var p := Product(a, b);
    var w := Apply(b, x);
    forall i | 0 <= i < |a| ensures Dot(p[i], x) == Dot(a[i], w) {
      var row := a[i];
      CombinationApply(row, b, x, |b|);
      assert row[..|b|] == row;
      assert w[..|b|] == w;
      forall j | 0 <= j < |b[0]| ensures Combination(row, b, |b|)[j] == p[i][j] {
        CombinationEntry(row, b, |b|, j);
        assert Column(b, j)[..|b|] == Column(b, j);
      }
      assert Combination(row, b, |b|) == p[i];
    }
  }
}
