/** The direct solvers of `SolversLineares` (utils/solver.py): Gaussian
    elimination with back-substitution (`gauss`) and the Doolittle LU
    decomposition (`decomposicao_lu`). The methods keep the source's loops;
    the elimination they carry out is specified by `Eliminated`, and the
    algebra is proved about that function: each pass keeps the solution set,
    the passes leave an upper-triangular matrix, and the recorded
    multipliers rebuild the matrix (`L * U == A`). */
module DirectSolvers {
  import opened Vectors
  import opened Matrices

  predicate Square(m: Matrix)
  {
    IsMatrix(m, |m|, |m|)
  }

  /** A square system `a x = b` with at least one unknown. */
  predicate SquareSystem(a: Matrix, b: Vector)
  {
    |a| > 0 && Square(a) && |b| == |a|
  }

  predicate UpperTriangular(m: Matrix)
  {
    Square(m) && forall i, j :: 0 <= j < i < |m| ==> m[i][j] == 0.0
  }

  predicate UnitLowerTriangular(m: Matrix)
  {
    Square(m) &&
    (forall i, j :: 0 <= i < j < |m| ==> m[i][j] == 0.0) &&
    (forall i :: 0 <= i < |m| ==> m[i][i] == 1.0)
  }

  predicate NonZeroDiagonal(m: Matrix)
    requires Square(m)
  {
    forall i :: 0 <= i < |m| ==> m[i][i] != 0.0
  }

  // ---------------------------------------------------------------------
  // Specification of the elimination
  // ---------------------------------------------------------------------

  /** `l_ik`, the multiple of pivot row `k` that clears entry `(i, k)`. A zero
      pivot, which `NonZeroPivots` excludes, gives zero to keep this total. */
  function Multiplier(m: Matrix, i: nat, k: nat): real
    requires Square(m) && i < |m| && k < |m|
  {
    if m[k][k] == 0.0 then 0.0 else m[i][k] / m[k][k]
  }

  /** Pivot row `k` has nothing left of the pivot, as after the passes
      before pass `k`. */
  predicate PivotRowReduced(m: Matrix, k: nat)
    requires Square(m) && k < |m|
  {
    forall j :: 0 <= j < k ==> m[k][j] == 0.0
  }

  /** `row` less `l` times `pivot` in the columns `k` onward (`range(k, n)`). */
  function Eliminate(row: Vector, pivot: Vector, l: real, k: nat): (r: Vector)
    requires |row| == |pivot|
    ensures |r| == |row|
  {
    seq(|row|, j requires 0 <= j < |row| => if j < k then row[j] else row[j] - l * pivot[j])
  }

  /** Pass `k` once the rows `k + 1 .. i - 1` below the pivot are done. */
  function PassRows(m: Matrix, k: nat, i: nat): (r: Matrix)
    requires Square(m) && k < |m|
    ensures Square(r) && |r| == |m|
  {
    seq(|m|, r requires 0 <= r < |m| =>
      if k < r < i then Eliminate(m[r], m[k], Multiplier(m, r, k), k) else m[r])
  }

  /** The same pass on the right-hand side. */
  function PassRhs(m: Matrix, c: Vector, k: nat, i: nat): (r: Vector)
    requires Square(m) && |c| == |m| && k < |m|
    ensures |r| == |c|
  {
    seq(|c|, r requires 0 <= r < |c| =>
      if k < r < i then c[r] - Multiplier(m, r, k) * c[k] else c[r])
  }

  /** The matrix after the passes with pivots `0 .. k - 1`. */
  function Eliminated(a: Matrix, k: nat): (m: Matrix)
    requires Square(a) && k <= |a|
    ensures Square(m) && |m| == |a|
  {
    if k == 0 then a else PassRows(Eliminated(a, k - 1), k - 1, |a|)
  }

  /** The right-hand side after the passes with pivots `0 .. k - 1`. */
  function EliminatedRhs(a: Matrix, b: Vector, k: nat): (c: Vector)
    requires Square(a) && |b| == |a| && k <= |a|
    ensures |c| == |a|
  {
    if k == 0 then b else PassRhs(Eliminated(a, k - 1), EliminatedRhs(a, b, k - 1), k - 1, |a|)
  }

  /** No pivot the elimination divides by is zero. The source does no
      pivoting, so a zero pivot raises `ZeroDivisionError` there. */
  predicate NonZeroPivots(a: Matrix)
    requires Square(a)
  {
    forall k :: 0 <= k < |a| ==> Pivot(a, k) != 0.0
  }

  /** The pivot pass `k` divides by. */
  function Pivot(a: Matrix, k: nat): real
    requires Square(a) && k < |a|
  {
    Eliminated(a, k)[k][k]
  }

  /** `U` of the LU decomposition: every pass done. */
  function Upper(a: Matrix): (u: Matrix)
    requires Square(a)
    ensures Square(u) && |u| == |a|
  {
    Eliminated(a, |a|)
  }

  /** The `n`-by-`n` identity, which `decomposicao_lu` starts `L` from. */
  function IdentityOf(n: nat): (m: Matrix)
    ensures IsDiagonal(m, n, 1.0)
  {
    seq(n, i requires 0 <= i < n => seq(n, j requires 0 <= j < n => if i == j then 1.0 else 0.0))
  }

  /** `matrizL[i][k] = l_ik` for every row below pivot `k`. */
  function FillColumn(l: Matrix, u: Matrix, k: nat): (r: Matrix)
    requires Square(u) && IsMatrix(l, |u|, |u|) && k < |u|
    ensures IsMatrix(r, |u|, |u|)
  {
    seq(|u|, p requires 0 <= p < |u| =>
      seq(|u|, q requires 0 <= q < |u| => if q == k && k < p then Multiplier(u, p, k) else l[p][q]))
  }

  /** `(L, U)` of `decomposicao_lu` after the passes with pivots `0 .. k - 1`. */
  function Factors(a: Matrix, k: nat): (f: (Matrix, Matrix))
    requires Square(a) && k <= |a|
    ensures IsMatrix(f.0, |a|, |a|) && Square(f.1) && |f.1| == |a|
  {
    if k == 0 then (IdentityOf(|a|), a)
    else
      var prev := Factors(a, k - 1);
      (FillColumn(prev.0, prev.1, k - 1), PassRows(prev.1, k - 1, |a|))
  }

  /** `L` of the LU decomposition: the multipliers below a unit diagonal. */
  function Lower(a: Matrix): (l: Matrix)
    requires Square(a)
    ensures IsMatrix(l, |a|, |a|)
  {
    Factors(a, |a|).0
  }

  /** `a` is the working matrix `u` plus the part of `L * U` that the first
      `k` passes have moved into `l` (rows of `u` above `k` are final). */
  ghost predicate Accounts(a: Matrix, l: Matrix, u: Matrix, k: nat)
    requires Square(a) && IsMatrix(l, |a|, |a|) && Square(u) && |u| == |a| && k <= |a|
  {
    forall i, j :: 0 <= i < |a| && 0 <= j < |a| ==>
      a[i][j] == u[i][j] + Dot(l[i][..Min(i, k)], Column(u, j)[..Min(i, k)])
  }

  // ---------------------------------------------------------------------
  // Properties of the elimination
  // ---------------------------------------------------------------------

  /** A pass changes only the rows below its pivot, so row `r` is final once
      pass `r` has started. */
  lemma {:induction false} RowSettled(a: Matrix, k: nat, r: nat)
    requires Square(a) && r <= k <= |a| && r < |a|
    ensures Eliminated(a, k)[r] == Eliminated(a, r)[r]
    decreases k
  {
    if k > r {
      RowSettled(a, k - 1, r);
    }
  }

  /** With non-zero pivots the first `k` passes clear the first `k` columns
      below the diagonal. */
  lemma {:induction false} EliminatedTriangular(a: Matrix, k: nat)
    requires Square(a) && NonZeroPivots(a) && k <= |a|
    ensures forall i, j :: 0 <= j < k && j < i < |a| ==> Eliminated(a, k)[i][j] == 0.0
  {
    if k > 0 {
      EliminatedTriangular(a, k - 1);
      assert Pivot(a, k - 1) != 0.0;
      PassTriangular(Eliminated(a, k - 1), k - 1);
    }
  }

  /** A pass with a non-zero pivot clears one more column below the diagonal. */
  lemma PassTriangular(m: Matrix, k: nat)
    requires Square(m) && k < |m| && m[k][k] != 0.0
    requires forall i, j :: 0 <= j < k && j < i < |m| ==> m[i][j] == 0.0
    ensures forall i, j :: 0 <= j <= k && j < i < |m| ==> PassRows(m, k, |m|)[i][j] == 0.0
  {
    var e := PassRows(m, k, |m|);
    forall i, j | 0 <= j <= k && j < i < |m| ensures e[i][j] == 0.0 {
      if k < i {
        assert e[i] == Eliminate(m[i], m[k], Multiplier(m, i, k), k);
        if j == k {
          ClearsPivot(m[i][j], m[k][k]);
        }
      } else {
        assert e[i] == m[i];
      }
    }
  }

  /** The multiplier clears the entry below a non-zero pivot. */
  lemma ClearsPivot(v: real, p: real)
    requires p != 0.0
    ensures v - v / p * p == 0.0
  {
  }

  /** After the `n - 1` passes of `gauss` (or the `n` of `decomposicao_lu`)
      the matrix is upper triangular with the pivots on its diagonal. */
  lemma EliminatedUpper(a: Matrix, k: nat)
    requires Square(a) && |a| > 0 && NonZeroPivots(a) && |a| - 1 <= k <= |a|
    ensures UpperTriangular(Eliminated(a, k)) && NonZeroDiagonal(Eliminated(a, k))
  {
    var m := Eliminated(a, k);
    EliminatedTriangular(a, k);
    forall r | 0 <= r < |a| ensures m[r][r] != 0.0 {
      assert Pivot(a, r) != 0.0;
      RowSettled(a, k, r);
    }
  }

  /** A row below the pivot, after the pass, in terms of the rows before it. */
  lemma PassRowDot(m: Matrix, k: nat, r: nat, x: Vector)
    requires Square(m) && k < r < |m|
    requires PivotRowReduced(m, k)
    ensures Dot(PassRows(m, k, |m|)[r], x) == Dot(m[r], x) - Multiplier(m, r, k) * Dot(m[k], x)
  {
    assert PassRows(m, k, |m|)[r] == Eliminate(m[r], m[k], Multiplier(m, r, k), k);
    EliminateDot(m[r], m[k], Multiplier(m, r, k), k, x);
  }

  /** Eliminating with a pivot row that is zero before column `k` subtracts
      `l` times the whole pivot equation. */
  lemma EliminateDot(row: Vector, pivot: Vector, l: real, k: nat, x: Vector)
    requires |row| == |pivot|
    requires forall j :: 0 <= j < k && j < |pivot| ==> pivot[j] == 0.0
    ensures Dot(Eliminate(row, pivot, l, k), x) == Dot(row, x) - l * Dot(pivot, x)
  {
    var d := Eliminate(row, pivot, l, k);
    forall j | 0 <= j < |d| ensures d[j] == row[j] + (-l) * pivot[j] {
    }
    DotCombine(d, row, pivot, -l, x);
  }

  /** One pass subtracts multiples of the pivot equation, which has nothing
      left of the pivot, from the equations below it; adding them back undoes
      it, so the solutions are exactly those of the system before. */
  lemma PassKeepsSolutions(m: Matrix, c: Vector, k: nat, x: Vector)
    requires Square(m) && |c| == |m| && k < |m|
    requires PivotRowReduced(m, k)
    ensures Apply(PassRows(m, k, |m|), x) == PassRhs(m, c, k, |m|) <==> Apply(m, x) == c
  {
    if Apply(m, x) == c {
      PassForward(m, c, k, x);
    }
    if Apply(PassRows(m, k, |m|), x) == PassRhs(m, c, k, |m|) {
      PassBackward(m, c, k, x);
    }
  }

  /** A solution before the pass solves the system after it. */
  lemma PassForward(m: Matrix, c: Vector, k: nat, x: Vector)
    requires Square(m) && |c| == |m| && k < |m|
    requires PivotRowReduced(m, k)
    requires Apply(m, x) == c
    ensures Apply(PassRows(m, k, |m|), x) == PassRhs(m, c, k, |m|)
  {
    var w, w', c' := Apply(m, x), Apply(PassRows(m, k, |m|), x), PassRhs(m, c, k, |m|);
    forall r | 0 <= r < |m| ensures w'[r] == c'[r] {
      PassApplyEntry(m, k, x, r);
      assert w[r] == c[r] && w[k] == c[k];
    }
  }

  /** A solution after the pass solves the system before it. */
  lemma PassBackward(m: Matrix, c: Vector, k: nat, x: Vector)
    requires Square(m) && |c| == |m| && k < |m|
    requires PivotRowReduced(m, k)
    requires Apply(PassRows(m, k, |m|), x) == PassRhs(m, c, k, |m|)
    ensures Apply(m, x) == c
  {
    var w, w', c' := Apply(m, x), Apply(PassRows(m, k, |m|), x), PassRhs(m, c, k, |m|);
    assert w[k] == c[k] by {
      PassApplyEntry(m, k, x, k);
      assert w'[k] == c'[k];
    }
    forall r | 0 <= r < |m| ensures w[r] == c[r] {
      PassApplyEntry(m, k, x, r);
      assert w'[r] == c'[r];
    }
  }

  /** Row `r` of the system after the pass: equation `r` less a multiple of
      the pivot equation when `r` is below the pivot, unchanged otherwise. */
  lemma PassApplyEntry(m: Matrix, k: nat, x: Vector, r: nat)
    requires Square(m) && k < |m| && r < |m|
    requires PivotRowReduced(m, k)
    ensures Apply(PassRows(m, k, |m|), x)[r]
      == (if k < r then Apply(m, x)[r] - Multiplier(m, r, k) * Apply(m, x)[k] else Apply(m, x)[r])
  {
    var w, w' := Apply(m, x), Apply(PassRows(m, k, |m|), x);
    assert w'[r] == Dot(PassRows(m, k, |m|)[r], x);
    if k < r {
      PassRowDot(m, k, r, x);
      assert w[r] == Dot(m[r], x) && w[k] == Dot(m[k], x);
    } else {
      assert PassRows(m, k, |m|)[r] == m[r];
    }
  }

  /** Pass `k - 1` takes the system after `k - 1` passes to the one after `k`. */
  lemma EliminatedStep(a: Matrix, b: Vector, k: nat)
    requires Square(a) && |b| == |a| && 0 < k <= |a|
    ensures Eliminated(a, k) == PassRows(Eliminated(a, k - 1), k - 1, |a|)
    ensures EliminatedRhs(a, b, k) == PassRhs(Eliminated(a, k - 1), EliminatedRhs(a, b, k - 1), k - 1, |a|)
  {
  }

  /** Equal systems have the same solutions. */
  lemma SameSystem(m: Matrix, c: Vector, m': Matrix, c': Vector, x: Vector)
    requires m == m' && c == c'
    ensures Apply(m, x) == c <==> Apply(m', x) == c'
  {
  }

  /** The eliminated system has exactly the solutions of the original one. */
  lemma EliminationKeepsSolutions(a: Matrix, b: Vector, k: nat, x: Vector)
    requires Square(a) && |b| == |a| && NonZeroPivots(a) && k <= |a|
    ensures Apply(Eliminated(a, k), x) == EliminatedRhs(a, b, k) <==> Apply(a, x) == b
  {
    if Apply(a, x) == b {
      EliminationForward(a, b, k, x);
    }
    if Apply(Eliminated(a, k), x) == EliminatedRhs(a, b, k) {
      EliminationBackward(a, b, k, x);
    }
  }

  lemma {:induction false} EliminationForward(a: Matrix, b: Vector, k: nat, x: Vector)
    requires Square(a) && |b| == |a| && NonZeroPivots(a) && k <= |a|
    requires Apply(a, x) == b
    ensures Apply(Eliminated(a, k), x) == EliminatedRhs(a, b, k)
  {
    if k > 0 {
      EliminationForward(a, b, k - 1, x);
      var m, c := Eliminated(a, k - 1), EliminatedRhs(a, b, k - 1);
      PivotRowClear(a, k - 1);
      PassKeepsSolutions(m, c, k - 1, x);
      EliminatedStep(a, b, k);
      SameSystem(Eliminated(a, k), EliminatedRhs(a, b, k), PassRows(m, k - 1, |m|), PassRhs(m, c, k - 1, |m|), x);
    }
  }

  lemma {:induction false} EliminationBackward(a: Matrix, b: Vector, k: nat, x: Vector)
    requires Square(a) && |b| == |a| && NonZeroPivots(a) && k <= |a|
    requires Apply(Eliminated(a, k), x) == EliminatedRhs(a, b, k)
    ensures Apply(a, x) == b
  {
    if k > 0 {
      var m, c := Eliminated(a, k - 1), EliminatedRhs(a, b, k - 1);
      PivotRowClear(a, k - 1);
      PassKeepsSolutions(m, c, k - 1, x);
      EliminatedStep(a, b, k);
      SameSystem(Eliminated(a, k), EliminatedRhs(a, b, k), PassRows(m, k - 1, |m|), PassRhs(m, c, k - 1, |m|), x);
      EliminationBackward(a, b, k - 1, x);
    }
  }

  /** The pivot row of pass `k` has nothing left of the pivot. */
  lemma PivotRowClear(a: Matrix, k: nat)
    requires Square(a) && NonZeroPivots(a) && k < |a|
    ensures PivotRowReduced(Eliminated(a, k), k)
  {
    EliminatedTriangular(a, k);
  }

  /** An entry below the pivot after the pass: when the pivot row has
      nothing left of the pivot, the whole row is reduced. */
  lemma PassEntry(m: Matrix, k: nat, i: nat, j: nat)
    requires Square(m) && k < i < |m| && j < |m|
    requires PivotRowReduced(m, k)
    ensures PassRows(m, k, |m|)[i][j] == m[i][j] - Multiplier(m, i, k) * m[k][j]
  {
    assert PassRows(m, k, |m|)[i] == Eliminate(m[i], m[k], Multiplier(m, i, k), k);
  }

  /** The `U` half of `Factors` is the elimination of `gauss` carried one pass further. */
  lemma {:induction false} FactorsEliminated(a: Matrix, k: nat)
    requires Square(a) && k <= |a|
    ensures Factors(a, k).1 == Eliminated(a, k)
  {
    if k > 0 {
      FactorsEliminated(a, k - 1);
    }
  }

  /** `L` stays unit lower triangular: `FillColumn` writes only below the diagonal. */
  lemma {:induction false} FactorsLower(a: Matrix, k: nat)
    requires Square(a) && k <= |a|
    ensures UnitLowerTriangular(Factors(a, k).0)
  {
    if k > 0 {
      FactorsLower(a, k - 1);
    }
  }

  /** Pass `k` keeps entry `(i, j)` accounted for: it moves `L[i][k] * U[k][j]`
      out of the working matrix and into the product. */
  lemma AccountsEntry(a: Matrix, l: Matrix, u: Matrix, k: nat, i: nat, j: nat)
    requires Square(a) && IsMatrix(l, |a|, |a|) && Square(u) && |u| == |a|
    requires k < |a| && i < |a| && j < |a|
    requires PivotRowReduced(u, k)
    requires a[i][j] == u[i][j] + Dot(l[i][..Min(i, k)], Column(u, j)[..Min(i, k)])
    ensures a[i][j] == PassRows(u, k, |u|)[i][j]
      + Dot(FillColumn(l, u, k)[i][..Min(i, k + 1)], Column(PassRows(u, k, |u|), j)[..Min(i, k + 1)])
  {
    var l', u' := FillColumn(l, u, k), PassRows(u, k, |u|);
    var col := Column(u, j);
    ColumnPrefixKept(u, k, j);
    FillColumnRow(l, u, k, i);
    if i <= k {
      assert u'[i] == u[i];
    } else {
      PassEntry(u, k, i, j);
      AccountsBelow(a[i][j], u[i][j], u'[i][j], l[i], l'[i], col, k, Multiplier(u, i, k));
    }
  }

  /** The pass leaves rows `0 .. k` alone, so each column keeps its first `k + 1` entries. */
  lemma ColumnPrefixKept(u: Matrix, k: nat, j: nat)
    requires Square(u) && k < |u| && j < |u|
    ensures Column(PassRows(u, k, |u|), j)[..k + 1] == Column(u, j)[..k + 1]
    ensures forall t :: 0 <= t <= k + 1 ==> Column(PassRows(u, k, |u|), j)[..t] == Column(u, j)[..t]
  {
    var col, col' := Column(u, j), Column(PassRows(u, k, |u|), j);
    forall r | 0 <= r <= k ensures col'[r] == col[r] {
      assert PassRows(u, k, |u|)[r] == u[r];
    }
    assert col'[..k + 1] == col[..k + 1];
    forall t | 0 <= t <= k + 1 ensures col'[..t] == col[..t] {
      assert col'[..t] == col'[..k + 1][..t] && col[..t] == col[..k + 1][..t];
    }
  }

  /** Entry `(i, j)` below the pivot: `L[i][k] * U[k][j]` moves from the
      working matrix into the accounted product. */
  lemma AccountsBelow(aij: real, uij: real, uij': real, lrow: Vector, lrow': Vector, col: Vector,
                      k: nat, mu: real)
    requires k < |lrow| && k < |lrow'| && k < |col|
    requires lrow'[..k] == lrow[..k] && lrow'[k] == mu
    requires aij == uij + Dot(lrow[..k], col[..k]) && uij' == uij - mu * col[k]
    ensures aij == uij' + Dot(lrow'[..k + 1], col[..k + 1])
  {
    DotSnoc(lrow', col, k);
  }

  /** Row `i` of `FillColumn`: the old row before column `k`, and the
      multiplier at column `k` when `i` is below the pivot. */
  lemma FillColumnRow(l: Matrix, u: Matrix, k: nat, i: nat)
    requires Square(u) && IsMatrix(l, |u|, |u|) && k < |u| && i < |u|
    ensures FillColumn(l, u, k)[i][..Min(i, k)] == l[i][..Min(i, k)]
    ensures k < i ==> FillColumn(l, u, k)[i][k] == Multiplier(u, i, k)
  {
    var r := FillColumn(l, u, k)[i];
    assert forall q :: 0 <= q < Min(i, k) ==> r[q] == l[i][q];
  }

  /** One pass keeps `a` accounted for. */
  lemma AccountsPass(a: Matrix, l: Matrix, u: Matrix, k: nat)
    requires Square(a) && IsMatrix(l, |a|, |a|) && Square(u) && |u| == |a| && k < |a|
    requires PivotRowReduced(u, k)
    requires Accounts(a, l, u, k)
    ensures Accounts(a, FillColumn(l, u, k), PassRows(u, k, |u|), k + 1)
  {
    forall i, j | 0 <= i < |a| && 0 <= j < |a|
      ensures a[i][j] == PassRows(u, k, |u|)[i][j]
        + Dot(FillColumn(l, u, k)[i][..Min(i, k + 1)], Column(PassRows(u, k, |u|), j)[..Min(i, k + 1)])
    {
      AccountsEntry(a, l, u, k, i, j);
    }
  }

  /** Every pass keeps `a` accounted for. */
  lemma {:induction false} FactorsAccount(a: Matrix, k: nat)
    requires Square(a) && NonZeroPivots(a) && k <= |a|
    ensures Accounts(a, Factors(a, k).0, Factors(a, k).1, k)
  {
    if k == 0 {
      AccountsStart(a);
    } else {
      FactorsAccount(a, k - 1);
      FactorsAccountStep(a, k);
    }
  }

  /** Before any pass, `a` is all in the working matrix. */
  lemma AccountsStart(a: Matrix)
    requires Square(a)
    ensures Accounts(a, IdentityOf(|a|), a, 0)
  {
    forall i, j | 0 <= i < |a| && 0 <= j < |a|
      ensures a[i][j] == a[i][j] + Dot(IdentityOf(|a|)[i][..0], Column(a, j)[..0])
    {
    }
  }

  /** Pass `k - 1` of `Factors` keeps `a` accounted for. */
  lemma FactorsAccountStep(a: Matrix, k: nat)
    requires Square(a) && NonZeroPivots(a) && 0 < k <= |a|
    requires Accounts(a, Factors(a, k - 1).0, Factors(a, k - 1).1, k - 1)
    ensures Accounts(a, Factors(a, k).0, Factors(a, k).1, k)
  {
    var prev := Factors(a, k - 1);
    FactorsPivotRow(a, k - 1);
    AccountsPass(a, prev.0, prev.1, k - 1);
    assert Factors(a, k) == (FillColumn(prev.0, prev.1, k - 1), PassRows(prev.1, k - 1, |a|));
  }

  /** The pivot row of pass `k` of `Factors` has nothing left of the pivot. */
  lemma FactorsPivotRow(a: Matrix, k: nat)
    requires Square(a) && NonZeroPivots(a) && k < |a|
    ensures PivotRowReduced(Factors(a, k).1, k)
  {
    FactorsEliminated(a, k);
    PivotRowClear(a, k);
  }

  /** Once every pass is done, the accounted part and the diagonal of `L`
      make up `L * U`. */
  lemma ProductFromAccounts(a: Matrix, l: Matrix, u: Matrix)
    requires Square(a) && |a| > 0 && UnitLowerTriangular(l) && |l| == |a| && Square(u) && |u| == |a|
    requires Accounts(a, l, u, |a|)
    ensures Product(l, u) == a
  {
    var n := |a|;
    var p := Product(l, u);
    forall i | 0 <= i < n ensures p[i] == a[i] {
      forall j | 0 <= j < n ensures p[i][j] == a[i][j] {
        var col := Column(u, j);
        assert p[i][j] == Dot(l[i], col);
        DotSplit(l[i], col, i);
        DotSingleSuffix(l[i], col, i);
        assert Min(i, n) == i;
      }
    }
  }

  /** The Doolittle factorisation: `L` is unit lower triangular, `U` upper
      triangular with the pivots on its diagonal, and `L * U == a`. */
  lemma LowerUpperProduct(a: Matrix)
    requires Square(a) && |a| > 0 && NonZeroPivots(a)
    ensures UnitLowerTriangular(Lower(a))
    ensures UpperTriangular(Upper(a)) && NonZeroDiagonal(Upper(a))
    ensures Product(Lower(a), Upper(a)) == a
  {
    FactorsLower(a, |a|);
    FactorsEliminated(a, |a|);
    FactorsAccount(a, |a|);
    EliminatedUpper(a, |a|);
    ProductFromAccounts(a, Lower(a), Upper(a));
  }

  /** Row `k` of an upper-triangular matrix starts at its diagonal. */
  lemma RowFromDiagonal(u: Matrix, x: Vector, k: nat)
    requires UpperTriangular(u) && |x| == |u| && k < |u|
    ensures Dot(u[k], x) == Dot(u[k][k..], x[k..])
  {
    DotSplit(u[k], x, k);
    DotZero(u[k][..k], x[..k]);
  }

  /** An upper-triangular system is solved row by row from its diagonal. */
  lemma UpperSolves(u: Matrix, x: Vector, c: Vector)
    requires UpperTriangular(u) && |x| == |u| && |c| == |u|
    requires forall r :: 0 <= r < |u| ==> Dot(u[r][r..], x[r..]) == c[r]
    ensures Apply(u, x) == c
  {
    forall r | 0 <= r < |u| ensures Apply(u, x)[r] == c[r] {
      RowFromDiagonal(u, x, r);
    }
  }

  /** Row `r` of a unit lower-triangular matrix: the known part plus `y[r]`. */
  lemma LowerRow(l: Matrix, y: Vector, r: nat)
    requires UnitLowerTriangular(l) && |y| == |l| && r < |l|
    ensures Dot(l[r], y) == Dot(l[r], y[..r]) + y[r]
  {
    var row := l[r];
    calc {
      Dot(row, y);
    == { DotSplit(row, y, r); }
      Dot(row[..r], y[..r]) + Dot(row[r..], y[r..]);
    == { DotSingleSuffix(row, y, r); }
      Dot(row[..r], y[..r]) + row[r] * y[r];
    == { assert row[r] == 1.0; }
      Dot(row[..r], y[..r]) + y[r];
    == { DotTruncate(row, y[..r]); assert y[..r][..r] == y[..r]; }
      Dot(row, y[..r]) + y[r];
    }
  }

  /** A unit lower-triangular system is solved row by row from the top. */
  lemma LowerSolves(l: Matrix, y: Vector, c: Vector)
    requires UnitLowerTriangular(l) && |y| == |l| && |c| == |l|
    requires forall r :: 0 <= r < |l| ==> y[r] == c[r] - Dot(l[r], y[..r])
    ensures Apply(l, y) == c
  {
    forall r | 0 <= r < |l| ensures Apply(l, y)[r] == c[r] {
      LowerRow(l, y, r);
    }
  }

  /** One back-substitution step: solving row `k` for `x[k]` keeps the rows
      below it solved. */
  lemma BackStep(u: Matrix, c: Vector, before: Vector, k: nat)
    requires Square(u) && |c| == |u| && |before| == |u| && k < |u| && u[k][k] != 0.0
    requires forall r :: k < r < |u| ==> Dot(u[r][r..], before[r..]) == c[r]
    ensures var x := before[k := (c[k] - Dot(u[k][k + 1..], before[k + 1..])) / u[k][k]];
      forall r :: k <= r < |u| ==> Dot(u[r][r..], x[r..]) == c[r]
  {
    var d := Dot(u[k][k + 1..], before[k + 1..]);
    var x := before[k := (c[k] - d) / u[k][k]];
    SuffixesAgree(x, before, k);
    DotSuffixFront(u[k], x, k);
    assert u[k][k] * ((c[k] - d) / u[k][k]) == c[k] - d;
  }

  /** With a non-zero diagonal, an upper-triangular system has one solution. */
  lemma {:induction false} UpperUnique(u: Matrix, x: Vector, y: Vector, c: Vector, k: nat)
    requires UpperTriangular(u) && NonZeroDiagonal(u) && |x| == |u| && |y| == |u|
    requires Apply(u, x) == c && Apply(u, y) == c && k <= |u|
    ensures x[k..] == y[k..]
    decreases |u| - k
  {
    if k < |u| {
      UpperUnique(u, x, y, c, k + 1);
      assert Apply(u, x)[k] == Dot(u[k], x) && Apply(u, y)[k] == Dot(u[k], y);
      UpperRowStep(u, x, y, k);
      assert x[k..] == [x[k]] + x[k + 1..];
      assert y[k..] == [y[k]] + y[k + 1..];
    }
  }

  /** Rows equal from `k + 1` on and the same value in row `k` force `x[k] == y[k]`. */
  lemma UpperRowStep(u: Matrix, x: Vector, y: Vector, k: nat)
    requires UpperTriangular(u) && NonZeroDiagonal(u) && |x| == |u| && |y| == |u| && k < |u|
    requires Dot(u[k], x) == Dot(u[k], y) && x[k + 1..] == y[k + 1..]
    ensures x[k] == y[k]
  {
    RowFromDiagonal(u, x, k);
    RowFromDiagonal(u, y, k);
    assert x[k..][1..] == x[k + 1..] && y[k..][1..] == y[k + 1..];
    FrontCancels(u[k][k..], x[k..], y[k..]);
  }

  /** Equal dot products with a row whose first entry is non-zero, and equal
      tails, force equal first entries. */
  lemma FrontCancels(row: Vector, x: Vector, y: Vector)
    requires |row| > 0 && |x| > 0 && |y| > 0 && row[0] != 0.0
    requires Dot(row, x) == Dot(row, y) && x[1..] == y[1..]
    ensures x[0] == y[0]
  {
    var d := Dot(row[1..], x[1..]);
    calc {
      row[0] * x[0] + d;
    == { DotFront(row, x); }
      Dot(row, x);
    ==
      Dot(row, y);
    == { DotFront(row, y); }
      row[0] * y[0] + Dot(row[1..], y[1..]);
    ==
      row[0] * y[0] + d;
    }
    CancelFactor(row[0], x[0], y[0], d);
  }

  /** A non-zero factor cancels. */
  lemma CancelFactor(p: real, s: real, t: real, d: real)
    requires p != 0.0 && p * s + d == p * t + d
    ensures s == t
  {
    assert s == (p * s) / p && t == (p * t) / p;
  }

  /** A system with non-zero pivots has exactly one solution. */
  lemma SolutionUnique(a: Matrix, b: Vector, x: Vector, y: Vector)
    requires SquareSystem(a, b) && NonZeroPivots(a)
    requires |x| == |a| && |y| == |a| && Apply(a, x) == b && Apply(a, y) == b
    ensures x == y
  {
    var n := |a|;
    EliminatedUpper(a, n);
    EliminationKeepsSolutions(a, b, n, x);
    EliminationKeepsSolutions(a, b, n, y);
    UpperUnique(Upper(a), x, y, EliminatedRhs(a, b, n), 0);
  }

  /** A solution of the eliminated system of `gauss` is the one solution of `a x = b`. */
  lemma GaussCorrect(a: Matrix, b: Vector, x: Vector)
    requires SquareSystem(a, b) && NonZeroPivots(a) && |x| == |a|
    requires Apply(Eliminated(a, |a| - 1), x) == EliminatedRhs(a, b, |a| - 1)
    ensures Apply(a, x) == b
  {
    EliminationKeepsSolutions(a, b, |a| - 1, x);
  }

  /** A pass that has reached no row yet changes nothing. */
  lemma PassStart(m0: Matrix, c0: Vector, k: nat)
    requires Square(m0) && |c0| == |m0| && k < |m0|
    ensures PassRows(m0, k, k + 1) == m0 && PassRhs(m0, c0, k, k + 1) == c0
  {
    var p, e := PassRows(m0, k, k + 1), PassRhs(m0, c0, k, k + 1);
    forall r | 0 <= r < |m0| ensures p[r] == m0[r] && e[r] == c0[r] {
    }
  }

  /** Row `i` and the pivot row are as they were before the pass reached row `i`. */
  lemma PassRowsUnchanged(m0: Matrix, c0: Vector, k: nat, i: nat)
    requires Square(m0) && |c0| == |m0| && k < i < |m0|
    ensures PassRows(m0, k, i)[k] == m0[k] && PassRows(m0, k, i)[i] == m0[i]
    ensures PassRhs(m0, c0, k, i)[k] == c0[k] && PassRhs(m0, c0, k, i)[i] == c0[i]
  {
  }

  /** The body of the row loop of `gauss`, Phase 1. */
  lemma GaussRowStep(m0: Matrix, c0: Vector, k: nat, i: nat, m: Matrix, c: Vector, l: real, row: Vector)
    requires Square(m0) && |c0| == |m0| && k < i < |m0| && m0[k][k] != 0.0
    requires m == PassRows(m0, k, i) && c == PassRhs(m0, c0, k, i)
    requires l == m0[i][k] / m0[k][k] && row == Eliminate(m0[i], m0[k], l, k)
    ensures m[i := row] == PassRows(m0, k, i + 1)
    ensures c[i := c[i] - l * c[k]] == PassRhs(m0, c0, k, i + 1)
  {
    assert l == Multiplier(m0, i, k);
    PassRowsUnchanged(m0, c0, k, i);
    PassExtend(m0, c0, k, i, row);
    assert c[i] - l * c[k] == c0[i] - Multiplier(m0, i, k) * c0[k];
  }

  /** Extending a pass by one more row. */
  lemma PassExtend(m0: Matrix, c0: Vector, k: nat, i: nat, row: Vector)
    requires Square(m0) && |c0| == |m0| && k < i < |m0|
    requires row == Eliminate(m0[i], m0[k], Multiplier(m0, i, k), k)
    ensures PassRows(m0, k, i)[i := row] == PassRows(m0, k, i + 1)
    ensures PassRhs(m0, c0, k, i)[i := c0[i] - Multiplier(m0, i, k) * c0[k]] == PassRhs(m0, c0, k, i + 1)
  {
    var p, q := PassRows(m0, k, i), PassRows(m0, k, i + 1);
    forall r | 0 <= r < |m0| ensures p[i := row][r] == q[r] {
    }
    var e, f := PassRhs(m0, c0, k, i), PassRhs(m0, c0, k, i + 1);
    forall r | 0 <= r < |m0| ensures e[i := c0[i] - Multiplier(m0, i, k) * c0[k]][r] == f[r] {
    }
  }

  // ---------------------------------------------------------------------
  // The methods
  // ---------------------------------------------------------------------

  /** The innermost loop of both eliminations (`for j in range(k, n)`). */
  method SubtractPivotRow(row: Vector, pivot: Vector, l: real, k: nat) returns (r: Vector)
    requires |row| == |pivot| && k <= |row|
    ensures r == Eliminate(row, pivot, l, k)
  {
    r := row;
    for j := k to |row|
      invariant |r| == |row|
      invariant forall q :: 0 <= q < |row| ==>
        r[q] == if k <= q < j then row[q] - l * pivot[q] else row[q]
    {
      r := r[j := r[j] - l * pivot[j]];
    }
    assert forall q :: 0 <= q < |row| ==> r[q] == Eliminate(row, pivot, l, k)[q];
  }

  /** One pass of Phase 1 of `gauss`: the rows below pivot `k`, in order. */
  method GaussPass(m0: Matrix, c0: Vector, k: nat) returns (m: Matrix, c: Vector)
    requires Square(m0) && |c0| == |m0| && k < |m0| && m0[k][k] != 0.0
    ensures m == PassRows(m0, k, |m0|) && c == PassRhs(m0, c0, k, |m0|)
  {
    m, c := m0, c0;
    PassStart(m0, c0, k);
    for i := k + 1 to |m0|
      invariant m == PassRows(m0, k, i) && c == PassRhs(m0, c0, k, i)
    {
      PassRowsUnchanged(m0, c0, k, i);
      var l := m[i][k] / m[k][k];
      var row := SubtractPivotRow(m[i], m[k], l, k);
      GaussRowStep(m0, c0, k, i, m, c, l, row);
      m := m[i := row];
      c := c[i := c[i] - l * c[k]];
    }
  }

  /** Phase 1 of `gauss`: passes `0 .. n - 2` on copies of `A` and `b`. The
      result is upper triangular with a non-zero diagonal. */
  method GaussElimination(a: Matrix, b: Vector) returns (m: Matrix, c: Vector)
    requires SquareSystem(a, b) && NonZeroPivots(a)
    ensures m == Eliminated(a, |a| - 1) && c == EliminatedRhs(a, b, |a| - 1)
    ensures UpperTriangular(m) && NonZeroDiagonal(m) && |c| == |a|
  {
    m := Clone(a);
    c := b;
    for k := 0 to |a| - 1
      invariant m == Eliminated(a, k) && c == EliminatedRhs(a, b, k)
    {
      assert Pivot(a, k) != 0.0;
      m, c := GaussPass(m, c, k);
    }
    EliminatedUpper(a, |a| - 1);
  }

  /** The inner loop of Phase 2 of `gauss`: `x[k]` less the terms of the
      unknowns after it (`for i in range(k + 1, n)`). */
  method SubtractKnownTerms(row: Vector, x0: Vector, k: nat) returns (x: Vector)
    requires k < |row| == |x0|
    ensures x == x0[k := x0[k] - Dot(row[k + 1..], x0[k + 1..])]
  {
    x := x0;
    for i := k + 1 to |row|
      invariant |x| == |x0|
      invariant forall r :: 0 <= r < |x0| && r != k ==> x[r] == x0[r]
      invariant x[k] == x0[k] - Dot(row[k + 1..i], x0[k + 1..i])
    {
      DotSliceSnoc(row, x0, k + 1, i);
      x := x[k := x[k] - row[i] * x[i]];
    }
    assert row[k + 1..|row|] == row[k + 1..] && x0[k + 1..|x0|] == x0[k + 1..];
  }

  /** Phase 2 of `gauss`: `x[k]` accumulates `b[k]` less the known terms,
      then is divided by the pivot, from the last row up. */
  method GaussBackSubstitution(u: Matrix, c: Vector) returns (x: Vector)
    requires UpperTriangular(u) && NonZeroDiagonal(u) && |c| == |u|
    ensures |x| == |u| && Apply(u, x) == c
  {
    var n := |u|;
    x := Create(n, 0.0);
    var k := n;
    while k > 0
      invariant 0 <= k <= n && |x| == n
      invariant forall r :: k <= r < n ==> Dot(u[r][r..], x[r..]) == c[r]
    {
      k := k - 1;
      ghost var before := x;
      x := x[k := c[k]];
      assert x[k + 1..] == before[k + 1..];
      x := SubtractKnownTerms(u[k], x, k);
      x := x[k := x[k] / u[k][k]];
      BackStep(u, c, before, k);
      assert x == before[k := (c[k] - Dot(u[k][k + 1..], before[k + 1..])) / u[k][k]];
    }
    UpperSolves(u, x, c);
  }

  /** Phase 3 of both solvers: the largest entry of `A x - b`. */
  method MaxResidual(a: Matrix, x: Vector, b: Vector) returns (e: real)
    requires |a| > 0 && |b| > 0 && |x| > 0
    requires forall i :: 0 <= i < |a| ==> |x| <= |a[i]|
    ensures e == NormInf(Sub(Apply(a, x), b))
    ensures 0.0 <= e
    ensures Apply(a, x) == b ==> e == 0.0
  {
    var product := MultiplyVector(a, x);
    var err := Sub(product, b);
    e := NormInf(err);
    NormInfZero(err);
  }

  /** `gauss`: the one solution of `a x = b`. With exact arithmetic the
      residual is zero, so the reported convergence is `0 <= tol`. */
  method Gauss(a: Matrix, b: Vector, tol: real) returns (x: Vector, converged: bool)
    requires SquareSystem(a, b) && NonZeroPivots(a)
    ensures |x| == |a| && Apply(a, x) == b
    ensures forall y :: |y| == |a| && Apply(a, y) == b ==> y == x
    ensures converged == (0.0 <= tol)
  {
    var m, c := GaussElimination(a, b);
    x := GaussBackSubstitution(m, c);
    GaussCorrect(a, b, x);
    var errMax := MaxResidual(a, x, b);
    converged := errMax <= tol;
    forall y | |y| == |a| && Apply(a, y) == b ensures y == x {
      SolutionUnique(a, b, x, y);
    }
  }

  /** One pass of Phase 1 of `decomposicao_lu`: record each multiplier in
      `L` and reduce the row of `U`. */
  method FactorPass(l0: Matrix, u0: Matrix, k: nat) returns (l: Matrix, u: Matrix)
    requires Square(u0) && IsMatrix(l0, |u0|, |u0|) && k < |u0| && u0[k][k] != 0.0
    ensures l == FillColumn(l0, u0, k) && u == PassRows(u0, k, |u0|)
  {
    var n := |u0|;
    l, u := l0, u0;
    PassStart(u0, Create(n, 0.0), k);
    for i := k + 1 to n
      invariant u == PassRows(u0, k, i) && IsMatrix(l, n, n)
      invariant forall p, q :: 0 <= p < n && 0 <= q < n ==>
        l[p][q] == if q == k && k < p < i then Multiplier(u0, p, k) else l0[p][q]
    {
      PassRowsUnchanged(u0, Create(n, 0.0), k, i);
      var lik := u[i][k] / u[k][k];
      assert lik == Multiplier(u0, i, k);
      l := l[i := l[i][k := lik]];
      var row := SubtractPivotRow(u[i], u[k], lik, k);
      PassExtend(u0, Create(n, 0.0), k, i, row);
      u := u[i := row];
    }
    assert forall p :: 0 <= p < n ==> l[p] == FillColumn(l0, u0, k)[p];
  }

  /** Phase 1 of `decomposicao_lu`: `L` starts as the identity and receives
      the multipliers, `U` starts as a copy of `A` and is eliminated. */
  method Factor(a: Matrix) returns (l: Matrix, u: Matrix)
    requires Square(a) && |a| > 0 && NonZeroPivots(a)
    ensures l == Lower(a) && u == Upper(a)
    ensures UnitLowerTriangular(l) && UpperTriangular(u) && NonZeroDiagonal(u)
    ensures Product(l, u) == a
  {
    var n := |a|;
    l := DiagonalMain(n, 1.0);
    assert l == IdentityOf(n) by {
      assert forall p :: 0 <= p < n ==> l[p] == IdentityOf(n)[p];
    }
    u := Clone(a);
    for k := 0 to n
      invariant (l, u) == Factors(a, k)
    {
      FactorsEliminated(a, k);
      assert Pivot(a, k) != 0.0;
      l, u := FactorPass(l, u, k);
    }
    FactorsEliminated(a, n);
    LowerUpperProduct(a);
  }

  /** Forward substitution `L y = b`, using the entries of `y` found so far. */
  method SolveLower(l: Matrix, c: Vector) returns (y: Vector)
    requires UnitLowerTriangular(l) && |c| == |l|
    ensures |y| == |l| && Apply(l, y) == c
  {
    var n := |l|;
    y := Create(n, 0.0);
    for i := 0 to n
      invariant |y| == n
      invariant forall r :: 0 <= r < i ==> y[r] == c[r] - Dot(l[r], y[..r])
    {
      ghost var before := y;
      var s := Dot(l[i], y[..i]);
      y := y[i := c[i] - s];
      PrefixesAgree(y, before, i);
    }
    LowerSolves(l, y, c);
  }

  /** Backward substitution `U x = y`, from the last row up. */
  method SolveUpper(u: Matrix, y: Vector) returns (x: Vector)
    requires UpperTriangular(u) && NonZeroDiagonal(u) && |y| == |u|
    ensures |x| == |u| && Apply(u, x) == y
  {
    var n := |u|;
    x := Create(n, 0.0);
    var i := n;
    while i > 0
      invariant 0 <= i <= n && |x| == n
      invariant forall r :: i <= r < n ==> Dot(u[r][r..], x[r..]) == y[r]
    {
      i := i - 1;
      BackStep(u, y, x, i);
      var s := Dot(u[i][i + 1..], x[i + 1..]);
      x := x[i := (y[i] - s) / u[i][i]];
    }
    UpperSolves(u, x, y);
  }

  /** `decomposicao_lu`: factor, then solve `L y = b` and `U x = y`. The
      residual is zero, so the reported convergence is `0 < tol`. */
  method DecompositionLU(a: Matrix, b: Vector, tol: real) returns (x: Vector, converged: bool)
    requires SquareSystem(a, b) && NonZeroPivots(a)
    ensures |x| == |a| && Apply(a, x) == b
    ensures forall y :: |y| == |a| && Apply(a, y) == b ==> y == x
    ensures converged == (0.0 < tol)
  {
    var l, u := Factor(a);
    var y := SolveLower(l, b);
    x := SolveUpper(u, y);
    ApplyProduct(l, u, x);
    var errMax := MaxResidual(a, x, b);
    converged := errMax < tol;
    forall z | |z| == |a| && Apply(a, z) == b ensures z == x {
      SolutionUnique(a, b, x, z);
    }
  }
}
