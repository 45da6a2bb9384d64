/** The iterative solvers of `SolversLineares` (utils/solver.py): Jacobi,
    whose sweep reads only the previous iterate, and Gauss-Seidel, whose sweep
    overwrites the iterate in place. Both start from zeros and stop once a
    sweep moves every component by less than `tol`, or after `lim_iter`
    sweeps. A sweep is specified by a function, the stopping loop by a
    recursive function over the loop state, and the methods are proved equal
    to them. */
module IterativeSolvers {
  import opened Vectors
  import opened Matrices

  /** The loop state the source reports: the iterate, the sweeps done and
      whether the last sweep converged. */
  datatype Report = Report(x: Vector, iterations: nat, converged: bool)

  /** What a sweep over `n` unknowns indexes and divides by: rows `0 .. n - 1`,
      each with a non-zero diagonal entry. */
  predicate Ready(a: Matrix, n: nat)
  {
    |a| >= n && forall i :: 0 <= i < n ==> i < |a[i]| && a[i][i] != 0.0
  }

  /** Every component moved by less than `tol` (`all(abs(...) < tol)`). */
  predicate Close(x': Vector, x: Vector, tol: real)
  {
    |x'| == |x| && forall i :: 0 <= i < |x| ==> Abs(x'[i] - x[i]) < tol
  }

  /** Row `i` of `a x = b`, with every entry of `x` known, holds. */
  predicate SolvesRows(a: Matrix, b: Vector, x: Vector)
    requires |a| >= |b|
  {
    forall i :: 0 <= i < |b| ==> Dot(a[i], x) == b[i]
  }

  // ---------------------------------------------------------------------
  // Jacobi
  // ---------------------------------------------------------------------

  /** Row `i` solved for `x[i]`, the other unknowns taken from `x`. */
  function JacobiEntry(a: Matrix, b: Vector, x: Vector, i: nat): real
    requires Ready(a, |b|) && |x| == |b| && i < |b|
  {
    (b[i] - (Dot(a[i], x) - a[i][i] * x[i])) / a[i][i]
  }

  /** One Jacobi sweep: every entry from the previous iterate alone. */
  function JacobiSweep(a: Matrix, b: Vector, x: Vector): (r: Vector)
    requires Ready(a, |b|) && |x| == |b|
    ensures |r| == |b|
  {
    seq(|b|, i requires 0 <= i < |b| => JacobiEntry(a, b, x, i))
  }

  /** The `while not convergencia and iteracoes < lim_iter` loop of `jacobi`. */
  function JacobiLoop(a: Matrix, b: Vector, tol: real, limIter: int, s: Report): Report
    requires limIter > 0 ==> Ready(a, |b|)
    requires |s.x| == |b|
    decreases limIter - s.iterations
  {
    if s.converged || s.iterations >= limIter then s
    else JacobiLoop(a, b, tol, limIter, JacobiNext(a, b, tol, s))
  }

  /** One pass of the loop body of `jacobi`: sweep, test, count. */
  function JacobiNext(a: Matrix, b: Vector, tol: real, s: Report): (r: Report)
    requires Ready(a, |b|) && |s.x| == |b|
    ensures |r.x| == |b| && r.iterations == s.iterations + 1
  {
    var x' := JacobiSweep(a, b, s.x);
    Report(x', s.iterations + 1, Close(x', s.x, tol))
  }

  /** `jacobi` from the zero vector. */
  function JacobiRun(a: Matrix, b: Vector, tol: real, limIter: int): Report
    requires limIter > 0 ==> Ready(a, |b|)
  {
    JacobiLoop(a, b, tol, limIter, Report(Create(|b|, 0.0), 0, false))
  }

  /** The part of row `i` off the diagonal, as `jacobi` computes it (the whole
      dot product less the diagonal term), is what `gauss_seidel` computes
      (the dot products left and right of the diagonal). */
  lemma JacobiOffDiagonal(row: Vector, x: Vector, i: nat)
    requires i < |row| && i < |x|
    ensures Dot(row, x) - row[i] * x[i] == Dot(row[..i], x[..i]) + Dot(row[i + 1..], x[i + 1..])
  {
    DotSplit(row, x, i);
    DotSuffixFront(row, x, i);
  }

  /** Row `i` solved for `x[i]` gives back `x[i]` exactly when row `i` holds. */
  lemma RowFixedPoint(a: Matrix, b: Vector, x: Vector, i: nat)
    requires Ready(a, |b|) && |x| == |b| && i < |b|
    ensures JacobiEntry(a, b, x, i) == x[i] <==> Dot(a[i], x) == b[i]
  {
    var p := a[i][i];
    assert p != 0.0;
    var q := b[i] - (Dot(a[i], x) - a[i][i] * x[i]);
    assert JacobiEntry(a, b, x, i) == q / a[i][i];
    assert q / p == x[i] <==> q == p * x[i];
  }

  /** The fixed points of a Jacobi sweep are exactly the solutions. */
  lemma JacobiFixedPoint(a: Matrix, b: Vector, x: Vector)
    requires Ready(a, |b|) && |x| == |b|
    ensures JacobiSweep(a, b, x) == x <==> SolvesRows(a, b, x)
  {
    forall i | 0 <= i < |b|
      ensures JacobiEntry(a, b, x, i) == x[i] <==> Dot(a[i], x) == b[i]
    {
      RowFixedPoint(a, b, x, i);
    }
    if JacobiSweep(a, b, x) == x {
      forall i | 0 <= i < |b| ensures Dot(a[i], x) == b[i] {
        assert JacobiSweep(a, b, x)[i] == x[i];
      }
    }
  }

  /** What the loop reports, from a state that has not converged yet: at most
      `lim_iter` sweeps, the cap reached unless a sweep converged, and a
      converged report ends on a sweep that moved every component by less
      than `tol`. */
  lemma {:induction false} JacobiLoopReport(a: Matrix, b: Vector, tol: real, limIter: int, s: Report)
    requires limIter > 0 ==> Ready(a, |b|)
    requires |s.x| == |b| && !s.converged && s.iterations <= Count(limIter)
    ensures var r := JacobiLoop(a, b, tol, limIter, s);
      |r.x| == |b| && s.iterations <= r.iterations <= Count(limIter) &&
      (r.converged || r.iterations == Count(limIter)) &&
      (s.iterations < limIter ==> s.iterations < r.iterations) &&
      (r.converged ==> exists prev :: |prev| == |b| && r.x == JacobiSweep(a, b, prev) && Close(r.x, prev, tol))
    decreases limIter - s.iterations
  {
    if s.iterations < limIter {
      var s' := JacobiNext(a, b, tol, s);
      if !s'.converged {
        JacobiLoopReport(a, b, tol, limIter, s');
      } else {
        assert JacobiLoop(a, b, tol, limIter, s') == s';
        assert s'.x == JacobiSweep(a, b, s.x) && Close(s'.x, s.x, tol);
      }
    }
  }

  /** `jacobi` runs at most `lim_iter` sweeps (at least one when `lim_iter`
      is positive), stops early only on convergence, and reports convergence
      only for a final sweep that moved every component by less than `tol`. */
  lemma JacobiRunReport(a: Matrix, b: Vector, tol: real, limIter: int)
    requires limIter > 0 ==> Ready(a, |b|)
    ensures var r := JacobiRun(a, b, tol, limIter);
      |r.x| == |b| && r.iterations <= Count(limIter) &&
      (r.iterations == 0 <==> limIter <= 0) &&
      (r.converged || r.iterations == Count(limIter)) &&
      (r.converged ==> exists prev :: |prev| == |b| && r.x == JacobiSweep(a, b, prev) && Close(r.x, prev, tol))
  {
    JacobiLoopReport(a, b, tol, limIter, Report(Create(|b|, 0.0), 0, false));
  }

  /** The `for i in range(n)` sweep of `jacobi` into `x_novo`, and the
      convergence test that follows it. */
  method JacobiStep(a: Matrix, b: Vector, x: Vector, tol: real) returns (xNew: Vector, close: bool)
    requires Ready(a, |b|) && |x| == |b|
    ensures xNew == JacobiSweep(a, b, x) && close == Close(xNew, x, tol)
  {
    var n := |b|;
    xNew := x;
    for i := 0 to n
      invariant |xNew| == n
      invariant forall t :: 0 <= t < i ==> xNew[t] == JacobiEntry(a, b, x, t)
    {
      var s := Dot(a[i], x) - a[i][i] * x[i];
      xNew := xNew[i := (b[i] - s) / a[i][i]];
    }
    close := forall i | 0 <= i < n :: Abs(xNew[i] - x[i]) < tol;
  }

  /** `Solvers.jacobi`: the iterate, the sweep count and the convergence flag
      it prints. */
  method Jacobi(a: Matrix, b: Vector, tol: real, limIter: int)
    returns (x: Vector, iterations: nat, converged: bool)
    requires limIter > 0 ==> Ready(a, |b|)
    ensures Report(x, iterations, converged) == JacobiRun(a, b, tol, limIter)
  {
    x := Create(|b|, 0.0);
    iterations := 0;
    converged := false;
    while !converged && iterations < limIter
      invariant |x| == |b|
      invariant JacobiLoop(a, b, tol, limIter, Report(x, iterations, converged)) == JacobiRun(a, b, tol, limIter)
      decreases limIter - iterations
    {
      var xNew, close := JacobiStep(a, b, x, tol);
      converged := close;
      x := xNew;
      iterations := iterations + 1;
    }
  }

  // ---------------------------------------------------------------------
  // Gauss-Seidel
  // ---------------------------------------------------------------------

  /** Row `i` solved for `x[i]` from the entries left and right of it. */
  function SeidelValue(a: Matrix, b: Vector, x: Vector, i: nat): real
    requires Ready(a, |b|) && |x| == |b| && i < |b|
  {
    (b[i] - (Dot(a[i][..i], x[..i]) + Dot(a[i][i + 1..], x[i + 1..]))) / a[i][i]
  }

  /** The iterate once entries `0 .. i - 1` of the sweep are written in place. */
  function SeidelPartial(a: Matrix, b: Vector, x: Vector, i: nat): (y: Vector)
    requires Ready(a, |b|) && |x| == |b| && i <= |b|
    ensures |y| == |b|
  {
    if i == 0 then x
    else
      var y := SeidelPartial(a, b, x, i - 1);
      y[i - 1 := SeidelValue(a, b, y, i - 1)]
  }

  /** One Gauss-Seidel sweep. */
  function SeidelSweep(a: Matrix, b: Vector, x: Vector): (r: Vector)
    requires Ready(a, |b|) && |x| == |b|
    ensures |r| == |b|
  {
    SeidelPartial(a, b, x, |b|)
  }

  /** The `while not convergencia and iteracoes < lim_iter` loop of `gauss_seidel`. */
  function SeidelLoop(a: Matrix, b: Vector, tol: real, limIter: int, s: Report): Report
    requires limIter > 0 ==> Ready(a, |b|)
    requires |s.x| == |b|
    decreases limIter - s.iterations
  {
    if s.converged || s.iterations >= limIter then s
    else SeidelLoop(a, b, tol, limIter, SeidelNext(a, b, tol, s))
  }

  /** One pass of the loop body of `gauss_seidel`: sweep, test, count. */
  function SeidelNext(a: Matrix, b: Vector, tol: real, s: Report): (r: Report)
    requires Ready(a, |b|) && |s.x| == |b|
    ensures |r.x| == |b| && r.iterations == s.iterations + 1
  {
    var x' := SeidelSweep(a, b, s.x);
    Report(x', s.iterations + 1, Close(x', s.x, tol))
  }

  /** `gauss_seidel` from the zero vector. */
  function SeidelRun(a: Matrix, b: Vector, tol: real, limIter: int): Report
    requires limIter > 0 ==> Ready(a, |b|)
  {
    SeidelLoop(a, b, tol, limIter, Report(Create(|b|, 0.0), 0, false))
  }

  /** Entries the sweep has not reached yet still hold the old iterate. */
  lemma {:induction false} SeidelPartialAhead(a: Matrix, b: Vector, x: Vector, i: nat)
    requires Ready(a, |b|) && |x| == |b| && i <= |b|
    ensures forall t :: i <= t < |b| ==> SeidelPartial(a, b, x, i)[t] == x[t]
  {
    if i > 0 {
      SeidelPartialAhead(a, b, x, i - 1);
    }
  }

  /** Entries the sweep has passed keep the value written then. */
  lemma {:induction false} SeidelPartialBehind(a: Matrix, b: Vector, x: Vector, i: nat, k: nat)
    requires Ready(a, |b|) && |x| == |b| && i <= k <= |b|
    ensures forall t :: 0 <= t < i ==> SeidelPartial(a, b, x, k)[t] == SeidelPartial(a, b, x, i)[t]
    decreases k
  {
    if i < k {
      SeidelPartialBehind(a, b, x, i, k - 1);
    }
  }

  /** Entry `i` of a sweep is computed from the entries already updated
      (`x[:i]`) and the old ones after it (`x[i+1:]`). */
  lemma SeidelReads(a: Matrix, b: Vector, x: Vector, i: nat)
    requires Ready(a, |b|) && |x| == |b| && i < |b|
    ensures SeidelSweep(a, b, x)[i] == SeidelValue(a, b, SeidelSweep(a, b, x)[..i] + x[i..], i)
  {
    var r := SeidelSweep(a, b, x);
    var p := SeidelPartial(a, b, x, i);
    SeidelPartialAhead(a, b, x, i);
    SeidelPartialBehind(a, b, x, i, |b|);
    SeidelPartialBehind(a, b, x, i + 1, |b|);
    assert p == r[..i] + x[i..];
  }

  /** The value written in row `i` does not read entry `i`, and it matches
      what `jacobi` writes for the same neighbours. */
  lemma SeidelMatchesJacobi(a: Matrix, b: Vector, y: Vector, i: nat)
    requires Ready(a, |b|) && |y| == |b| && i < |b|
    ensures SeidelValue(a, b, y, i) == JacobiEntry(a, b, y, i)
  {
    JacobiOffDiagonal(a[i], y, i);
    var p := b[i] - (Dot(a[i], y) - a[i][i] * y[i]);
    var q := b[i] - (Dot(a[i][..i], y[..i]) + Dot(a[i][i + 1..], y[i + 1..]));
    assert p == q;
    assert JacobiEntry(a, b, y, i) == p / a[i][i];
    assert SeidelValue(a, b, y, i) == q / a[i][i];
  }

  /** Entries 0 .. i - 1 of a sweep from a solution change nothing. */
  lemma {:induction false} SeidelPartialFixed(a: Matrix, b: Vector, x: Vector, i: nat)
    requires Ready(a, |b|) && |x| == |b| && i <= |b| && SolvesRows(a, b, x)
    ensures SeidelPartial(a, b, x, i) == x
  {
    if i > 0 {
      SeidelPartialFixed(a, b, x, i - 1);
      SeidelMatchesJacobi(a, b, x, i - 1);
      RowFixedPoint(a, b, x, i - 1);
    }
  }

  /** If a sweep leaves `x` unchanged then so did every partial sweep. */
  lemma {:induction false} SeidelPartialStill(a: Matrix, b: Vector, x: Vector, i: nat)
    requires Ready(a, |b|) && |x| == |b| && i <= |b| && SeidelSweep(a, b, x) == x
    ensures SeidelPartial(a, b, x, i) == x
  {
    if i > 0 {
      SeidelPartialStill(a, b, x, i - 1);
      SeidelPartialBehind(a, b, x, i, |b|);
      assert SeidelPartial(a, b, x, i)[i - 1] == x[i - 1];
    }
  }

  /** The fixed points of a Gauss-Seidel sweep are exactly the solutions. */
  lemma SeidelFixedPoint(a: Matrix, b: Vector, x: Vector)
    requires Ready(a, |b|) && |x| == |b|
    ensures SeidelSweep(a, b, x) == x <==> SolvesRows(a, b, x)
  {
    if SolvesRows(a, b, x) {
      SeidelPartialFixed(a, b, x, |b|);
    }
    if SeidelSweep(a, b, x) == x {
      forall i | 0 <= i < |b| ensures Dot(a[i], x) == b[i] {
        SeidelPartialStill(a, b, x, i);
        SeidelPartialStill(a, b, x, i + 1);
        assert SeidelValue(a, b, x, i) == x[i];
        SeidelMatchesJacobi(a, b, x, i);
        RowFixedPoint(a, b, x, i);
      }
    }
  }

  /** A sweep reads only the first `n` rows of the matrix: a matrix with
      extra rows gives the same sweep. */
  lemma {:induction false} SeidelLeadingRows(a: Matrix, a': Matrix, b: Vector, x: Vector, i: nat)
    requires Ready(a, |b|) && Ready(a', |b|) && |x| == |b| && i <= |b|
    requires forall r :: 0 <= r < |b| ==> a'[r] == a[r]
    ensures SeidelPartial(a, b, x, i) == SeidelPartial(a', b, x, i)
  {
    if i > 0 {
      SeidelLeadingRows(a, a', b, x, i - 1);
    }
  }

  /** What the loop reports, from a state that has not converged yet. */
  lemma {:induction false} SeidelLoopReport(a: Matrix, b: Vector, tol: real, limIter: int, s: Report)
    requires limIter > 0 ==> Ready(a, |b|)
    requires |s.x| == |b| && !s.converged && s.iterations <= Count(limIter)
    ensures var r := SeidelLoop(a, b, tol, limIter, s);
      |r.x| == |b| && s.iterations <= r.iterations <= Count(limIter) &&
      (r.converged || r.iterations == Count(limIter)) &&
      (s.iterations < limIter ==> s.iterations < r.iterations) &&
      (r.converged ==> exists prev :: |prev| == |b| && r.x == SeidelSweep(a, b, prev) && Close(r.x, prev, tol))
    decreases limIter - s.iterations
  {
    if s.iterations < limIter {
      var s' := SeidelNext(a, b, tol, s);
      if !s'.converged {
        SeidelLoopReport(a, b, tol, limIter, s');
      } else {
        assert SeidelLoop(a, b, tol, limIter, s') == s';
        assert s'.x == SeidelSweep(a, b, s.x) && Close(s'.x, s.x, tol);
      }
    }
  }

  /** `gauss_seidel` runs at most `lim_iter` sweeps (at least one when
      `lim_iter` is positive), stops early only on convergence, and reports
      convergence only for a final sweep that moved every component by less
      than `tol`. */
  lemma SeidelRunReport(a: Matrix, b: Vector, tol: real, limIter: int)
    requires limIter > 0 ==> Ready(a, |b|)
    ensures var r := SeidelRun(a, b, tol, limIter);
      |r.x| == |b| && r.iterations <= Count(limIter) &&
      (r.iterations == 0 <==> limIter <= 0) &&
      (r.converged || r.iterations == Count(limIter)) &&
      (r.converged ==> exists prev :: |prev| == |b| && r.x == SeidelSweep(a, b, prev) && Close(r.x, prev, tol))
  {
    SeidelLoopReport(a, b, tol, limIter, Report(Create(|b|, 0.0), 0, false));
  }

  /** The `for i in range(n)` sweep of `gauss_seidel`: each new entry is
      compared with the old one and then written over it. */
  method SeidelStep(a: Matrix, b: Vector, x0: Vector, tol: real) returns (x: Vector, close: bool)
    requires Ready(a, |b|) && |x0| == |b|
    ensures x == SeidelSweep(a, b, x0) && close == Close(x, x0, tol)
  {
    x := x0;
    close := true;
    for i := 0 to |b|
      invariant x == SeidelPartial(a, b, x0, i)
      invariant close == forall t :: 0 <= t < i ==> Abs(x[t] - x0[t]) < tol
    {
      SeidelPartialAhead(a, b, x0, i);
      var s := Dot(a[i][..i], x[..i]) + Dot(a[i][i + 1..], x[i + 1..]);
      var xNew := (b[i] - s) / a[i][i];
      if Abs(xNew - x[i]) >= tol {
        close := false;
      }
      x := x[i := xNew];
    }
  }

  /** `Solvers.gauss_seidel`: the iterate, the sweep count and the
      convergence flag it prints. */
  method GaussSeidel(a: Matrix, b: Vector, tol: real, limIter: int)
    returns (x: Vector, iterations: nat, converged: bool)
    requires limIter > 0 ==> Ready(a, |b|)
    ensures Report(x, iterations, converged) == SeidelRun(a, b, tol, limIter)
  {
    x := Create(|b|, 0.0);
    iterations := 0;
    converged := false;
    while !converged && iterations < limIter
      invariant |x| == |b|
      invariant SeidelLoop(a, b, tol, limIter, Report(x, iterations, converged)) == SeidelRun(a, b, tol, limIter)
      decreases limIter - iterations
    {
      var xNew, close := SeidelStep(a, b, x, tol);
      converged := close;
      x := xNew;
      iterations := iterations + 1;
    }
  }
}
