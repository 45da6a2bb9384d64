/** The scalar root-finders of `SolversNaoLineares` (utils/solver.py) and the
    centred finite difference of `Derivada` (utils/algebra.py). The function
    whose root is sought is an arbitrary `real -> real` value. Each method
    keeps the source's loop and is proved equal to a recursive function over
    the loop state; the lemmas then state what the outcomes mean. */
module RootFinders {
  import opened Vectors

  // ---------------------------------------------------------------------
  // Centred finite difference
  // ---------------------------------------------------------------------

  /** The step `Derivada.diferencas_finitas` uses by default, `1e-5`. */
  const Step: real := 0.00001

  /** `Derivada.diferencas_finitas(f, x, h)`: the slope of the chord
      through `x - h` and `x + h`, zero exactly when `f` takes the same value
      at both ends. */
  function CentralDifference(f: real -> real, x: real, h: real): (r: real)
    requires h != 0.0
    ensures r * (2.0 * h) == f(x + h) - f(x - h)
    ensures r == 0.0 <==> f(x + h) == f(x - h)
  {
    (f(x + h) - f(x - h)) / (2.0 * h)
  }

  /** The difference quotient is exact on straight lines. */
  lemma CentralDifferenceLine(f: real -> real, c: real, d: real, x: real, h: real)
    requires h != 0.0
    requires forall y :: f(y) == c * y + d
    ensures CentralDifference(f, x, h) == c
  {
    assert f(x + h) - f(x - h) == c * (2.0 * h);
  }

  /** The difference quotient is exact on parabolas too. */
  lemma CentralDifferenceParabola(f: real -> real, a: real, c: real, d: real, x: real, h: real)
    requires h != 0.0
    requires forall y :: f(y) == a * y * y + c * y + d
    ensures CentralDifference(f, x, h) == 2.0 * a * x + c
  {
    assert f(x + h) == a * (x + h) * (x + h) + c * (x + h) + d;
    assert f(x - h) == a * (x - h) * (x - h) + c * (x - h) + d;
    assert a * (x + h) * (x + h) - a * (x - h) * (x - h) == 4.0 * a * x * h;
    assert f(x + h) - f(x - h) == (2.0 * a * x + c) * (2.0 * h);
  }

  // ---------------------------------------------------------------------
  // Bisection
  // ---------------------------------------------------------------------

  /** The loop state of `bissecao`: its `x0`, `x1` (in either order) and
      `iteracoes`. */
  datatype Bracket = Bracket(lo: real, hi: real, iterations: nat)

  /** How a call of `bissecao` ends. */
  datatype BisectionOutcome =
    | NoSignChange                                   // `return None`
    | Unbound                                        // `return x` with `x` never assigned
    | Hangs(at: Bracket)                             // `continue` with nothing changed, forever
    | Midpoint(x: real, last: Bracket, converged: bool)

  function Mid(s: Bracket): real
  {
    (s.lo + s.hi) / 2.0
  }

  /** A counted iteration: the midpoint replaces the end on its side of the sign change. */
  function Halve(f: real -> real, s: Bracket): (r: Bracket)
    ensures r.iterations == s.iterations + 1
  {
    var x := Mid(s);
    if f(s.lo) * f(x) < 0.0 then Bracket(s.lo, x, s.iterations + 1)
    else Bracket(x, s.hi, s.iterations + 1)
  }

  /** One pass of the loop body, `continue` included. */
  function Pass(f: real -> real, s: Bracket): Bracket
  {
    if f(Mid(s)) == 0.0 then s else Halve(f, s)
  }

  /** `k` passes of the loop body. */
  function Passes(f: real -> real, s: Bracket, k: nat): Bracket
    decreases k
  {
    if k == 0 then s else Passes(f, Pass(f, s), k - 1)
  }

  /** The `while iteracoes < lim_iter` loop from state `s`, `x` being the last midpoint. */
  function BisectLoop(f: real -> real, tol: real, limIter: int, s: Bracket, x: real): BisectionOutcome
    decreases limIter - s.iterations
  {
    if s.iterations >= limIter then
      if s.iterations == 0 then Unbound else Midpoint(x, s, false)
    else
      var m := Mid(s);
      if f(m) == 0.0 then Hangs(s)
      else
        var s' := Halve(f, s);
        if Abs(f(s'.hi) - f(s'.lo)) < tol then Midpoint(m, s', true)
        else BisectLoop(f, tol, limIter, s', m)
  }

  /** `bissecao(f, x0, x1, tol, lim_iter)`. */
  function BisectionRun(f: real -> real, x0: real, x1: real, tol: real, limIter: int): BisectionOutcome
  {
    if f(x0) * f(x1) > 0.0 then NoSignChange
    else BisectLoop(f, tol, limIter, Bracket(x0, x1, 0), 0.0)
  }

  function Pow2(n: nat): (r: real)
    ensures r > 0.0
  {
    if n == 0 then 1.0 else 2.0 * Pow2(n - 1)
  }

  /** What every state of a run from `[x0, x1]` satisfies: the width has
      halved once per counted iteration, and when `f(x0)` is non-zero the
      kept end is not a root and the sign change is kept. */
  predicate Bracketing(f: real -> real, x0: real, x1: real, s: Bracket)
  {
    s.hi - s.lo == (x1 - x0) / Pow2(s.iterations) &&
    (f(x0) != 0.0 ==> f(s.lo) != 0.0 && f(s.lo) * f(s.hi) <= 0.0)
  }

  /** A counted iteration halves the bracket. */
  lemma HalveWidth(f: real -> real, s: Bracket)
    ensures Halve(f, s).hi - Halve(f, s).lo == (s.hi - s.lo) / 2.0
  {
  }

  /** If `f` is non-zero at the kept end and at the midpoint, the sign change
      survives the iteration. */
  lemma HalveKeepsSign(f: real -> real, s: Bracket)
    requires f(s.lo) != 0.0 && f(Mid(s)) != 0.0 && f(s.lo) * f(s.hi) <= 0.0
    ensures var r := Halve(f, s); f(r.lo) != 0.0 && f(r.lo) * f(r.hi) <= 0.0
  {
    var a, m, b := f(s.lo), f(Mid(s)), f(s.hi);
    if a * m >= 0.0 {
      if a > 0.0 {
        assert m > 0.0 && b <= 0.0;
      } else {
        assert a < 0.0 && m < 0.0 && b >= 0.0;
      }
    }
  }

  /** `Bracketing` is kept by every counted iteration. */
  lemma BracketingStep(f: real -> real, x0: real, x1: real, s: Bracket)
    requires Bracketing(f, x0, x1, s) && f(Mid(s)) != 0.0
    ensures Bracketing(f, x0, x1, Halve(f, s))
  {
    HalveWidth(f, s);
    if f(x0) != 0.0 {
      HalveKeepsSign(f, s);
    }
    var n := s.iterations;
    assert Pow2(n + 1) == 2.0 * Pow2(n);
    assert (x1 - x0) / Pow2(n) / 2.0 == (x1 - x0) / (2.0 * Pow2(n));
  }

  /** With an exact root at the midpoint the loop body changes nothing, so
      however many passes run, the state (and `iteracoes < lim_iter`) stays. */
  lemma {:induction false} StuckAtRoot(f: real -> real, s: Bracket, k: nat)
    requires f(Mid(s)) == 0.0
    ensures Passes(f, s, k) == s
  {
    if k > 0 {
      StuckAtRoot(f, s, k - 1);
    }
  }

  /** The outcomes of the loop from a reachable state. */
  lemma {:induction false} BisectLoopReport(f: real -> real, x0: real, x1: real, tol: real, limIter: int, s: Bracket, x: real)
    requires Bracketing(f, x0, x1, s) && s.iterations <= Count(limIter)
    requires s.iterations > 0 ==> x == s.lo || x == s.hi
    ensures match BisectLoop(f, tol, limIter, s, x)
      case NoSignChange => false
      case Unbound => s.iterations == 0 && limIter <= 0
      case Hangs(t) =>
        Bracketing(f, x0, x1, t) && s.iterations <= t.iterations < limIter && f(Mid(t)) == 0.0
      case Midpoint(y, t, c) =>
        Bracketing(f, x0, x1, t) && 1 <= t.iterations <= Count(limIter) && (y == t.lo || y == t.hi) &&
        (c ==> Abs(f(t.hi) - f(t.lo)) < tol) && (!c ==> t.iterations == Count(limIter))
    decreases limIter - s.iterations
  {
    if s.iterations < limIter && f(Mid(s)) != 0.0 {
      var s' := Halve(f, s);
      BracketingStep(f, x0, x1, s);
      if Abs(f(s'.hi) - f(s'.lo)) >= tol {
        BisectLoopReport(f, x0, x1, tol, limIter, s', Mid(s));
      }
    }
  }

  /** `bissecao` returns `None` exactly when there is no sign change, fails
      on an unbound `x` exactly when it may not iterate, hangs only on an
      exact root at a midpoint, and otherwise returns an end of a bracket
      whose width is `(x1 - x0) / 2^iteracoes`, with `iteracoes` at most
      `lim_iter`, reporting convergence only when `|f(x1) - f(x0)| < tol`. */
  lemma BisectionReport(f: real -> real, x0: real, x1: real, tol: real, limIter: int)
    ensures BisectionRun(f, x0, x1, tol, limIter) == NoSignChange <==> f(x0) * f(x1) > 0.0
    ensures BisectionRun(f, x0, x1, tol, limIter) == Unbound <==> f(x0) * f(x1) <= 0.0 && limIter <= 0
    ensures match BisectionRun(f, x0, x1, tol, limIter)
      case NoSignChange => true
      case Unbound => true
      case Hangs(t) => Bracketing(f, x0, x1, t) && t.iterations < limIter && f(Mid(t)) == 0.0
      case Midpoint(y, t, c) =>
        Bracketing(f, x0, x1, t) && 1 <= t.iterations <= Count(limIter) && (y == t.lo || y == t.hi) &&
        (c ==> Abs(f(t.hi) - f(t.lo)) < tol) && (!c ==> t.iterations == Count(limIter))
  {
    if f(x0) * f(x1) <= 0.0 {
      var s := Bracket(x0, x1, 0);
      assert Bracketing(f, x0, x1, s);
      BisectLoopReport(f, x0, x1, tol, limIter, s, 0.0);
    }
  }

  /** `SolversNaoLineares.bissecao`. */
  method Bisection(f: real -> real, x0: real, x1: real, tol: real, limIter: int) returns (r: BisectionOutcome)
    ensures r == BisectionRun(f, x0, x1, tol, limIter)
  {
    if f(x0) * f(x1) > 0.0 {
      return NoSignChange;
    }
    var lo, hi := x0, x1;
    var iterations: nat := 0;
    var x := 0.0;
    while iterations < limIter
      invariant BisectLoop(f, tol, limIter, Bracket(lo, hi, iterations), x) == BisectionRun(f, x0, x1, tol, limIter)
      decreases limIter - iterations
    {
      x := (lo + hi) / 2.0;
      if f(x) == 0.0 {
        // `continue` leaves every variable as it was: the loop never ends.
        return Hangs(Bracket(lo, hi, iterations));
      } else if f(lo) * f(x) < 0.0 {
        hi := x;
      } else {
        lo := x;
      }
      iterations := iterations + 1;
      if Abs(f(hi) - f(lo)) < tol {
        return Midpoint(x, Bracket(lo, hi, iterations), true);
      }
    }
    if iterations == 0 {
      return Unbound;
    }
    return Midpoint(x, Bracket(lo, hi, iterations), false);
  }

  /** The loop as evidently intended: an exact root at the midpoint is returned. */
  function BisectLoopIntended(f: real -> real, tol: real, limIter: int, s: Bracket, x: real): BisectionOutcome
    decreases limIter - s.iterations
  {
    if s.iterations >= limIter then
      if s.iterations == 0 then Unbound else Midpoint(x, s, false)
    else
      var m := Mid(s);
      if f(m) == 0.0 then Midpoint(m, s, true)
      else
        var s' := Halve(f, s);
        if Abs(f(s'.hi) - f(s'.lo)) < tol then Midpoint(m, s', true)
        else BisectLoopIntended(f, tol, limIter, s', m)
  }

  function BisectionIntended(f: real -> real, x0: real, x1: real, tol: real, limIter: int): BisectionOutcome
  {
    if f(x0) * f(x1) > 0.0 then NoSignChange
    else BisectLoopIntended(f, tol, limIter, Bracket(x0, x1, 0), 0.0)
  }

  /** The intended loop never hangs, and a converged answer is an exact root
      or ends a bracket whose end values differ by less than `tol`. */
  lemma {:induction false} BisectLoopIntendedReport(f: real -> real, tol: real, limIter: int, s: Bracket, x: real)
    ensures match BisectLoopIntended(f, tol, limIter, s, x)
      case NoSignChange => false
      case Hangs(_) => false
      case Unbound => s.iterations == 0 && limIter <= 0
      case Midpoint(y, t, c) => c ==> f(y) == 0.0 || Abs(f(t.hi) - f(t.lo)) < tol
    decreases limIter - s.iterations
  {
    if s.iterations < limIter && f(Mid(s)) != 0.0 {
      var s' := Halve(f, s);
      if Abs(f(s'.hi) - f(s'.lo)) >= tol {
        BisectLoopIntendedReport(f, tol, limIter, s', Mid(s));
      }
    }
  }

  /** `bissecao` as written hangs on `f(x) = x` over `[-1, 1]`, whose
      midpoint is the root; the intended loop returns that root. */
  lemma BisectionHangsOnMidpointRoot()
    ensures BisectionRun(y => y, -1.0, 1.0, 0.5, 1) == Hangs(Bracket(-1.0, 1.0, 0))
    ensures BisectionIntended(y => y, -1.0, 1.0, 0.5, 1) == Midpoint(0.0, Bracket(-1.0, 1.0, 0), true)
  {
    assert Mid(Bracket(-1.0, 1.0, 0)) == 0.0;
  }

  // ---------------------------------------------------------------------
  // Secant
  // ---------------------------------------------------------------------

  /** How a call of `secante` ends. */
  datatype SecantOutcome =
    | RootAtStart(root: real, iterations: nat)       // "Raiz: ..., Iterações: ..."
    | DivisionByZero                                 // "Divisão por zero!"
    | Approximation(x: real, previous: real, iterations: nat, converged: bool)

  /** Where the chord through `(x0, f(x0))` and `(x1, f(x1))` crosses zero. */
  function SecantPoint(f: real -> real, x0: real, x1: real): real
    requires f(x1) - f(x0) != 0.0
  {
    x1 - f(x1) * (x1 - x0) / (f(x1) - f(x0))
  }

  /** The secant point lies on the zero of the chord. */
  lemma SecantOnChord(f: real -> real, x0: real, x1: real)
    requires f(x1) - f(x0) != 0.0
    ensures (SecantPoint(f, x0, x1) - x1) * (f(x1) - f(x0)) == -f(x1) * (x1 - x0)
  {
    var d := f(x1) - f(x0);
    var q := f(x1) * (x1 - x0);
    assert SecantPoint(f, x0, x1) - x1 == -(q / d);
    assert (q / d) * d == q;
  }

  /** The `while iteracoes < lim_iter` loop of `secante` from `(x0, x1)`. */
  function SecantLoop(f: real -> real, tol: real, limIter: int, x0: real, x1: real, iterations: nat): SecantOutcome
    decreases limIter - iterations
  {
    if iterations >= limIter then Approximation(x1, x0, iterations, false)
    else if f(x1) - f(x0) == 0.0 then DivisionByZero
    else
      var x2 := SecantPoint(f, x0, x1);
      if Abs(f(x2)) < tol then Approximation(x2, x1, iterations + 1, true)
      else SecantLoop(f, tol, limIter, x1, x2, iterations + 1)
  }

  /** `secante(f, x0, x1, tol, lim_iter)`. */
  function SecantRun(f: real -> real, x0: real, x1: real, tol: real, limIter: int): SecantOutcome
  {
    if f(x0) == 0.0 then RootAtStart(x0, 0)
    else if f(x1) == 0.0 then RootAtStart(x1, 1)
    else SecantLoop(f, tol, limIter, x0, x1, 0)
  }

  /** The outcomes of the loop from iteration `iterations`. A division by
      zero happens exactly on a pair with equal values: the start pair, or a
      later one whose current point is the secant point of the pair before. */
  lemma {:induction false} SecantLoopReport(f: real -> real, tol: real, limIter: int, x0: real, x1: real, iterations: nat)
    requires iterations <= Count(limIter)
    ensures iterations < limIter && f(x1) == f(x0) ==> SecantLoop(f, tol, limIter, x0, x1, iterations) == DivisionByZero
    ensures match SecantLoop(f, tol, limIter, x0, x1, iterations)
      case RootAtStart(_, _) => false
      case DivisionByZero =>
        iterations < limIter &&
        (f(x1) == f(x0) || exists q, r :: f(q) - f(r) != 0.0 && f(SecantPoint(f, r, q)) == f(q))
      case Approximation(x, p, k, c) =>
        iterations <= k <= Count(limIter) &&
        (c ==> Abs(f(x)) < tol && iterations < k) &&
        (!c ==> k == Count(limIter)) &&
        (!c && iterations < k ==> Abs(f(x)) >= tol) &&
        (iterations < k ==> exists q :: f(p) - f(q) != 0.0 && x == SecantPoint(f, q, p))
    decreases limIter - iterations
  {
    if iterations < limIter && f(x1) - f(x0) != 0.0 {
      var x2 := SecantPoint(f, x0, x1);
      if Abs(f(x2)) >= tol {
        SecantLoopReport(f, tol, limIter, x1, x2, iterations + 1);
        if f(x2) == f(x1) {
          assert f(x1) - f(x0) != 0.0 && f(SecantPoint(f, x0, x1)) == f(x1);
        }
      }
    }
  }

  /** `secante` returns a start point that is a root (checking `x0` first),
      reports a division by zero exactly on a pair with equal values (the
      start pair when it may iterate, or a later one), and otherwise returns
      a secant point after at most `lim_iter` steps, converged exactly when
      that point has `|f| < tol`. */
  lemma SecantReport(f: real -> real, x0: real, x1: real, tol: real, limIter: int)
    ensures SecantRun(f, x0, x1, tol, limIter) == RootAtStart(x0, 0) <==> f(x0) == 0.0
    ensures SecantRun(f, x0, x1, tol, limIter) == RootAtStart(x1, 1) <==> f(x0) != 0.0 && f(x1) == 0.0
    ensures f(x0) != 0.0 && f(x1) != 0.0 && limIter > 0 && f(x1) == f(x0) ==>
      SecantRun(f, x0, x1, tol, limIter) == DivisionByZero
    ensures match SecantRun(f, x0, x1, tol, limIter)
      case RootAtStart(x, _) => f(x) == 0.0
      case DivisionByZero =>
        limIter > 0 &&
        (f(x1) == f(x0) || exists q, r :: f(q) - f(r) != 0.0 && f(SecantPoint(f, r, q)) == f(q))
      case Approximation(x, p, k, c) =>
        k <= Count(limIter) && (c ==> Abs(f(x)) < tol && 1 <= k) && (!c ==> k == Count(limIter)) &&
        (!c && k > 0 ==> Abs(f(x)) >= tol) &&
        (k == 0 ==> x == x1 && p == x0) &&
        (k > 0 ==> exists q :: f(p) - f(q) != 0.0 && x == SecantPoint(f, q, p))
  {
    if f(x0) != 0.0 && f(x1) != 0.0 {
      SecantLoopReport(f, tol, limIter, x0, x1, 0);
    }
  }

  /** `SolversNaoLineares.secante`. */
  method Secant(f: real -> real, x0: real, x1: real, tol: real, limIter: int) returns (r: SecantOutcome)
    ensures r == SecantRun(f, x0, x1, tol, limIter)
  {
    if f(x0) == 0.0 {
      return RootAtStart(x0, 0);
    }
    if f(x1) == 0.0 {
      return RootAtStart(x1, 1);
    }
    var a, b := x0, x1;
    var iterations: nat := 0;
    while iterations < limIter
      invariant SecantLoop(f, tol, limIter, a, b, iterations) == SecantRun(f, x0, x1, tol, limIter)
      decreases limIter - iterations
    {
      if f(b) - f(a) == 0.0 {
        return DivisionByZero;
      }
      var c := b - f(b) * (b - a) / (f(b) - f(a));
      a, b := b, c;
      iterations := iterations + 1;
      if Abs(f(b)) < tol {
        return Approximation(b, a, iterations, true);
      }
    }
    return Approximation(b, a, iterations, false);
  }

  // ---------------------------------------------------------------------
  // Newton-Raphson
  // ---------------------------------------------------------------------

  /** How a call of `newton_raphson` ends. */
  datatype NewtonOutcome =
    | SeedDivisionByZero                             // the secant seed raises ZeroDivisionError
    | ZeroDerivative                                 // `return None`
    | Estimate(x: real, iterations: nat, converged: bool)

  /** Where the tangent, with the finite-difference slope, crosses zero. */
  function NewtonPoint(f: real -> real, x: real): real
    requires CentralDifference(f, x, Step) != 0.0
  {
    x - f(x) / CentralDifference(f, x, Step)
  }

  /** The Newton point lies on the zero of the tangent. */
  lemma NewtonOnTangent(f: real -> real, x: real)
    requires CentralDifference(f, x, Step) != 0.0
    ensures f(x) + CentralDifference(f, x, Step) * (NewtonPoint(f, x) - x) == 0.0
  {
    var d := CentralDifference(f, x, Step);
    assert NewtonPoint(f, x) - x == -(f(x) / d);
    assert d * (f(x) / d) == f(x);
  }

  /** The `while iteracoes <= lim_iter` loop of `newton_raphson` from `x`. */
  function NewtonLoop(f: real -> real, tol: real, limIter: int, x: real, iterations: nat): NewtonOutcome
    requires CentralDifference(f, x, Step) != 0.0
    decreases limIter + 1 - iterations
  {
    if iterations > limIter then Estimate(x, iterations, false)
    else
      var xi := NewtonPoint(f, x);
      if Abs(f(xi)) < tol then Estimate(x, iterations, true)
      else if CentralDifference(f, xi, Step) == 0.0 then ZeroDerivative
      else NewtonLoop(f, tol, limIter, xi, iterations + 1)
  }

  /** `newton_raphson(f, x0, x1, tol, lim_iter)`: a secant seed, then Newton steps. */
  function NewtonRun(f: real -> real, x0: real, x1: real, tol: real, limIter: int): NewtonOutcome
  {
    if f(x1) - f(x0) == 0.0 then SeedDivisionByZero
    else
      var x := SecantPoint(f, x0, x1);
      if CentralDifference(f, x, Step) == 0.0 then ZeroDerivative
      else NewtonLoop(f, tol, limIter, x, 1)
  }

  /** The outcomes of the loop from iteration `iterations`. `None` comes
      exactly from an unconverged Newton point with a zero slope. */
  lemma {:induction false} NewtonLoopReport(f: real -> real, tol: real, limIter: int, x: real, iterations: nat)
    requires CentralDifference(f, x, Step) != 0.0 && 1 <= iterations <= Count(limIter) + 1
    ensures match NewtonLoop(f, tol, limIter, x, iterations)
      case SeedDivisionByZero => false
      case ZeroDerivative =>
        iterations <= limIter &&
        exists y :: CentralDifference(f, y, Step) != 0.0 &&
          Abs(f(NewtonPoint(f, y))) >= tol && CentralDifference(f, NewtonPoint(f, y), Step) == 0.0
      case Estimate(y, k, c) =>
        CentralDifference(f, y, Step) != 0.0 && iterations <= k <= Count(limIter) + 1 &&
        (c ==> Abs(f(NewtonPoint(f, y))) < tol && k <= limIter) &&
        (!c ==> k == Count(limIter) + 1) &&
        (!c && iterations < k ==> Abs(f(y)) >= tol)
    decreases limIter + 1 - iterations
  {
    if iterations <= limIter {
      var xi := NewtonPoint(f, x);
      if Abs(f(xi)) >= tol && CentralDifference(f, xi, Step) != 0.0 {
        NewtonLoopReport(f, tol, limIter, xi, iterations + 1);
      }
    }
  }

  /** `newton_raphson` fails in the seed exactly when `f(x1) = f(x0)`, and
      returns `None` exactly on a zero slope at the seed or at an unconverged
      Newton point. Otherwise it returns an iterate with a non-zero slope; on
      convergence it is the iterate BEFORE the one with `|f| < tol`, with
      `iteracoes` at most `lim_iter`, and otherwise `iteracoes` ends one past
      the cap and the last iterate has `|f| >= tol`. */
  lemma NewtonReport(f: real -> real, x0: real, x1: real, tol: real, limIter: int)
    ensures NewtonRun(f, x0, x1, tol, limIter) == SeedDivisionByZero <==> f(x1) == f(x0)
    ensures f(x1) != f(x0) && CentralDifference(f, SecantPoint(f, x0, x1), Step) == 0.0 ==>
      NewtonRun(f, x0, x1, tol, limIter) == ZeroDerivative
    ensures match NewtonRun(f, x0, x1, tol, limIter)
      case SeedDivisionByZero => true
      case ZeroDerivative =>
        (f(x1) != f(x0) && CentralDifference(f, SecantPoint(f, x0, x1), Step) == 0.0) ||
        exists y :: CentralDifference(f, y, Step) != 0.0 &&
          Abs(f(NewtonPoint(f, y))) >= tol && CentralDifference(f, NewtonPoint(f, y), Step) == 0.0
      case Estimate(y, k, c) =>
        CentralDifference(f, y, Step) != 0.0 && 1 <= k <= Count(limIter) + 1 &&
        (c ==> Abs(f(NewtonPoint(f, y))) < tol && k <= limIter) &&
        (!c ==> k == Count(limIter) + 1) &&
        (!c && k > 1 ==> Abs(f(y)) >= tol)
  {
    if f(x1) - f(x0) != 0.0 {
      var x := SecantPoint(f, x0, x1);
      if CentralDifference(f, x, Step) != 0.0 {
        NewtonLoopReport(f, tol, limIter, x, 1);
      }
    }
  }

  /** `SolversNaoLineares.newton_raphson`. */
  method NewtonRaphson(f: real -> real, x0: real, x1: real, tol: real, limIter: int) returns (r: NewtonOutcome)
    ensures r == NewtonRun(f, x0, x1, tol, limIter)
  {
    if f(x1) - f(x0) == 0.0 {
      return SeedDivisionByZero;
    }
    var x := x1 - f(x1) * (x1 - x0) / (f(x1) - f(x0));
    if CentralDifference(f, x, Step) == 0.0 {
      return ZeroDerivative;
    }
    var iterations: nat := 1;
    while iterations <= limIter
      invariant CentralDifference(f, x, Step) != 0.0
      invariant NewtonLoop(f, tol, limIter, x, iterations) == NewtonRun(f, x0, x1, tol, limIter)
      decreases limIter + 1 - iterations
    {
      var xi := x - f(x) / CentralDifference(f, x, Step);
      if Abs(f(xi)) < tol {
        return Estimate(x, iterations, true);
      }
      if CentralDifference(f, xi, Step) == 0.0 {
        return ZeroDerivative;
      }
      x := xi;
      iterations := iterations + 1;
    }
    return Estimate(x, iterations, false);
  }
}
