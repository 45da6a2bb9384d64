# Numerical solvers and DC power flow, modelled in Dafny

This project models the numerical core of a small Python toolkit for power
systems. It has four layers:

- **`Vetor` and `Matriz`** (`utils/algebra.py`): vector and matrix primitives, plus the
  centred finite difference of `Derivada`.
- **`SolversLineares`** (`utils/solver.py`): Gaussian elimination and Doolittle LU
  decomposition (both without pivoting), and the Jacobi and Gauss-Seidel iterations.
- **`SolversNaoLineares`** (`utils/solver.py`): the scalar root-finders (bisection, secant
  and Newton-Raphson).
- **`Flupot.linearizado`** (`utils/flupot.py`): the linearised (DC) power flow. It assembles
  the susceptance matrix from the line reactances and drops the last bus (the slack). It
  solves the rest with Gauss-Seidel, appends the reference angle 0 and writes an angle onto
  every bus record and a flow onto every line record.

All arithmetic is over exact `real`s. Vectors are `seq<real>` and matrices
`seq<seq<real>>`. The source's nested loops are methods with loop invariants.
Each method is proved equal to a specification function, and lemmas state
what those functions mean:

- elimination leaves an upper-triangular system with the same solutions;
- `L·U = A`;
- the solvers' `x` solves `A x = b` exactly;
- a Jacobi or Gauss-Seidel sweep is a fixed point exactly when it solves the system;
- the iteration caps and the meaning of the convergence flags;
- the assembled susceptance matrix is symmetric, and each of its rows sums to zero.

The bus and line records are mutated in place, so they are classes (`Bus`, `Line`); every
other entity is a value.

Files and modules:

| file | module | models |
|---|---|---|
| vectors.dfy | `Vectors` | `Vetor` |
| matrices.dfy | `Matrices` | `Matriz` |
| direct_solvers.dfy | `DirectSolvers` | `gauss`, `decomposicao_lu` |
| iterative_solvers.dfy | `IterativeSolvers` | `jacobi`, `gauss_seidel` |
| root_finders.dfy | `RootFinders` | `Derivada.diferencas_finitas`, `bissecao`, `secante`, `newton_raphson` |
| power_flow.dfy | `PowerFlow` | `Flupot.linearizado` |

Behaviour of the code that the model keeps:

- `gauss` and `decomposicao_lu` divide by each pivot without checking it
  (utils/solver.py:31, 41, 74, 90), so a non-zero pivot is a precondition
  (`NonZeroPivots`).
- `newton_raphson` returns the iterate *before* the one with `|f| < tol`
  (utils/solver.py:290-295, 310); `NewtonLoop` does the same.
- `newton_raphson` returns `None` on a zero derivative (`ZeroDerivative`), and its secant
  seed divides by `f(x1) - f(x0)` unguarded (utils/solver.py:279), which the model makes the
  outcome `SeedDivisionByZero`.
- `gauss` reports convergence when the residual is `<= tol` (utils/solver.py:48), and
  `decomposicao_lu` when it is `< tol` (utils/solver.py:97); the modelled flags keep that
  difference.

## Model

| member | source | states |
|---|---|---|
| Vectors.Dot | utils/algebra.py:47-51 | `produto_escalar` of an empty `zip` is 0; `DotOne` and `DotSnoc` below fix the rest of the sum |
| Vectors.DotOne | utils/algebra.py:47-51 | a single pair gives `a[0]·b[0]` |
| Vectors.Create | utils/algebra.py:26-30 | `criar(n, v)` has `n` entries (none for negative `n`), each equal to `v` |
| Vectors.Add | utils/algebra.py:33-37 | length is the shorter input's (`zip`); entry `i` is `a[i] + b[i]` |
| Vectors.Sub | utils/algebra.py:40-44 | length is the shorter input's; entry `i` is `a[i] - b[i]` |
| Vectors.Scale | utils/algebra.py:61-65 | same length; entry `i` is `v[i] * s` |
| Vectors.NormInf | utils/algebra.py:78-82 | needs a non-empty vector; `r` bounds every `|v[i]|` and equals some `|v[k]|` |
| Vectors.NormInfZero | utils/algebra.py:78-82 | the infinity norm is 0 exactly when every entry is 0 |
| Vectors.DotTruncate | utils/algebra.py:47-51 | the dot product reads only the first `min(|a|, |b|)` entries (`zip`) |
| Vectors.DotSnoc | utils/algebra.py:47-51 | extending both prefixes by entry `k` adds `a[k] * b[k]`, so the dot product is the sum of `a[i] * b[i]` |
| Vectors.DotSplit | utils/algebra.py:47-51 | the sum splits at any `k` into the prefix and suffix sums (the split `gauss_seidel` uses) |
| Vectors.DotSymmetric | utils/algebra.py:47-51 | `a·b == b·a` |
| Vectors.DotCombine | utils/algebra.py:47-51 | the dot product is linear: `(a + l·c)·x == a·x + l·(c·x)` |
| Vectors.DotScale | utils/algebra.py:47-65 | `(s·a)·b == s·(a·b)` |
| Vectors.SubAfterAdd | utils/algebra.py:33-44 | `subtracao(soma(a, b), b)` gives back `a` cut to the shorter length |
| Vectors.AddZero | utils/algebra.py:26-37 | adding `criar(|a|, 0)` leaves `a` unchanged |
| Matrices.Clone | utils/algebra.py:91-95 | the copy equals the original entry by entry |
| Matrices.Constant | utils/algebra.py:98-106 | `linhas` rows of `colunas` entries, each equal to the value |
| Matrices.Zeros | utils/algebra.py:140-144 | `linhas` by `colunas`, all zero |
| Matrices.DiagonalMain | utils/algebra.py:109-118 | `n`-by-`n`: `v` where `i = j`, 0 elsewhere |
| Matrices.DiagonalSecondary | utils/algebra.py:121-130 | `n`-by-`n`: `v` exactly at `[i][n-1-i]`, 0 elsewhere |
| Matrices.Identity | utils/algebra.py:133-137 | the main diagonal matrix with value 1 |
| Matrices.DiagonalApply | utils/algebra.py:109-118 | a `v`-diagonal matrix maps `x` to `v·x` |
| Matrices.AntiDiagonalApply | utils/algebra.py:121-130 | a `v`-anti-diagonal matrix maps `x` to `v` times `x` reversed |
| Matrices.SplitSystem | utils/algebra.py:147-155 | each row splits into its A row (one shorter) followed by its last entry |
| Matrices.Transpose | utils/algebra.py:158-170 | an `r`-by-`c` matrix becomes `c`-by-`r` with `T[j][i] = M[i][j]` |
| Matrices.TransposeTwice | utils/algebra.py:158-170 | transposing a rectangular matrix twice gives it back |
| Matrices.Multiply | utils/algebra.py:179-200 | a column-count/row-count mismatch gives `DimensionMismatch`; otherwise the `|A|`-by-`|B[0]|` product with entry `Σk A[i][k]·B[k][j]` |
| Matrices.MultiplyVector | utils/algebra.py:202-214 | a vector of `len(A)` entries, entry `i` being `A[i]·v` |
| Matrices.ApplyProduct | utils/algebra.py:173-214 | multiplying by `A·B` is multiplying by `B`, then by `A` |
| Matrices.Add | utils/algebra.py:217-235 | a row-count or first-row-length mismatch gives `DimensionMismatch`; otherwise the entry-wise sum |
| Matrices.Subtract | utils/algebra.py:238-256 | the same mismatch check; otherwise the entry-wise difference |
| Matrices.SubtractAfterAdd | utils/algebra.py:217-256 | `subtracao(soma(A, B), B) == A` |
| Matrices.SumZeros | utils/algebra.py:217-235 | adding a zero matrix leaves `A` unchanged |
| DirectSolvers.SubtractPivotRow | utils/solver.py:32-33 | the `j` loop subtracts `l` times the pivot row from column `k` on |
| DirectSolvers.GaussPass | utils/solver.py:30-34 | the `i` loop of elimination step `k` produces the specified pass on both `A` and `b` |
| DirectSolvers.GaussElimination | utils/solver.py:29-34 | elimination on a copy of the system gives the specified result, which is upper triangular with a non-zero diagonal |
| DirectSolvers.EliminatedTriangular | utils/solver.py:29-34 | after `k` steps, every entry below the diagonal in the first `k` columns is 0 |
| DirectSolvers.EliminatedUpper | utils/solver.py:29-34 | after `n - 1` steps the matrix is upper triangular with non-zero pivots |
| DirectSolvers.PassKeepsSolutions | utils/solver.py:30-34 | one elimination pass keeps exactly the solutions of the system (both directions) |
| DirectSolvers.EliminationKeepsSolutions | utils/solver.py:29-34 | `x` solves the eliminated system iff it solves `A x = b` |
| DirectSolvers.SubtractKnownTerms | utils/solver.py:38-40 | the `i` loop subtracts the already-known terms `Σ A[k][i]·x[i]`, `i > k`, from `x[k]` and changes nothing else |
| DirectSolvers.GaussBackSubstitution | utils/solver.py:37-41 | back substitution on an upper-triangular system with a non-zero diagonal gives `x` with `U x = c` |
| DirectSolvers.MaxResidual | utils/solver.py:44-46 | the residual is `‖A x − b‖∞`, is non-negative, and is 0 for an exact solution |
| DirectSolvers.SolutionUnique | utils/solver.py:13-52 | with non-zero pivots, `A x = b` has at most one solution |
| DirectSolvers.Gauss | utils/solver.py:13-52 | with non-zero pivots, `x` solves `A x = b` exactly, is the only solution, and the residual check reports convergence iff `0 <= tol` |
| DirectSolvers.FactorPass | utils/solver.py:73-77 | step `k` fills column `k` of `L` with the multipliers and eliminates below the pivot in `U` |
| DirectSolvers.Factor | utils/solver.py:65-77 | `L` is unit lower triangular, `U` is upper triangular with a non-zero diagonal, and `L·U = A` |
| DirectSolvers.LowerUpperProduct | utils/solver.py:60-77 | the specified factors satisfy `L·U = A` with the triangular shapes |
| DirectSolvers.FactorsLower | utils/solver.py:66-75 | the `L` being built stays unit lower triangular |
| DirectSolvers.FactorsAccount | utils/solver.py:72-77 | after `k` steps `A = U_k + L_k·U_k` on the columns already done (the invariant behind `L·U = A`) |
| DirectSolvers.SolveLower | utils/solver.py:81-84 | forward substitution gives `y` with `L y = b` |
| DirectSolvers.LowerSolves | utils/solver.py:81-84 | `y[i] = b[i] − L[i]·y[:i]` for every row means `L y = b` |
| DirectSolvers.SolveUpper | utils/solver.py:87-90 | backward substitution gives `x` with `U x = y` |
| DirectSolvers.UpperSolves | utils/solver.py:87-90 | `U[i][i:]·x[i:] = y[i]` on every row means `U x = y` |
| DirectSolvers.UpperUnique | utils/solver.py:87-90 | an upper-triangular system with a non-zero diagonal has one solution |
| DirectSolvers.DecompositionLU | utils/solver.py:54-101 | with non-zero pivots, `x` solves `A x = b` exactly, is the only solution, and the residual check reports convergence iff `0 < tol` |
| IterativeSolvers.JacobiStep | utils/solver.py:125-129 | one sweep, reading only the previous iterate, gives the specified sweep, and the flag is "every component moved by less than `tol`" |
| IterativeSolvers.Jacobi | utils/solver.py:103-137 | the returned iterate, sweep count and flag are the specified run |
| IterativeSolvers.JacobiRunReport | utils/solver.py:117-137 | the result has `n` entries; at most `lim_iter` sweeps, none iff `lim_iter <= 0`; either it converged or it used every sweep; when converged, the result is a sweep of an iterate it is `tol`-close to |
| IterativeSolvers.RowFixedPoint | utils/solver.py:126-127 | the Jacobi update leaves `x[i]` unchanged iff row `i` of `A x = b` holds |
| IterativeSolvers.JacobiFixedPoint | utils/solver.py:124-131 | a Jacobi sweep fixes `x` iff `x` solves the system |
| IterativeSolvers.JacobiOffDiagonal | utils/solver.py:126 | `A[i]·x − A[i][i]·x[i]` is the sum over `j ≠ i` |
| IterativeSolvers.SeidelStep | utils/solver.py:159-174 | one in-place sweep gives the specified sweep, and the flag is "no component moved by `tol` or more" |
| IterativeSolvers.GaussSeidel | utils/solver.py:139-180 | the returned iterate, sweep count and flag are the specified run |
| IterativeSolvers.SeidelRunReport | utils/solver.py:153-180 | the same bounds and flag meaning as Jacobi, for Gauss-Seidel sweeps |
| IterativeSolvers.SeidelReads | utils/solver.py:161-172 | component `i` of a sweep reads the new `x[:i]` and the old `x[i:]` |
| IterativeSolvers.SeidelPartialAhead | utils/solver.py:161-172 | while row `i` is being updated, the components from `i` on still hold their old values |
| IterativeSolvers.SeidelPartialBehind | utils/solver.py:161-172 | once components `0 .. i-1` are written, later rows do not change them |
| IterativeSolvers.SeidelMatchesJacobi | utils/solver.py:162-165 | the split sum of Gauss-Seidel agrees with Jacobi's full sum minus the diagonal term |
| IterativeSolvers.SeidelFixedPoint | utils/solver.py:158-174 | a Gauss-Seidel sweep fixes `x` iff `x` solves the system |
| IterativeSolvers.SeidelLeadingRows | utils/solver.py:152-161 | a sweep reads only the first `len(b)` rows of `A` |
| RootFinders.CentralDifference | utils/algebra.py:269-273 | the result is the slope of the chord through `x − h` and `x + h`, and is 0 exactly when `f(x + h) = f(x − h)` |
| RootFinders.CentralDifferenceLine | utils/algebra.py:269-273 | the central difference of `c·y + d` is exactly `c` |
| RootFinders.CentralDifferenceParabola | utils/algebra.py:269-273 | the central difference of `a·y² + c·y + d` is exactly `2a·x + c` |
| RootFinders.HalveWidth | utils/solver.py:208-219 | each counted iteration halves `x1 − x0` |
| RootFinders.HalveKeepsSign | utils/solver.py:214-217 | a counted iteration keeps `f(x0) ≠ 0` and `f(x0)·f(x1) <= 0` |
| RootFinders.BracketingStep | utils/solver.py:207-219 | a counted iteration keeps the bracket invariant: after `k` counted iterations the width is `(x1 − x0)/2^k`, and when `f(x0) ≠ 0` the sign change is kept |
| RootFinders.StuckAtRoot | utils/solver.py:210-211 | once the midpoint is an exact root, no further pass changes `x0`, `x1` or `iteracoes` |
| RootFinders.BisectLoopReport | utils/solver.py:205-231 | the loop keeps the bracket invariant; it hangs only at an exact midpoint root; otherwise it returns a bracket end after at most `lim_iter` counted iterations, converged only if `|f(x1) − f(x0)| < tol` |
| RootFinders.BisectionReport | utils/solver.py:193-231 | `None` iff `f(x0)·f(x1) > 0`; the unassigned `x` iff the sign test passes and `lim_iter <= 0`; otherwise as for the loop |
| RootFinders.Bisection | utils/solver.py:193-231 | the method's outcome is the specified run |
| RootFinders.BisectionHangsOnMidpointRoot | utils/solver.py:210-211 | `f(x) = x` on `[-1, 1]` hangs on its first midpoint, where the corrected loop returns the root 0 |
| RootFinders.BisectLoopIntendedReport | utils/solver.py:205-224 | the corrected loop never hangs, and a converged answer is an exact root or ends a bracket with `|f(x1) − f(x0)| < tol` |
| RootFinders.SecantOnChord | utils/solver.py:253 | the secant point lies on the zero of the chord through `(x0, f(x0))` and `(x1, f(x1))` |
| RootFinders.SecantLoopReport | utils/solver.py:247-271 | an equal-valued pair with iterations left divides by zero, and a division by zero happens only on such a pair: the start pair, or a later one whose current point is the secant point of the pair before. Otherwise at most `lim_iter` shifts; converged exactly when the last shifted point has `|f| < tol`; every result is a secant point of the previous pair |
| RootFinders.SecantReport | utils/solver.py:234-271 | root `x0` at 0 iterations iff `f(x0) = 0`; root `x1` at 1 iteration iff `f(x0) ≠ 0` and `f(x1) = 0`; equal values at non-root start points with `lim_iter > 0` give the division by zero; otherwise as for the loop, returning `x1` untouched when `lim_iter <= 0` |
| RootFinders.Secant | utils/solver.py:234-271 | the method's outcome is the specified run |
| RootFinders.NewtonOnTangent | utils/solver.py:290 | the Newton point is the zero of the tangent with the finite-difference slope |
| RootFinders.NewtonLoopReport | utils/solver.py:287-310 | `None` comes only from an unconverged Newton point with a zero central difference; the returned `x` has a non-zero derivative; at most `lim_iter` iterations; converged only if its Newton point has `|f| < tol`; otherwise every iteration is used and the last iterate has `|f| >= tol` |
| RootFinders.NewtonReport | utils/solver.py:273-310 | the seed divides by zero iff `f(x1) = f(x0)`; a zero central difference at the seed gives `None`, and `None` comes only from a zero central difference at the seed or at an unconverged Newton point; otherwise as for the loop, starting at iteration 1 |
| RootFinders.NewtonRaphson | utils/solver.py:273-310 | the method's outcome is the specified run |
| PowerFlow.Bus.constructor | utils/flupot.py:7 | a bus record carries its generation `PG (PU)` |
| PowerFlow.Line.constructor | utils/flupot.py:14-16 | a line record carries `DE`, `PARA` and `x` |
| PowerFlow.StampEntry | utils/flupot.py:18-23 | one line adds `−1/x` at `(i, j)` and `(j, i)` and `+1/x` at `(i, i)` and `(j, j)`, and leaves every other entry alone |
| PowerFlow.StampSymmetric | utils/flupot.py:20-23 | one line's stamp keeps `B` symmetric |
| PowerFlow.AssembledSymmetric | utils/flupot.py:11-23 | the assembled `B` is symmetric |
| PowerFlow.StampRowTotal | utils/flupot.py:20-23 | one line's stamp leaves every row sum unchanged |
| PowerFlow.AssembledRowSums | utils/flupot.py:11-23 | every row of the assembled `B` sums to 0 |
| PowerFlow.StampInPlace | utils/flupot.py:20-23 | the four in-place updates give the line's stamp |
| PowerFlow.Assemble | utils/flupot.py:11-23 | the branch loop from a zero matrix builds the specified `B` |
| PowerFlow.AnglesShape | utils/flupot.py:25-31 | the angle vector has one entry per bus (one when there are none), and the last is the reference 0 |
| PowerFlow.FlowReversed | utils/flupot.py:44 | swapping `DE` and `PARA` negates the flow |
| PowerFlow.WriteAngles | utils/flupot.py:33-37 | every bus record is given its converted angle |
| PowerFlow.WriteFlows | utils/flupot.py:39-46 | every line record is given `(θ[DE−1] − θ[PARA−1]) / x` |
| PowerFlow.SolveAngles | utils/flupot.py:7-31 | `P`, then the assembled `B` and its reduction (leading block, `P[:-1]`), then Gauss-Seidel with its defaults, with 0 appended, gives the specified angles |
| PowerFlow.Linearized | utils/flupot.py:6-48 | the records are updated in place: each bus gets its angle, each line its flow, all from the specified angle vector of the right size |

## Left out

- Every `print` message, and the `round(..., 2)` applied to angles and flows: they are
  presentation. The convergence messages are kept as the returned flags and counts.
- Floating-point rounding: everything is exact `real` arithmetic. In particular, the exact
  solutions proved for `gauss` and `decomposicao_lu` hold only in this model.
- `Angulo.r2g` and `g2r`: they use `math.pi`. `Linearized` takes the degrees-per-radian
  factor as the parameter `degPerRad`.
- `Vetor.norma` and `Vetor.normalizar`: they need a square root, and nothing in the core
  calls them.
- `Flupot.newton_raphson`: it is an empty stub.
- File reading (`utils/arquivos.py`), module loading (`utils/modulos.py`, `main.py`) and
  timing (`utils/benchmark.py`): I/O and plumbing around the core.
- The unused instance fields of the `SolversLineares` and `SolversNaoLineares` constructors:
  the solvers are stateless.
- `Matriz.multiplicar`'s run-time choice of shape: it is two members, `Multiply` and
  `MultiplyVector`.
- The copies `gauss` and `decomposicao_lu` make of their inputs: sequences are values, so
  the caller's matrix and vector cannot change.
- DirectSolvers.Gauss and DirectSolvers.DecompositionLU: a zero pivot, which the source
  meets with `ZeroDivisionError`, is excluded by the `NonZeroPivots` precondition.
- IterativeSolvers.Jacobi and IterativeSolvers.GaussSeidel: a zero or missing diagonal
  entry, which raises in the source, is excluded by the `Ready` precondition. It is needed
  whenever `lim_iter > 0`.
- PowerFlow.Assemble, PowerFlow.WriteFlows and PowerFlow.Linearized: line ends outside
  `1 .. num_barras`, and zero reactance, are excluded by `Wired`. Python's negative indexing
  of an end equal to 0 is not modelled.
- PowerFlow.Linearized and PowerFlow.WriteAngles: the bus records must be distinct objects.
- PowerFlow.Linearized: the power balance of the resulting flows is not proved.
- `Matrices.MultiplyVector`: requires a non-empty vector, because `multiplicar` reads
  `matrizB[0]` to choose its shape.
- `Matrices.Multiply`: requires both operands to have a row, because `multiplicar`
  reads `matrizA[0]` and `matrizB[0]`. When the dimensions match, no row may be shorter
  than the first (`Shaped`), because the loops index every row up to that length.
- `Matrices.Add` and `Matrices.Subtract`: require `A` to have a row with no row shorter than
  the first (`Shaped`), because `soma` and `subtracao` read `len(matrizA[0])` and index every
  row up to it. When the row counts and first-row lengths agree, `B` must be `Shaped` too.
  A row-count mismatch, `B = []` included, is the `DimensionMismatch` case.
- `Matrices.SplitSystem`: requires every row to be non-empty, because `linha[-1]` raises
  `IndexError` on an empty row.
- DirectSolvers.Gauss and DirectSolvers.DecompositionLU: require a non-empty system
  (`SquareSystem` includes `|A| > 0`). For `n = 0` the residual check raises `IndexError`,
  because `multiplicar` reads `matrizB[0]` of the empty solution.
- RootFinders.Bisection: where the source loops forever (an exact root at the midpoint),
  the method returns `Hangs` with the unchanged loop state.
- RootFinders.Secant and RootFinders.NewtonRaphson: the string and `None` results are the
  cases of an outcome datatype.
- RootFinders.Secant: the `ZeroDivisionError` caught on a zero denominator is the
  `DivisionByZero` case.

## Findings

| source | as written | input that shows it | evidently intended | confidence | as-written member | corrected member |
|---|---|---|---|---|---|---|
| utils/solver.py:210-211 | an exact root at the midpoint executes `continue` without changing `x0`, `x1` or `iteracoes`, so the loop repeats forever | `f(x) = x`, `x0 = -1`, `x1 = 1`, `tol = 0.5`, `lim_iter = 1`: the first midpoint is 0 | return the midpoint as the root | not executed | RootFinders.BisectionHangsOnMidpointRoot | RootFinders.BisectLoopIntendedReport |
