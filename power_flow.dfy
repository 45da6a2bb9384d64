/** The linearised (DC) power flow of `Flupot.linearizado` (utils/flupot.py).
    Buses and lines are records the source updates in place, so they are
    classes here: each bus is given its angle and each line its flow. The
    susceptance matrix is a fold of one four-entry stamp per line. */
module PowerFlow {
  import opened Vectors
  import opened Matrices
  import opened IterativeSolvers

  /** A bus record: its generation `PG (PU)` and the `ANGULO (GRAUS)` written back. */
  class Bus {
    const generation: real
    var angle: real

    constructor (generation: real)
      ensures this.generation == generation
    {
      this.generation := generation;
      angle := 0.0;
    }
  }

  /** A line record: its ends `DE` and `PARA` (numbered from 1), its
      reactance `x` and the `POTENCIA (PU)` written back. */
  class Line {
    const fromBus: int
    const toBus: int
    const reactance: real
    var flow: real

    constructor (fromBus: int, toBus: int, reactance: real)
      ensures this.fromBus == fromBus && this.toBus == toBus && this.reactance == reactance
    {
      this.fromBus := fromBus;
      this.toBus := toBus;
      this.reactance := reactance;
      flow := 0.0;
    }
  }

  /** The tolerance and sweep cap `gauss_seidel` is called with (its defaults). */
  const Tolerance: real := 0.00001
  const SweepLimit: int := 50

  /** What the assembly indexes and divides by: both ends name a bus and the
      reactance is non-zero. */
  predicate Wired(lines: seq<Line>, n: nat)
  {
    forall k :: 0 <= k < |lines| ==>
      1 <= lines[k].fromBus <= n && 1 <= lines[k].toBus <= n && lines[k].reactance != 0.0
  }

  /** `B[p][q] -= d`. */
  function Lower(m: Matrix, p: nat, q: nat, d: real): Matrix
    requires p < |m| && q < |m[p]|
  {
    m[p := m[p][q := m[p][q] - d]]
  }

  /** `B[p][q] += d`. */
  function Raise(m: Matrix, p: nat, q: nat, d: real): Matrix
    requires p < |m| && q < |m[p]|
  {
    m[p := m[p][q := m[p][q] + d]]
  }

  /** The four updates one line with ends `i`, `j` (from 0) and susceptance
      `s` makes, in the source's order. */
  function Stamp(m: Matrix, i: nat, j: nat, s: real): (r: Matrix)
    requires IsMatrix(m, |m|, |m|) && i < |m| && j < |m|
    ensures IsMatrix(r, |m|, |m|)
  {
    Raise(Raise(Lower(Lower(m, i, j, s), j, i, s), i, i, s), j, j, s)
  }

  /** The `B` the branch loop builds from a zero matrix. */
  function Assembled(lines: seq<Line>, n: nat): (b: Matrix)
    requires Wired(lines, n)
    ensures IsMatrix(b, n, n)
    decreases |lines|
  {
    if |lines| == 0 then seq(n, _ => Create(n, 0.0))
    else
      var l := lines[|lines| - 1];
      Stamp(Assembled(lines[..|lines| - 1], n), l.fromBus - 1, l.toBus - 1, 1.0 / l.reactance)
  }

  /** `separar_sistema(B)[0]`: every row without its last entry. */
  function Reduced(b: Matrix): Matrix
    requires forall i :: 0 <= i < |b| ==> |b[i]| > 0
  {
    SplitSystem(b).0
  }

  /** `[barra["PG (PU)"] for barra in dados_barras]`. */
  function Generation(buses: seq<Bus>): (p: Vector)
    ensures |p| == |buses|
  {
    seq(|buses|, i requires 0 <= i < |buses| => buses[i].generation)
  }

  /** The Gauss-Seidel system: the reduced `B` against `P[:-1]`. */
  function ReducedSystem(buses: seq<Bus>, lines: seq<Line>): (ab: (Matrix, Vector))
    requires Wired(lines, |buses|)
  {
    var p := Generation(buses);
    (Reduced(Assembled(lines, |buses|)), p[..Count(|p| - 1)])
  }

  /** Gauss-Seidel can run on the reduced system: every bus but the last has
      a non-zero diagonal entry. */
  predicate Solvable(buses: seq<Bus>, lines: seq<Line>)
  {
    Wired(lines, |buses|) && Ready(ReducedSystem(buses, lines).0, |ReducedSystem(buses, lines).1|)
  }

  /** `teta`: the Gauss-Seidel angles with the reference angle 0 appended. */
  function Angles(buses: seq<Bus>, lines: seq<Line>): Vector
    requires Solvable(buses, lines)
  {
    var (a, p) := ReducedSystem(buses, lines);
    SeidelRun(a, p, Tolerance, SweepLimit).x + [0.0]
  }

  /** `Pij = (teta[i-1] - teta[j-1]) / x`. */
  function Flow(theta: Vector, l: Line): real
    requires 1 <= l.fromBus <= |theta| && 1 <= l.toBus <= |theta| && l.reactance != 0.0
  {
    (theta[l.fromBus - 1] - theta[l.toBus - 1]) / l.reactance
  }

  /** Swapping the ends of a line negates its flow. */
  lemma FlowReversed(theta: Vector, l: Line, r: Line)
    requires 1 <= l.fromBus <= |theta| && 1 <= l.toBus <= |theta| && l.reactance != 0.0
    requires r.fromBus == l.toBus && r.toBus == l.fromBus && r.reactance == l.reactance
    ensures Flow(theta, r) == -Flow(theta, l)
  {
  }

  /** The angle vector has one entry per bus (at least the reference), and
      the last bus, the slack, has angle 0. */
  lemma AnglesShape(buses: seq<Bus>, lines: seq<Line>)
    requires Solvable(buses, lines)
    ensures |Angles(buses, lines)| == if |buses| == 0 then 1 else |buses|
    ensures Angles(buses, lines)[|Angles(buses, lines)| - 1] == 0.0
  {
    var (a, p) := ReducedSystem(buses, lines);
    SeidelRunReport(a, p, Tolerance, SweepLimit);
  }

  /** Lowering one entry changes only that entry. */
  lemma LowerEntry(m: Matrix, p: nat, q: nat, d: real, r: nat, c: nat)
    requires p < |m| && q < |m[p]| && r < |m| && c < |m[r]|
    ensures Lower(m, p, q, d)[r][c] == m[r][c] - (if r == p && c == q then d else 0.0)
  {
  }

  /** Raising one entry changes only that entry. */
  lemma RaiseEntry(m: Matrix, p: nat, q: nat, d: real, r: nat, c: nat)
    requires p < |m| && q < |m[p]| && r < |m| && c < |m[r]|
    ensures Raise(m, p, q, d)[r][c] == m[r][c] + (if r == p && c == q then d else 0.0)
  {
  }

  /** Entry `(r, c)` of a stamped matrix. */
  lemma StampEntry(m: Matrix, i: nat, j: nat, s: real, r: nat, c: nat)
    requires IsMatrix(m, |m|, |m|) && i < |m| && j < |m| && r < |m| && c < |m|
    ensures Stamp(m, i, j, s)[r][c] == m[r][c]
      - (if r == i && c == j then s else 0.0) - (if r == j && c == i then s else 0.0)
      + (if r == i && c == i then s else 0.0) + (if r == j && c == j then s else 0.0)
  {
    var m1 := Lower(m, i, j, s);
    var m2 := Lower(m1, j, i, s);
    var m3 := Raise(m2, i, i, s);
    LowerEntry(m, i, j, s, r, c);
    LowerEntry(m1, j, i, s, r, c);
    RaiseEntry(m2, i, i, s, r, c);
    RaiseEntry(m3, j, j, s, r, c);
  }

  predicate Symmetric(m: Matrix)
  {
    IsMatrix(m, |m|, |m|) && forall p, q :: 0 <= p < |m| && 0 <= q < |m| ==> m[p][q] == m[q][p]
  }

  /** A stamp keeps a matrix symmetric. */
  lemma StampSymmetric(m: Matrix, i: nat, j: nat, s: real)
    requires Symmetric(m) && i < |m| && j < |m|
    ensures Symmetric(Stamp(m, i, j, s))
  {
    forall p, q | 0 <= p < |m| && 0 <= q < |m|
      ensures Stamp(m, i, j, s)[p][q] == Stamp(m, i, j, s)[q][p]
    {
      StampEntry(m, i, j, s, p, q);
      StampEntry(m, i, j, s, q, p);
    }
  }

  /** The assembled susceptance matrix is symmetric. */
  lemma {:induction false} AssembledSymmetric(lines: seq<Line>, n: nat)
    requires Wired(lines, n)
    ensures Symmetric(Assembled(lines, n))
    decreases |lines|
  {
    if |lines| > 0 {
      var l := lines[|lines| - 1];
      AssembledSymmetric(lines[..|lines| - 1], n);
      StampSymmetric(Assembled(lines[..|lines| - 1], n), l.fromBus - 1, l.toBus - 1, 1.0 / l.reactance);
    }
  }

  /** How much of the incidence row `e_i - e_j` a stamp adds to row `r`. */
  function Coefficient(r: nat, i: nat, j: nat, s: real): real
  {
    (if r == i then s else 0.0) - (if r == j then s else 0.0)
  }

  /** Row `r` of a stamped matrix is row `r` before it with the coefficient
      added at `i` and taken away at `j`. */
  lemma StampRow(m: Matrix, i: nat, j: nat, s: real, r: nat)
    requires IsMatrix(m, |m|, |m|) && i < |m| && j < |m| && r < |m|
    ensures forall c :: 0 <= c < |m| ==>
      Stamp(m, i, j, s)[r][c] == m[r][c]
        + (if c == i then Coefficient(r, i, j, s) else 0.0) - (if c == j then Coefficient(r, i, j, s) else 0.0)
  {
    forall c | 0 <= c < |m|
      ensures Stamp(m, i, j, s)[r][c] == m[r][c]
        + (if c == i then Coefficient(r, i, j, s) else 0.0) - (if c == j then Coefficient(r, i, j, s) else 0.0)
    {
      StampEntry(m, i, j, s, r, c);
    }
  }

  /** The same row as two point updates: the coefficient at `i`, its
      negation at `j`, or no change at all for a line from a bus to itself. */
  lemma StampRowUpdates(m: Matrix, i: nat, j: nat, s: real, r: nat)
    requires IsMatrix(m, |m|, |m|) && i < |m| && j < |m| && r < |m|
    ensures var a := Coefficient(r, i, j, s);
      Stamp(m, i, j, s)[r] == if i == j then m[r] else m[r][i := m[r][i] + a][j := m[r][j] + -a]
  {
    var a := Coefficient(r, i, j, s);
    var w := if i == j then m[r] else m[r][i := m[r][i] + a][j := m[r][j] + -a];
    StampRow(m, i, j, s, r);
    assert forall c :: 0 <= c < |m| ==> Stamp(m, i, j, s)[r][c] == w[c];
  }

  /** The sum of a row's entries. */
  function Total(v: Vector): real
    decreases |v|
  {
    if |v| == 0 then 0.0 else Total(v[..|v| - 1]) + v[|v| - 1]
  }

  /** Adding `d` to one entry adds `d` to the sum. */
  lemma {:induction false} TotalBump(v: Vector, q: nat, d: real)
    requires q < |v|
    ensures Total(v[q := v[q] + d]) == Total(v) + d
    decreases |v|
  {
    var w := v[q := v[q] + d];
    if q == |v| - 1 {
      assert w[..|v| - 1] == v[..|v| - 1];
    } else {
      var u := v[..|v| - 1];
      assert w[..|v| - 1] == u[q := u[q] + d];
      TotalBump(u, q, d);
    }
  }

  /** A row of zeros sums to zero. */
  lemma {:induction false} TotalZero(n: nat)
    ensures Total(Create(n, 0.0)) == 0.0
  {
    if n > 0 {
      assert Create(n, 0.0)[..n - 1] == Create(n - 1, 0.0);
      TotalZero(n - 1);
    }
  }

  /** A stamp leaves every row sum as it was: what it adds at one end of the
      line it takes away at the other. */
  lemma StampRowTotal(m: Matrix, i: nat, j: nat, s: real, r: nat)
    requires IsMatrix(m, |m|, |m|) && i < |m| && j < |m| && r < |m|
    ensures Total(Stamp(m, i, j, s)[r]) == Total(m[r])
  {
    StampRowUpdates(m, i, j, s, r);
    if i != j {
      var a := Coefficient(r, i, j, s);
      TotalBump(m[r], i, a);
      TotalBump(m[r][i := m[r][i] + a], j, -a);
    }
  }

  /** Every row of the assembled `B` sums to zero. */
  lemma {:induction false} AssembledRowSums(lines: seq<Line>, n: nat, p: nat)
    requires Wired(lines, n) && p < n
    ensures Total(Assembled(lines, n)[p]) == 0.0
    decreases |lines|
  {
    if |lines| == 0 {
      TotalZero(n);
    } else {
      var l := lines[|lines| - 1];
      AssembledRowSums(lines[..|lines| - 1], n, p);
      StampRowTotal(Assembled(lines[..|lines| - 1], n), l.fromBus - 1, l.toBus - 1, 1.0 / l.reactance, p);
    }
  }

  /** The four in-place updates of one line with ends `i`, `j` (from 0) and
      susceptance `s`: `B[i][j] -= s`, `B[j][i] -= s`, `B[i][i] += s`,
      `B[j][j] += s`. */
  method StampInPlace(b: Matrix, i: nat, j: nat, s: real) returns (r: Matrix)
    requires IsMatrix(b, |b|, |b|) && i < |b| && j < |b|
    ensures r == Stamp(b, i, j, s)
  {
    r := b;
    r := r[i := r[i][j := r[i][j] - s]];
    ghost var r1 := r;
    r := r[j := r[j][i := r[j][i] - s]];
    ghost var r2 := r;
    r := r[i := r[i][i := r[i][i] + s]];
    ghost var r3 := r;
    r := r[j := r[j][j := r[j][j] + s]];
    assert r1 == Lower(b, i, j, s) && r2 == Lower(r1, j, i, s);
    assert r3 == Raise(r2, i, i, s) && r == Raise(r3, j, j, s);
  }

  /** One more line of the loop stamps one more line into `B`. */
  lemma AssembledNext(lines: seq<Line>, n: nat, k: nat)
    requires Wired(lines, n) && k < |lines|
    ensures Assembled(lines[..k + 1], n)
      == Stamp(Assembled(lines[..k], n), lines[k].fromBus - 1, lines[k].toBus - 1, 1.0 / lines[k].reactance)
  {
    assert lines[..k + 1][..k] == lines[..k];
  }

  /** The zero matrix the branch loop starts from is the fold of no lines. */
  lemma AssembledStart(lines: seq<Line>, n: nat, z: Matrix)
    requires Wired(lines, n) && IsMatrix(z, n, n)
    requires forall i, j :: 0 <= i < |z| && 0 <= j < |z[i]| ==> z[i][j] == 0.0
    ensures z == Assembled(lines[..0], n)
  {
    forall r | 0 <= r < n ensures z[r] == Create(n, 0.0) {
    }
  }

  /** The branch loop of `linearizado`: from a zero matrix, each line
      stamps `1/x` into `B`. */
  method Assemble(lines: seq<Line>, n: nat) returns (b: Matrix)
    requires Wired(lines, n)
    ensures b == Assembled(lines, n)
  {
    b := Zeros(n, n);
    AssembledStart(lines, n, b);
    for k := 0 to |lines|
      invariant b == Assembled(lines[..k], n)
    {
      var i, j, x := lines[k].fromBus, lines[k].toBus, lines[k].reactance;
      AssembledNext(lines, n, k);
      b := StampInPlace(b, i - 1, j - 1, 1.0 / x);
    }
    assert lines[..|lines|] == lines;
  }

  /** Writes `ANGULO (GRAUS)` onto each bus record. */
  method WriteAngles(buses: seq<Bus>, theta: Vector, degPerRad: real)
    requires |theta| >= |buses|
    requires forall i, j :: 0 <= i < j < |buses| ==> buses[i] != buses[j]
    modifies buses
    ensures forall i :: 0 <= i < |buses| ==> buses[i].angle == degPerRad * theta[i]
  {
    for i := 0 to |buses|
      invariant forall t :: 0 <= t < i ==> buses[t].angle == degPerRad * theta[t]
    {
      buses[i].angle := degPerRad * theta[i];
    }
  }

  /** Writes `POTENCIA (PU)` onto each line record. */
  method WriteFlows(lines: seq<Line>, theta: Vector)
    requires Wired(lines, |theta|)
    modifies lines
    ensures forall k :: 0 <= k < |lines| ==> lines[k].flow == Flow(theta, lines[k])
  {
    for k := 0 to |lines|
      invariant forall t :: 0 <= t < k ==> lines[t].flow == Flow(theta, lines[t])
    {
      var i, j, x := lines[k].fromBus, lines[k].toBus, lines[k].reactance;
      lines[k].flow := (theta[i - 1] - theta[j - 1]) / x;
    }
  }

  /** The solving half of `linearizado`: `P`, the assembled `B`, the reduced
      system, Gauss-Seidel on it and the reference angle 0 appended. */
  method SolveAngles(buses: seq<Bus>, lines: seq<Line>) returns (theta: Vector)
    requires Solvable(buses, lines)
    ensures theta == Angles(buses, lines)
  {
    var p := seq(|buses|, i requires 0 <= i < |buses| => buses[i].generation);
    var n := |p|;
    var b := Assemble(lines, n);
    var (a, _) := SplitSystem(b);
    p := p[..Count(n - 1)];
    var sweeps, converged;
    theta, sweeps, converged := GaussSeidel(a, p, Tolerance, SweepLimit);
    theta := theta + [0.0];
  }

  /** `Flupot.linearizado`: solves for the angles, then writes each bus's
      angle (converted by `degPerRad`, the `180/pi` of `Angulo.r2g`) and
      each line's flow onto the records. */
  method Linearized(buses: seq<Bus>, lines: seq<Line>, degPerRad: real) returns (theta: Vector)
    requires Solvable(buses, lines)
    requires forall i, j :: 0 <= i < j < |buses| ==> buses[i] != buses[j]
    modifies buses, lines
    ensures theta == Angles(buses, lines)
    ensures |theta| == if |buses| == 0 then 1 else |buses|
    ensures forall i :: 0 <= i < |buses| ==> buses[i].angle == degPerRad * theta[i]
    ensures forall k :: 0 <= k < |lines| ==> lines[k].flow == Flow(theta, lines[k])
  {
    theta := SolveAngles(buses, lines);
    AnglesShape(buses, lines);
    WriteAngles(buses, theta, degPerRad);
    WriteFlows(lines, theta);
  }
}
