/** Dense vectors over exact reals: the `Vetor` helpers of utils/algebra.py.
    Binary operations pair entries the way Python's `zip` does, so they work
    over the shorter of their two operands. */
module Vectors {

  type Vector = seq<real>

  /** The length Python gives `[v] * n` or `range(n)`: a negative count is zero. */
  function Count(n: int): nat
  {
    if n < 0 then 0 else n
  }

  function Min(a: nat, b: nat): nat
  {
    if a <= b then a else b
  }

  function Abs(x: real): real
  {
    if x < 0.0 then -x else x
  }

  function Max(a: real, b: real): real
  {
    if a < b then b else a
  }

  /** `Vetor.criar(n, v)`: `n` copies of `v`. */
  function Create(n: int, v: real): (r: Vector)
    ensures |r| == Count(n)
    ensures forall i :: 0 <= i < |r| ==> r[i] == v
  {
    seq(Count(n), _ => v)
  }

  /** `Vetor.soma`: entry-wise sum over the common length. */
  function Add(a: Vector, b: Vector): (r: Vector)
    ensures |r| == Min(|a|, |b|)
    ensures forall i :: 0 <= i < |r| ==> r[i] == a[i] + b[i]
  {
    seq(Min(|a|, |b|), i requires 0 <= i < Min(|a|, |b|) => a[i] + b[i])
  }

  /** `Vetor.subtracao`: entry-wise difference over the common length. */
  function Sub(a: Vector, b: Vector): (r: Vector)
    ensures |r| == Min(|a|, |b|)
    ensures forall i :: 0 <= i < |r| ==> r[i] == a[i] - b[i]
  {
    seq(Min(|a|, |b|), i requires 0 <= i < Min(|a|, |b|) => a[i] - b[i])
  }

  /** `Vetor.multiplicar_por_escalar`. */
  function Scale(v: Vector, s: real): (r: Vector)
    ensures |r| == |v|
    ensures forall i :: 0 <= i < |r| ==> r[i] == v[i] * s
  {
    seq(|v|, i requires 0 <= i < |v| => v[i] * s)
  }

  /** `Vetor.produto_escalar`: the sum of `a[i] * b[i]` over the common
      length, accumulated left to right as Python's `sum` does. */
  function Dot(a: Vector, b: Vector): (r: real)
    ensures Min(|a|, |b|) == 0 ==> r == 0.0
  {
    DotUpTo(a, b, Min(|a|, |b|))
  }

  /** The sum of the first `n` products `a[i] * b[i]`. */
  function DotUpTo(a: Vector, b: Vector, n: nat): real
    requires n <= |a| && n <= |b|
  {
    if n == 0 then 0.0 else DotUpTo(a, b, n - 1) + a[n - 1] * b[n - 1]
  }

  /** `Vetor.norma_infinita`: the largest absolute entry. Python's `max` of
      an empty generator raises, hence the precondition. */
  function NormInf(v: Vector): (r: real)
    requires |v| > 0
    ensures forall i :: 0 <= i < |v| ==> Abs(v[i]) <= r
    ensures exists k :: 0 <= k < |v| && r == Abs(v[k])
  {
    if |v| == 1 then Abs(v[0])
    else
      var rest := NormInf(v[..|v| - 1]);
      assert forall i :: 0 <= i < |v| - 1 ==> v[..|v| - 1][i] == v[i];
      Max(rest, Abs(v[|v| - 1]))
  }

  /** The infinity norm vanishes exactly on the zero vector. */
  lemma NormInfZero(v: Vector)
    requires |v| > 0
    ensures NormInf(v) == 0.0 <==> forall i :: 0 <= i < |v| ==> v[i] == 0.0
  {
    if NormInf(v) == 0.0 {
      forall i | 0 <= i < |v| ensures v[i] == 0.0 {
        assert Abs(v[i]) <= 0.0;
      }
    }
  }

  /** A partial dot product reads only the entries below `n`. */
  lemma {:induction false} DotUpToAgree(a: Vector, b: Vector, a': Vector, b': Vector, n: nat)
    requires n <= |a| && n <= |b| && n <= |a'| && n <= |b'|
    requires forall i :: 0 <= i < n ==> a[i] == a'[i] && b[i] == b'[i]
    ensures DotUpTo(a, b, n) == DotUpTo(a', b', n)
  {
    if n > 0 {
      DotUpToAgree(a, b, a', b', n - 1);
    }
  }

  /** The dot product of two prefixes of length `k` is the partial sum up to `k`. */
  lemma DotPrefix(a: Vector, b: Vector, k: nat)
    requires k <= |a| && k <= |b|
    ensures Dot(a[..k], b[..k]) == DotUpTo(a, b, k)
  {
    DotUpToAgree(a[..k], b[..k], a, b, k);
  }

  /** Only the common prefix takes part in a dot product (the `zip` rule). */
  lemma DotTruncate(a: Vector, b: Vector)
    ensures Dot(a, b) == Dot(a[..Min(|a|, |b|)], b[..Min(|a|, |b|)])
  {
    DotPrefix(a, b, Min(|a|, |b|));
  }

  /** A partial sum splits at any `k` below `n` into a head and a shifted tail. */
  lemma {:induction false} DotUpToSplit(a: Vector, b: Vector, k: nat, n: nat)
    requires k <= n <= |a| && n <= |b|
    ensures DotUpTo(a, b, n) == DotUpTo(a, b, k) + DotUpTo(a[k..], b[k..], n - k)
  {
    if n > k {
      DotUpToSplit(a, b, k, n - 1);
      assert a[k..][n - 1 - k] == a[n - 1] && b[k..][n - 1 - k] == b[n - 1];
    }
  }

  /** A dot product splits at any index within the common length. */
  lemma DotSplit(a: Vector, b: Vector, k: nat)
    requires k <= |a| && k <= |b|
    ensures Dot(a, b) == Dot(a[..k], b[..k]) + Dot(a[k..], b[k..])
  {
    var m := Min(|a|, |b|);
    DotUpToSplit(a, b, k, m);
    DotPrefix(a, b, k);
    assert Min(|a[k..]|, |b[k..]|) == m - k;
  }

  /** Peeling the first pair off a dot product. */
  lemma DotFront(a: Vector, b: Vector)
    requires |a| > 0 && |b| > 0
    ensures Dot(a, b) == a[0] * b[0] + Dot(a[1..], b[1..])
  {
    DotSplit(a, b, 1);
    DotOne(a, b);
  }

  /** A dot product of one-entry prefixes is one product. */
  lemma DotOne(a: Vector, b: Vector)
    requires |a| > 0 && |b| > 0
    ensures Dot(a[..1], b[..1]) == a[0] * b[0]
  {
    DotPrefix(a, b, 1);
  }

  /** Extending both operands by one entry adds one product. */
  lemma DotSnoc(a: Vector, b: Vector, k: nat)
    requires k < |a| && k < |b|
    ensures Dot(a[..k + 1], b[..k + 1]) == Dot(a[..k], b[..k]) + a[k] * b[k]
  {
    DotPrefix(a, b, k + 1);
    DotPrefix(a, b, k);
  }

  /** `DotSnoc` for slices that start at `lo`. */
  lemma DotSliceSnoc(a: Vector, b: Vector, lo: nat, hi: nat)
    requires lo <= hi < |a| && hi < |b|
    ensures Dot(a[lo..hi + 1], b[lo..hi + 1]) == Dot(a[lo..hi], b[lo..hi]) + a[hi] * b[hi]
  {
    var s, t := a[lo..hi + 1], b[lo..hi + 1];
    DotSnoc(s, t, hi - lo);
    assert s[..hi - lo + 1] == s && t[..hi - lo + 1] == t;
    assert s[..hi - lo] == a[lo..hi] && t[..hi - lo] == b[lo..hi];
  }

  /** Vectors that agree below `k` have equal prefixes up to `k`. */
  lemma PrefixesAgree(x: Vector, y: Vector, k: nat)
    requires k <= |x| && k <= |y|
    requires forall t :: 0 <= t < k ==> x[t] == y[t]
    ensures forall r :: 0 <= r <= k ==> x[..r] == y[..r]
  {
    forall r | 0 <= r <= k ensures x[..r] == y[..r] {
      assert forall t :: 0 <= t < r ==> x[..r][t] == y[..r][t];
    }
  }

  /** Vectors of one length that agree above `k` have equal suffixes from there. */
  lemma SuffixesAgree(x: Vector, y: Vector, k: nat)
    requires |x| == |y|
    requires forall t :: k < t < |x| ==> x[t] == y[t]
    ensures forall r :: k < r <= |x| ==> x[r..] == y[r..]
  {
    forall r | k < r <= |x| ensures x[r..] == y[r..] {
      assert forall t :: 0 <= t < |x| - r ==> x[r..][t] == y[r..][t];
    }
  }

  /** `DotFront` for suffixes that start at `k`. */
  lemma DotSuffixFront(a: Vector, b: Vector, k: nat)
    requires k < |a| && k < |b|
    ensures Dot(a[k..], b[k..]) == a[k] * b[k] + Dot(a[k + 1..], b[k + 1..])
  {
    DotFront(a[k..], b[k..]);
    assert a[k..][1..] == a[k + 1..] && b[k..][1..] == b[k + 1..];
  }

  /** The dot product is symmetric. */
  lemma DotSymmetric(a: Vector, b: Vector)
    ensures Dot(a, b) == Dot(b, a)
  {
    DotUpToSymmetric(a, b, Min(|a|, |b|));
  }

  lemma {:induction false} DotUpToSymmetric(a: Vector, b: Vector, n: nat)
    requires n <= |a| && n <= |b|
    ensures DotUpTo(a, b, n) == DotUpTo(b, a, n)
  {
    if n > 0 {
      DotUpToSymmetric(a, b, n - 1);
    }
  }

  /** A vector that is zero on the common length contributes nothing. */
  lemma DotZero(a: Vector, b: Vector)
    requires forall i :: 0 <= i < |a| && i < |b| ==> a[i] == 0.0
    ensures Dot(a, b) == 0.0
  {
    DotUpToZero(a, b, Min(|a|, |b|));
  }

  lemma {:induction false} DotUpToZero(a: Vector, b: Vector, n: nat)
    requires n <= |a| && n <= |b|
    requires forall i :: 0 <= i < n ==> a[i] == 0.0
    ensures DotUpTo(a, b, n) == 0.0
  {
    if n > 0 {
      DotUpToZero(a, b, n - 1);
    }
  }

  /** A vector whose only non-zero entry within the common length is at `p`
      picks out one product. */
  lemma DotSingle(a: Vector, b: Vector, p: nat)
    requires p < |a| && p < |b|
    requires forall i :: 0 <= i < |a| && i < |b| && i != p ==> a[i] == 0.0
    ensures Dot(a, b) == a[p] * b[p]
  {
    DotSingleSuffix(a, b, p);
    DotZero(a[..p], b[..p]);
    DotSplit(a, b, p);
  }

  /** From `p` on, only entry `p` is non-zero: the suffix picks out one product. */
  lemma DotSingleSuffix(a: Vector, b: Vector, p: nat)
    requires p < |a| && p < |b|
    requires forall i :: p < i < |a| && i < |b| ==> a[i] == 0.0
    ensures Dot(a[p..], b[p..]) == a[p] * b[p]
  {
    var ta, tb := a[p..], b[p..];
    DotFront(ta, tb);
    var ra, rb := ta[1..], tb[1..];
    forall i | 0 <= i < |ra| && i < |rb| ensures ra[i] == 0.0 {
      assert ra[i] == a[p + 1 + i];
    }
    DotZero(ra, rb);
  }

  /** Linearity: if `d = a + l * c` entry-wise then `d . x = a . x + l * (c . x)`. */
  lemma DotCombine(d: Vector, a: Vector, c: Vector, l: real, x: Vector)
    requires |d| == |a| == |c|
    requires forall j :: 0 <= j < |d| ==> d[j] == a[j] + l * c[j]
    ensures Dot(d, x) == Dot(a, x) + l * Dot(c, x)
  {
    DotUpToCombine(d, a, c, l, x, Min(|d|, |x|));
  }

  lemma {:induction false} DotUpToCombine(d: Vector, a: Vector, c: Vector, l: real, x: Vector, n: nat)
    requires n <= |d| == |a| == |c| && n <= |x|
    requires forall j :: 0 <= j < |d| ==> d[j] == a[j] + l * c[j]
    ensures DotUpTo(d, x, n) == DotUpTo(a, x, n) + l * DotUpTo(c, x, n)
  {
    if n > 0 {
      DotUpToCombine(d, a, c, l, x, n - 1);
      assert d[n - 1] * x[n - 1] == a[n - 1] * x[n - 1] + l * (c[n - 1] * x[n - 1]);
    }
  }

  /** Scaling one operand scales the dot product. */
  lemma DotScale(a: Vector, s: real, b: Vector)
    ensures Dot(Scale(a, s), b) == s * Dot(a, b)
  {
    var z := Create(|a|, 0.0);
    DotCombine(Scale(a, s), z, a, s, b);
    DotZero(z, b);
  }

  /** Dot products with equal vectors are equal (entry-wise, on the common length). */
  lemma DotCongruent(a: Vector, b: Vector, a': Vector, b': Vector)
    requires |a| == |a'| && |b| == |b'|
    requires forall i :: 0 <= i < |a| && i < |b| ==> a[i] == a'[i] && b[i] == b'[i]
    ensures Dot(a, b) == Dot(a', b')
  {
    DotUpToAgree(a, b, a', b', Min(|a|, |b|));
  }

  /** Subtracting what was added gives back the (truncated) first operand. */
  lemma SubAfterAdd(a: Vector, b: Vector)
    ensures Sub(Add(a, b), b) == a[..Min(|a|, |b|)]
  {
  }

  /** The zero vector is neutral for addition. */
  lemma AddZero(a: Vector)
    ensures Add(a, Create(|a|, 0.0)) == a
  {
  }
}
