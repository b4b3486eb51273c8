/** Systems of linear equations over exact reals: dot products, kernels, independent columns. */
module LinearAlgebra {

  type Vec = seq<real>
  type Matrix = seq<Vec>

  /** Every row has n entries. */
  predicate HasColumns(m: Matrix, n: nat) {
    forall k | 0 <= k < |m| :: |m[k]| == n
  }

  /** Sum of a[p] * x[p] over p < n. */
  function DotN(a: Vec, x: Vec, n: nat): real
    requires n <= |a| && n <= |x|
  {
    if n == 0 then 0.0 else DotN(a, x, n - 1) + a[n - 1] * x[n - 1]
  }

  function Dot(a: Vec, x: Vec): real
    requires |a| == |x|
  {
    DotN(a, x, |a|)
  }

  /** The dot product is the last of any sequence of partial sums. */
  lemma {:induction false} DotOfAnySums(a: Vec, x: Vec, sums: seq<real>, n: nat)
    requires |a| == |x| && |sums| == |a| + 1 && n <= |a| && sums[0] == 0.0
    requires forall p | 0 <= p < |a| :: sums[p + 1] == sums[p] + a[p] * x[p]
    ensures DotN(a, x, n) == sums[n]
  {
    if n == 0 {
    } else {
      DotOfAnySums(a, x, sums, n - 1);
      assert sums[n - 1 + 1] == sums[n];
    }
  }

  /** x solves m x = 0. Since m x is the sum of x[c] times column c, x is also a linear
      dependence between the columns of m. */
  predicate InKernel(m: Matrix, x: Vec)
    requires HasColumns(m, |x|)
  {
    forall k | 0 <= k < |m| :: Dot(m[k], x) == 0.0
  }

  predicate IsZero(x: Vec) {
    forall c | 0 <= c < |x| :: x[c] == 0.0
  }

  predicate SupportedOn(x: Vec, s: set<nat>) {
    forall c: nat | c < |x| && c !in s :: x[c] == 0.0
  }

  function Columns(n: nat): (s: set<nat>)
    ensures forall c: nat :: c in s <==> c < n
    ensures |s| == n
  {
    if n == 0 then {} else Columns(n - 1) + {n - 1}
  }

  /** The columns in s are linearly independent. */
  ghost predicate Independent(m: Matrix, n: nat, s: set<nat>)
    requires HasColumns(m, n)
  {
    forall x: Vec | |x| == n && SupportedOn(x, s) && InKernel(m, x) :: IsZero(x)
  }

  /** Column c is the combination of the columns in s with coefficients x. */
  predicate Combines(m: Matrix, x: Vec, s: set<nat>, c: nat)
    requires HasColumns(m, |x|) && c < |x|
  {
    SupportedOn(x, s) && forall k | 0 <= k < |m| :: Dot(m[k], x) == m[k][c]
  }

  ghost predicate Spans(m: Matrix, n: nat, s: set<nat>)
    requires HasColumns(m, n)
  {
    forall c: nat | c < n && c !in s :: exists x: Vec :: |x| == n && Combines(m, x, s, c)
  }

  /** r is the largest number of independent columns. */
  ghost predicate IsRank(m: Matrix, n: nat, r: nat)
    requires HasColumns(m, n)
  {
    && (exists s: set<nat> :: s <= Columns(n) && |s| == r && Independent(m, n, s))
    && (forall s: set<nat> | s <= Columns(n) && Independent(m, n, s) :: |s| <= r)
  }

  ghost predicate NonSingular(m: Matrix, n: nat)
    requires HasColumns(m, n)
  {
    forall x: Vec | |x| == n && InKernel(m, x) :: IsZero(x)
  }

  lemma RankIsUnique(m: Matrix, n: nat, r: nat, r': nat)
    requires HasColumns(m, n) && IsRank(m, n, r) && IsRank(m, n, r')
    ensures r == r'
  {
  }

  // ---- Dot products ----

  lemma {:induction false} DotSubtract(a: Vec, b: Vec, t: real, c: Vec, x: Vec, n: nat)
    requires n <= |a| == |b| == |c| == |x|
    requires forall p | 0 <= p < n :: c[p] == a[p] - b[p] * t
    ensures DotN(c, x, n) == DotN(a, x, n) - t * DotN(b, x, n)
  {
    if n == 0 {
    } else {
      DotSubtract(a, b, t, c, x, n - 1);
      var bt := b[n - 1];
      assert c[n - 1] * x[n - 1] == a[n - 1] * x[n - 1] - t * (bt * x[n - 1]);
    }
  }

  lemma {:induction false} DotDivide(a: Vec, d: real, c: Vec, x: Vec, n: nat)
    requires d != 0.0 && n <= |a| == |c| == |x|
    requires forall p | 0 <= p < n :: c[p] == a[p] / d
    ensures d * DotN(c, x, n) == DotN(a, x, n)
  {
    if n == 0 {
    } else {
      DotDivide(a, d, c, x, n - 1);
      assert d * c[n - 1] == a[n - 1];
      assert d * (c[n - 1] * x[n - 1]) == a[n - 1] * x[n - 1];
    }
  }

  lemma {:induction false} DotZero(a: Vec, x: Vec, n: nat)
    requires n <= |a| == |x|
    requires forall p | 0 <= p < n :: a[p] == 0.0 || x[p] == 0.0
    ensures DotN(a, x, n) == 0.0
  {
    if n == 0 {
    } else {
      DotZero(a, x, n - 1);
    }
  }

  lemma {:induction false} DotUpdate(a: Vec, x: Vec, p: nat, v: real, n: nat)
    requires p < |x| && n <= |a| == |x|
    ensures DotN(a, x[p := v], n) == DotN(a, x, n) + (if p < n then a[p] * (v - x[p]) else 0.0)
  {
    if n == 0 {
    } else {
      DotUpdate(a, x, p, v, n - 1);
    }
  }

  lemma DotSingle(a: Vec, x: Vec, q: nat)
    requires q < |a| == |x|
    requires forall p | 0 <= p < |a| && p != q :: a[p] == 0.0 || x[p] == 0.0
    ensures Dot(a, x) == a[q] * x[q]
  {
    var y := x[q := 0.0];
    DotZero(a, y, |a|);
    DotUpdate(a, y, q, x[q], |a|);
    assert y[q := x[q]] == x;
  }

  // ---- More unknowns than equations ----

  /** A homogeneous system with fewer equations than the unknowns in s has a non-zero solution on s. */
  lemma {:induction false} Underdetermined(m: Matrix, n: nat, s: set<nat>) returns (x: Vec)
    requires HasColumns(m, n) && s <= Columns(n) && |m| < |s|
    ensures |x| == n && SupportedOn(x, s) && InKernel(m, x) && !IsZero(x)
    decreases |m|
  {
    hide DotN;
    hide Cleared;
    if |m| == 0 {
      var c :| c in s;
      x := seq(n, _ => 0.0)[c := 1.0];
      assert x[c] == 1.0;
    } else if p: nat :| p in s && m[0][p] != 0.0 {
      var a := m[0];
      var rest := seq(|m| - 1, k requires 0 <= k < |m| - 1 => Cleared(m[k + 1], a, p));
      assert |s - {p}| == |s| - 1;
      var y := Underdetermined(rest, n, s - {p});
      x := y[p := -Dot(a, y) / a[p]];
      DotUpdate(a, y, p, x[p], n);
      assert Dot(a, x) == 0.0;
      forall k | 0 <= k < |m| ensures Dot(m[k], x) == 0.0 {
        if k > 0 {
          assert rest[k - 1] == Cleared(m[k], a, p);
          SolvesCleared(m[k], a, p, y, x);
        }
      }
      var c :| 0 <= c < n && y[c] != 0.0;
      assert x[c] != 0.0;
    } else {
      x := Underdetermined(m[1..], n, s);
      DotZero(m[0], x, n);
      forall k | 0 <= k < |m| ensures Dot(m[k], x) == 0.0 {
        if k > 0 {
          assert m[k] == m[1..][k - 1];
        }
      }
    }
  }

  /** b with unknown p eliminated by means of a. */
  function Cleared(b: Vec, a: Vec, p: nat): (c: Vec)
    requires p < |a| == |b| && a[p] != 0.0
    ensures |c| == |a|
  {
    seq(|a|, q requires 0 <= q < |a| => b[q] - a[q] * (b[p] / a[p]))
  }

  lemma SolvesCleared(b: Vec, a: Vec, p: nat, y: Vec, x: Vec)
    requires p < |a| == |b| == |y| && a[p] != 0.0 && y[p] == 0.0
    requires Dot(Cleared(b, a, p), y) == 0.0
    requires x == y[p := -Dot(a, y) / a[p]]
    ensures Dot(b, x) == 0.0
  {
    var t := b[p] / a[p];
    DotSubtract(b, a, t, Cleared(b, a, p), y, |a|);
    DotUpdate(b, y, p, x[p], |a|);
    assert b[p] * (-Dot(a, y) / a[p]) == -(t * Dot(a, y));
  }
}
