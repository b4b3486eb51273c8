/** Textbook Gauss-Jordan elimination with the pivot choice of Matrix::compute_rank,
    rewriting whole rows, and what it says about the rank of a matrix. */
module GaussJordan {
  import opened LinearAlgebra

  /** The rows after some columns have been processed; pivots[c] is the row chosen for column c,
      or the number of rows when there was none. */
  datatype Elimination = Elimination(rows: Matrix, selected: seq<bool>, pivots: seq<nat>)

  predicate IsSquare(m: Matrix, n: nat) {
    |m| == n && HasColumns(m, n)
  }

  /** First row from j on that is not selected and has a non-zero entry in column i. */
  function FirstRow(rows: Matrix, selected: seq<bool>, i: nat, j: nat): (r: nat)
    requires IsSquare(rows, |rows|) && |selected| == |rows| && i < |rows| && j <= |rows|
    ensures j <= r <= |rows|
    ensures r < |rows| ==> !selected[r] && rows[r][i] != 0.0
    ensures forall k | j <= k < r :: selected[k] || rows[k][i] == 0.0
    decreases |rows| - j
  {
    if j == |rows| || (!selected[j] && rows[j][i] != 0.0) then j else FirstRow(rows, selected, i, j + 1)
  }

  function Divided(a: Vec, d: real): (c: Vec)
    requires d != 0.0
    ensures |c| == |a|
  {
    seq(|a|, p requires 0 <= p < |a| => a[p] / d)
  }

  function Subtracted(a: Vec, b: Vec, t: real): (c: Vec)
    requires |a| == |b|
    ensures |c| == |a|
  {
    seq(|a|, p requires 0 <= p < |a| => a[p] - b[p] * t)
  }

  /** Makes column i the unit vector of row j. */
  function Pivot(rows: Matrix, j: nat, i: nat): (r: Matrix)
    requires IsSquare(rows, |rows|) && i < |rows| && j < |rows| && rows[j][i] != 0.0
    ensures IsSquare(r, |rows|)
  {
    var unit := Divided(rows[j], rows[j][i]);
    seq(|rows|, k requires 0 <= k < |rows| => if k == j then unit else Subtracted(rows[k], unit, rows[k][i]))
  }

  /** The elimination after the first i columns. */
  function Eliminated(m: Matrix, i: nat): (e: Elimination)
    requires IsSquare(m, |m|) && i <= |m|
    ensures IsSquare(e.rows, |m|) && |e.selected| == |m| && |e.pivots| == i
  {
    if i == 0 then
      Elimination(m, seq(|m|, _ => false), [])
    else
      var e := Eliminated(m, i - 1);
      var j := FirstRow(e.rows, e.selected, i - 1, 0);
      if j == |m| then
        Elimination(e.rows, e.selected, e.pivots + [j])
      else
        Elimination(Pivot(e.rows, j, i - 1), e.selected[j := true], e.pivots + [j])
  }

  function PivotColumns(e: Elimination): (s: set<nat>)
    ensures forall c: nat :: c in s <==> c < |e.pivots| && e.pivots[c] < |e.rows|
  {
    PivotsBefore(e, |e.pivots|)
  }

  function PivotsBefore(e: Elimination, i: nat): (s: set<nat>)
    requires i <= |e.pivots|
    ensures forall c: nat :: c in s <==> c < i && e.pivots[c] < |e.rows|
  {
    set c: nat | c < i && e.pivots[c] < |e.rows|
  }

  ghost predicate SameKernel(m: Matrix, r: Matrix, n: nat)
    requires HasColumns(m, n) && HasColumns(r, n)
  {
    forall x: Vec | |x| == n :: InKernel(m, x) <==> InKernel(r, x)
  }

  predicate UnitColumn(rows: Matrix, c: nat, r: nat)
    requires HasColumns(rows, |rows|) && c < |rows|
  {
    forall k | 0 <= k < |rows| :: rows[k][c] == if k == r then 1.0 else 0.0
  }

  predicate FreeOf(rows: Matrix, c: nat, selected: seq<bool>)
    requires HasColumns(rows, |rows|) && c < |rows| && |selected| == |rows|
  {
    forall k | 0 <= k < |rows| && !selected[k] :: rows[k][c] == 0.0
  }

  /** Which row belongs to which column: every pivot row is selected and vice versa. */
  ghost predicate Matched(selected: seq<bool>, pivots: seq<nat>) {
    && (forall c: nat | c < |pivots| :: pivots[c] <= |selected|)
    && (forall c: nat | c < |pivots| && pivots[c] < |selected| :: selected[pivots[c]])
    && (forall c: nat, d: nat | c < d < |pivots| && pivots[c] < |selected| :: pivots[c] != pivots[d])
    && (forall r: nat | r < |selected| && selected[r] :: r in pivots)
  }

  /** What every step keeps: pivot columns are unit vectors, other processed columns vanish on the
      rows still free, and the solutions of m x = 0 stay the same. */
  ghost predicate Reduced(m: Matrix, e: Elimination) {
    && IsSquare(m, |m|) && IsSquare(e.rows, |m|) && |e.selected| == |m| && |e.pivots| <= |m|
    && Matched(e.selected, e.pivots)
    && (forall c: nat | c < |e.pivots| && e.pivots[c] < |m| :: UnitColumn(e.rows, c, e.pivots[c]))
    && (forall c: nat | c < |e.pivots| && e.pivots[c] == |m| :: FreeOf(e.rows, c, e.selected))
    && SameKernel(m, e.rows, |m|)
  }

  lemma PivotEntry(rows: Matrix, j: nat, i: nat, k: nat, c: nat)
    requires IsSquare(rows, |rows|) && i < |rows| && j < |rows| && rows[j][i] != 0.0
    requires k < |rows| && c < |rows|
    ensures var r := Pivot(rows, j, i);
      r[k][c] == if k == j then rows[j][c] / rows[j][i] else rows[k][c] - r[j][c] * rows[k][i]
  {
  }

  lemma PivotRow(rows: Matrix, j: nat, i: nat, k: nat)
    requires IsSquare(rows, |rows|) && i < |rows| && j < |rows| && rows[j][i] != 0.0 && k < |rows|
    ensures var r := Pivot(rows, j, i);
      r[k] == if k == j then Divided(rows[j], rows[j][i]) else Subtracted(rows[k], r[j], rows[k][i])
  {
  }

  lemma DotOfDivided(a: Vec, d: real, x: Vec)
    requires d != 0.0 && |a| == |x|
    ensures d * Dot(Divided(a, d), x) == Dot(a, x)
  {
    DotDivide(a, d, Divided(a, d), x, |a|);
  }

  lemma DotOfSubtracted(a: Vec, b: Vec, t: real, x: Vec)
    requires |a| == |b| == |x|
    ensures Dot(Subtracted(a, b, t), x) == Dot(a, x) - t * Dot(b, x)
  {
    DotSubtract(a, b, t, Subtracted(a, b, t), x, |a|);
  }

  lemma PivotDots(rows: Matrix, j: nat, i: nat, x: Vec, k: nat)
    requires IsSquare(rows, |rows|) && i < |rows| && j < |rows| && rows[j][i] != 0.0 && |x| == |rows|
    requires k < |rows|
    ensures var r := Pivot(rows, j, i);
      if k == j then rows[j][i] * Dot(r[j], x) == Dot(rows[j], x)
      else Dot(r[k], x) == Dot(rows[k], x) - rows[k][i] * Dot(r[j], x)
  {
    PivotRow(rows, j, i, k);
    hide Pivot;
    hide Dot;
    hide Divided;
    hide Subtracted;
    if k == j {
      DotOfDivided(rows[j], rows[j][i], x);
    } else {
      DotOfSubtracted(rows[k], Pivot(rows, j, i)[j], rows[k][i], x);
    }
  }

  lemma PivotKeepsKernel(rows: Matrix, j: nat, i: nat, x: Vec)
    requires IsSquare(rows, |rows|) && i < |rows| && j < |rows| && rows[j][i] != 0.0 && |x| == |rows|
    ensures InKernel(rows, x) <==> InKernel(Pivot(rows, j, i), x)
  {
    hide Dot;
    var r := Pivot(rows, j, i);
    hide Pivot;
    PivotDots(rows, j, i, x, j);
    assert Dot(r[j], x) == 0.0 <==> Dot(rows[j], x) == 0.0;
    if Dot(r[j], x) == 0.0 {
      forall k: nat | k < |rows| ensures Dot(r[k], x) == 0.0 <==> Dot(rows[k], x) == 0.0 {
        PivotDots(rows, j, i, x, k);
      }
    }
  }

  /** A column that is zero in the pivot row is not touched. */
  lemma PivotKeepsColumn(rows: Matrix, j: nat, i: nat, c: nat, k: nat)
    requires IsSquare(rows, |rows|) && i < |rows| && j < |rows| && rows[j][i] != 0.0
    requires c < |rows| && k < |rows| && rows[j][c] == 0.0
    ensures Pivot(rows, j, i)[k][c] == rows[k][c]
  {
    PivotEntry(rows, j, i, j, c);
    PivotEntry(rows, j, i, k, c);
    hide Pivot;
  }

  lemma PivotMakesUnit(rows: Matrix, j: nat, i: nat)
    requires IsSquare(rows, |rows|) && i < |rows| && j < |rows| && rows[j][i] != 0.0
    ensures UnitColumn(Pivot(rows, j, i), i, j)
  {
    forall k: nat | k < |rows| ensures Pivot(rows, j, i)[k][i] == if k == j then 1.0 else 0.0 {
      PivotEntry(rows, j, i, j, i);
      PivotEntry(rows, j, i, k, i);
      hide Pivot;
    }
  }

  lemma KernelStep(m: Matrix, rows: Matrix, j: nat, i: nat)
    requires IsSquare(m, |m|) && IsSquare(rows, |m|) && SameKernel(m, rows, |m|)
    requires i < |rows| && j < |rows| && rows[j][i] != 0.0
    ensures SameKernel(m, Pivot(rows, j, i), |m|)
  {
    hide Pivot;
    hide InKernel;
    forall x: Vec | |x| == |m| ensures InKernel(m, x) <==> InKernel(Pivot(rows, j, i), x) {
      PivotKeepsKernel(rows, j, i, x);
    }
  }

  /** The columns already processed keep their form. */
  lemma ProcessedColumnKept(m: Matrix, e: Elimination, j: nat, i: nat, c: nat)
    requires Reduced(m, e) && i < |m| && j < |m| && !e.selected[j] && e.rows[j][i] != 0.0
    requires c < |e.pivots|
    ensures e.pivots[c] < |m| ==> UnitColumn(Pivot(e.rows, j, i), c, e.pivots[c])
    ensures e.pivots[c] == |m| ==> FreeOf(Pivot(e.rows, j, i), c, e.selected[j := true])
  {
    PivotRowVanishes(m, e, j, c);
    forall k: nat | k < |m| ensures Pivot(e.rows, j, i)[k][c] == e.rows[k][c] {
      PivotKeepsColumn(e.rows, j, i, c, k);
    }
    hide Pivot;
    hide SameKernel;
  }

  lemma PivotStep(m: Matrix, e: Elimination, j: nat)
    requires |e.pivots| < |m| && Reduced(m, e)
    requires j < |m| && !e.selected[j] && e.rows[j][|e.pivots|] != 0.0
    ensures Reduced(m, Elimination(Pivot(e.rows, j, |e.pivots|), e.selected[j := true], e.pivots + [j]))
  {
    var i := |e.pivots|;
    var rows, selected, pivots := Pivot(e.rows, j, i), e.selected[j := true], e.pivots + [j];
    KernelStep(m, e.rows, j, i);
    PivotMakesUnit(e.rows, j, i);
    MatchedStep(e.selected, e.pivots, j, selected, pivots);
    forall c: nat | c < i
      ensures e.pivots[c] < |m| ==> UnitColumn(rows, c, e.pivots[c])
      ensures e.pivots[c] == |m| ==> FreeOf(rows, c, selected)
    {
      ProcessedColumnKept(m, e, j, i, c);
    }
    ExtendsReduced(m, e, rows, selected, j);
  }

  lemma ExtendsReduced(m: Matrix, e: Elimination, rows: Matrix, selected: seq<bool>, j: nat)
    requires |e.pivots| < |m| && Reduced(m, e) && IsSquare(rows, |m|) && |selected| == |m| && j < |m|
    requires Matched(selected, e.pivots + [j]) && SameKernel(m, rows, |m|)
    requires UnitColumn(rows, |e.pivots|, j)
    requires forall c: nat | c < |e.pivots| && e.pivots[c] < |m| :: UnitColumn(rows, c, e.pivots[c])
    requires forall c: nat | c < |e.pivots| && e.pivots[c] == |m| :: FreeOf(rows, c, selected)
    ensures Reduced(m, Elimination(rows, selected, e.pivots + [j]))
  {
    hide SameKernel;
    hide Matched;
    hide UnitColumn;
    hide FreeOf;
    var p := e.pivots + [j];
    assert forall c: nat | c < |e.pivots| :: p[c] == e.pivots[c];
  }

  lemma PivotRowVanishes(m: Matrix, e: Elimination, j: nat, c: nat)
    requires Reduced(m, e) && j < |m| && !e.selected[j] && c < |e.pivots|
    ensures e.rows[j][c] == 0.0
  {
    hide SameKernel;
    assert e.pivots[c] <= |m|;
    assert e.pivots[c] < |m| ==> UnitColumn(e.rows, c, e.pivots[c]) && e.selected[e.pivots[c]];
    assert e.pivots[c] == |m| ==> FreeOf(e.rows, c, e.selected);
  }

  lemma MatchedStep(selected: seq<bool>, pivots: seq<nat>, j: nat, s: seq<bool>, p: seq<nat>)
    requires Matched(selected, pivots) && j < |selected| && !selected[j]
    requires s == selected[j := true] && p == pivots + [j]
    ensures Matched(s, p)
  {
    assert p[|pivots|] == j;
    forall c: nat | c < |p| ensures p[c] <= |s| && (p[c] < |s| ==> s[p[c]]) {
      assert c < |pivots| ==> p[c] == pivots[c] && (pivots[c] < |s| ==> selected[pivots[c]]);
    }
    forall c: nat, d: nat | c < d < |p| && p[c] < |s| ensures p[c] != p[d] {
      assert p[c] == pivots[c] && selected[pivots[c]];
      assert d < |pivots| ==> p[d] == pivots[d];
    }
    forall r: nat | r < |s| && s[r] ensures r in p {
      assert r != j ==> selected[r] && r in pivots;
    }
  }

  lemma NoPivotStep(m: Matrix, e: Elimination)
    requires |e.pivots| < |m| && Reduced(m, e)
    requires FreeOf(e.rows, |e.pivots|, e.selected)
    ensures Reduced(m, Elimination(e.rows, e.selected, e.pivots + [|m|]))
  {
    hide SameKernel;
    hide FreeOf;
    hide UnitColumn;
    var p := e.pivots + [|m|];
    assert forall r | r in e.pivots :: r in p;
  }

  lemma StartIsReduced(m: Matrix)
    requires IsSquare(m, |m|)
    ensures Reduced(m, Eliminated(m, 0))
  {
    hide InKernel;
  }

  lemma {:induction false} EliminatedIsReduced(m: Matrix, i: nat)
    requires IsSquare(m, |m|) && i <= |m|
    ensures Reduced(m, Eliminated(m, i))
  {
    hide Reduced;
    hide Pivot;
    hide FirstRow;
    if i == 0 {
      StartIsReduced(m);
    } else {
      EliminatedIsReduced(m, i - 1);
      var e := Eliminated(m, i - 1);
      var j := FirstRow(e.rows, e.selected, i - 1, 0);
      if j < |m| {
        PivotStep(m, e, j);
      } else {
        NoPivotStep(m, e);
      }
    }
  }

  // ---- The columns with a pivot are a basis of the column space ----

  ghost predicate Finished(m: Matrix, e: Elimination) {
    Reduced(m, e) && |e.pivots| == |m|
  }

  lemma PivotsIndependent(m: Matrix, e: Elimination)
    requires Finished(m, e)
    ensures Independent(m, |m|, PivotColumns(e))
  {
    forall x: Vec | |x| == |m| && SupportedOn(x, PivotColumns(e)) && InKernel(m, x) ensures IsZero(x) {
      assert InKernel(e.rows, x);
      forall c: nat | c < |x| ensures x[c] == 0.0 {
        if c in PivotColumns(e) {
          PivotRowReads(m, e, x, c);
          assert Dot(e.rows[e.pivots[c]], x) == 0.0;
        }
      }
    }
  }

  /** On a vector supported on the pivot columns, the row of a pivot reads off its entry. */
  lemma PivotRowReads(m: Matrix, e: Elimination, x: Vec, c: nat)
    requires Finished(m, e) && |x| == |m| && SupportedOn(x, PivotColumns(e))
    requires c in PivotColumns(e)
    ensures Dot(e.rows[e.pivots[c]], x) == x[c]
  {
    hide SameKernel;
    var a := e.rows[e.pivots[c]];
    forall p: nat | p < |a| && p != c ensures a[p] == 0.0 || x[p] == 0.0 {
      if p in PivotColumns(e) {
        assert UnitColumn(e.rows, p, e.pivots[p]);
        assert e.pivots[p] != e.pivots[c] by {
          assert p < c || c < p;
        }
      }
    }
    assert UnitColumn(e.rows, c, e.pivots[c]);
    DotSingle(a, x, c);
  }

  /** The coefficients that make column c out of the pivot columns. */
  function Coefficients(e: Elimination, c: nat): (x: Vec)
    requires HasColumns(e.rows, |e.rows|) && |e.pivots| == |e.rows| && c < |e.rows|
    ensures |x| == |e.rows|
  {
    seq(|e.rows|, p requires 0 <= p < |e.rows| => if e.pivots[p] < |e.rows| then e.rows[e.pivots[p]][c] else 0.0)
  }

  lemma RowCombines(m: Matrix, e: Elimination, c: nat, k: nat)
    requires Finished(m, e) && c < |m| && k < |m| && e.pivots[c] == |m|
    ensures Dot(e.rows[k], Coefficients(e, c)) == e.rows[k][c]
  {
    hide SameKernel;
    var x := Coefficients(e, c);
    if e.selected[k] {
      assert k in e.pivots;
      var q :| 0 <= q < |e.pivots| && e.pivots[q] == k;
      PivotRowReads(m, e, x, q);
    } else {
      forall p: nat | p < |m| ensures e.rows[k][p] == 0.0 {
        assert e.pivots[p] < |m| ==> UnitColumn(e.rows, p, e.pivots[p]);
        assert e.pivots[p] == |m| ==> FreeOf(e.rows, p, e.selected);
      }
      DotZero(e.rows[k], x, |m|);
    }
  }

  /** A column without a pivot gives an explicit non-zero solution of m x = 0. */
  lemma NonPivotDependence(m: Matrix, e: Elimination, c: nat)
    requires Finished(m, e) && c < |m| && e.pivots[c] == |m|
    ensures InKernel(m, Coefficients(e, c)[c := -1.0])
    ensures Combines(m, Coefficients(e, c), PivotColumns(e), c)
  {
    var x := Coefficients(e, c);
    var y := x[c := -1.0];
    forall k | 0 <= k < |m| ensures Dot(e.rows[k], y) == 0.0 {
      RowCombines(m, e, c, k);
      DotUpdate(e.rows[k], x, c, -1.0, |m|);
    }
    assert InKernel(e.rows, y);
    assert InKernel(m, y);
    hide SameKernel;
    forall k | 0 <= k < |m| ensures Dot(m[k], x) == m[k][c] {
      DotUpdate(m[k], x, c, -1.0, |m|);
    }
  }

  /** The selected rows, in the order of their columns. */
  function PivotRows(e: Elimination, i: nat): (r: Matrix)
    requires i <= |e.pivots|
    ensures forall c: nat | c < i && e.pivots[c] < |e.rows| :: e.rows[e.pivots[c]] in r
    ensures forall k | 0 <= k < |r| :: r[k] in e.rows
  {
    if i == 0 then []
    else if e.pivots[i - 1] < |e.rows| then PivotRows(e, i - 1) + [e.rows[e.pivots[i - 1]]]
    else PivotRows(e, i - 1)
  }

  lemma {:induction false} PivotRowCount(e: Elimination, i: nat)
    requires i <= |e.pivots|
    ensures |PivotRows(e, i)| == |PivotsBefore(e, i)|
  {
    if i == 0 {
      assert PivotsBefore(e, i) == {};
    } else {
      PivotRowCount(e, i - 1);
      var s := PivotsBefore(e, i - 1);
      if e.pivots[i - 1] < |e.rows| {
        assert PivotsBefore(e, i) == s + {i - 1};
        assert |s + {i - 1}| == |s| + 1;
      } else {
        assert PivotsBefore(e, i) == s;
      }
    }
  }

  lemma FreeRowIsZero(m: Matrix, e: Elimination, k: nat, x: Vec)
    requires Finished(m, e) && k < |m| && !e.selected[k] && |x| == |m|
    ensures Dot(e.rows[k], x) == 0.0
  {
    hide SameKernel;
    forall p: nat | p < |m| ensures e.rows[k][p] == 0.0 {
      assert e.pivots[p] < |m| ==> UnitColumn(e.rows, p, e.pivots[p]);
      assert e.pivots[p] == |m| ==> FreeOf(e.rows, p, e.selected);
    }
    DotZero(e.rows[k], x, |m|);
  }

  /** More columns than pivots are always dependent. */
  lemma LargerSetIsDependent(m: Matrix, e: Elimination, s: set<nat>) returns (x: Vec)
    requires Finished(m, e) && s <= Columns(|m|) && |s| > |PivotColumns(e)|
    ensures |x| == |m| && SupportedOn(x, s) && InKernel(m, x) && !IsZero(x)
  {
    PivotRowCount(e, |m|);
    var r := PivotRows(e, |m|);
    x := Underdetermined(r, |m|, s);
    forall k: nat | k < |m| ensures Dot(e.rows[k], x) == 0.0 {
      if e.selected[k] {
        var q :| 0 <= q < |e.pivots| && e.pivots[q] == k;
        assert e.rows[k] in r;
      } else {
        FreeRowIsZero(m, e, k, x);
      }
    }
    assert InKernel(e.rows, x);
  }

  lemma PivotsAreBasis(m: Matrix, e: Elimination)
    requires IsSquare(m, |m|) && Finished(m, e)
    ensures Spans(m, |m|, PivotColumns(e)) && IsRank(m, |m|, |PivotColumns(e)|)
  {
    hide Reduced;
    var p := PivotColumns(e);
    PivotsIndependent(m, e);
    forall c: nat | c < |m| && c !in p ensures exists x: Vec :: |x| == |m| && Combines(m, x, p, c) {
      PivotInRange(m, e, c);
      NonPivotDependence(m, e, c);
    }
    hide Combines;
    forall s: set<nat> | s <= Columns(|m|) && Independent(m, |m|, s) ensures |s| <= |p| {
      if |s| > |p| {
        var x := LargerSetIsDependent(m, e, s);
      }
    }
    assert p <= Columns(|m|);
  }

  lemma PivotInRange(m: Matrix, e: Elimination, c: nat)
    requires Finished(m, e) && c < |m|
    ensures e.pivots[c] <= |m| == |e.rows| && (c in PivotColumns(e) <==> e.pivots[c] < |m|)
  {
    hide SameKernel;
  }

  /** The number of pivots is the rank, and the pivot columns span all columns. */
  lemma PivotsGiveRank(m: Matrix)
    requires IsSquare(m, |m|)
    ensures var p := PivotColumns(Eliminated(m, |m|));
      Independent(m, |m|, p) && Spans(m, |m|, p) && IsRank(m, |m|, |p|)
  {
    EliminatedIsReduced(m, |m|);
    var e := Eliminated(m, |m|);
    hide Reduced;
    hide Eliminated;
    PivotsIndependent(m, e);
    PivotsAreBasis(m, e);
  }

  lemma FullRankIffNonSingular(m: Matrix, r: nat)
    requires IsSquare(m, |m|) && IsRank(m, |m|, r)
    ensures r == |m| <==> NonSingular(m, |m|)
  {
    var all := Columns(|m|);
    assert NonSingular(m, |m|) ==> Independent(m, |m|, all);
    if r == |m| {
      var s: set<nat> :| s <= all && |s| == r && Independent(m, |m|, s);
      SubsetOfSameSize(s, all);
      forall x: Vec | |x| == |m| && InKernel(m, x) ensures IsZero(x) {
        assert SupportedOn(x, s);
      }
    }
    assert forall s: set<nat> | s <= all :: |s| <= |all| by {
      forall s: set<nat> | s <= all ensures |s| <= |all| {
        assert all == s + (all - s);
      }
    }
  }

  /** Every column is a unit vector, each of another row. */
  ghost predicate IsPermutation(e: Elimination)
    requires IsSquare(e.rows, |e.rows|) && |e.pivots| == |e.rows|
  {
    && (forall c: nat | c < |e.rows| :: e.pivots[c] < |e.rows| && UnitColumn(e.rows, c, e.pivots[c]))
    && (forall c: nat, d: nat | c < d < |e.rows| :: e.pivots[c] != e.pivots[d])
  }

  lemma FullRankIsPermutation(m: Matrix, e: Elimination)
    requires Finished(m, e) && |PivotColumns(e)| == |m|
    ensures IsPermutation(e)
  {
    hide SameKernel;
    hide UnitColumn;
    hide FreeOf;
    SubsetOfSameSize(PivotColumns(e), Columns(|m|));
    forall c: nat | c < |m| ensures e.pivots[c] < |m| {
      assert c in PivotColumns(e);
    }
  }

  /** With a pivot in every column, elimination has turned the matrix into a permutation matrix. */
  lemma FullRankLeavesPermutation(m: Matrix)
    requires IsSquare(m, |m|) && |PivotColumns(Eliminated(m, |m|))| == |m|
    ensures IsPermutation(Eliminated(m, |m|))
  {
    hide Reduced;
    hide Eliminated;
    hide IsPermutation;
    hide PivotColumns;
    EliminatedIsReduced(m, |m|);
    FullRankIsPermutation(m, Eliminated(m, |m|));
  }

  lemma SubsetOfSameSize(s: set<nat>, t: set<nat>)
    requires s <= t && |s| == |t|
    ensures s == t
  {
    assert t == s + (t - s);
    assert |t - s| == 0;
  }
}
