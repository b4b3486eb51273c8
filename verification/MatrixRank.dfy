/** Matrix::compute_rank over exact reals. */
module MatrixRank {
  import opened LinearAlgebra
  import opened GaussJordan

  type NatMatrix = seq<seq<nat>>

  predicate IsSquareNat(m: NatMatrix) {
    forall k | 0 <= k < |m| :: |m[k]| == |m|
  }

  function ToReals(m: NatMatrix): (r: Matrix)
    requires IsSquareNat(m)
    ensures IsSquare(r, |m|)
  {
    seq(|m|, k requires 0 <= k < |m| => seq(|m|, p requires 0 <= p < |m| => m[k][p] as real))
  }

  /** The array agrees with the textbook rows on the columns from i on. */
  ghost predicate AgreesFrom(a: array2<real>, rows: Matrix, i: nat)
    requires IsSquare(rows, a.Length0) && a.Length1 == a.Length0
    reads a
  {
    forall k: nat, p: nat | k < a.Length0 && i <= p < a.Length0 :: a[k, p] == rows[k][p]
  }

  method ConvertToFloat(m: NatMatrix) returns (out: array2<real>)
    requires IsSquareNat(m)
    ensures fresh(out) && out.Length0 == out.Length1 == |m|
    ensures AgreesFrom(out, ToReals(m), 0)
    ensures forall k: nat, p: nat | k < |m| && p < |m| :: out[k, p] == m[k][p] as real
  {
    out := new real[|m|, |m|];
    for k := 0 to |m|
      invariant forall r: nat, p: nat | r < k && p < |m| :: out[r, p] == m[r][p] as real
    {
      for q := 0 to |m|
        invariant forall r: nat, p: nat | r < k && p < |m| :: out[r, p] == m[r][p] as real
        invariant forall p: nat | p < q :: out[k, p] == m[k][p] as real
      {
        out[k, q] := m[k][q] as real;
      }
    }
  }

  /** The pivot row is divided by the pivot, right of the pivot. */
  method DivideRow(a: array2<real>, ghost rows: Matrix, j: nat, i: nat)
    requires a.Length0 == a.Length1 && IsSquare(rows, a.Length0) && AgreesFrom(a, rows, i)
    requires i < a.Length0 && j < a.Length0 && rows[j][i] != 0.0
    modifies a
    ensures forall k: nat, p: nat | k < a.Length0 && p < a.Length0 ::
      a[k, p] == if k == j && p > i then Pivot(rows, j, i)[j][p] else old(a[k, p])
  {
    ghost var unit := Divided(rows[j], rows[j][i]);
    PivotRow(rows, j, i, j);
    hide Pivot;
    for p := i + 1 to a.Length0
      invariant forall k: nat, q: nat | k < a.Length0 && q < a.Length0 ::
        a[k, q] == if k == j && i < q < p then unit[q] else old(a[k, q])
    {
      a[j, p] := a[j, p] / a[j, i];
    }
  }

  /** A multiple of the pivot row is subtracted from one other row, right of the pivot. */
  method SubtractRow(a: array2<real>, ghost rows: Matrix, j: nat, i: nat, k: nat)
    requires a.Length0 == a.Length1 && IsSquare(rows, a.Length0)
    requires i < a.Length0 && j < a.Length0 && k < a.Length0 && k != j && rows[j][i] != 0.0
    requires forall p: nat | i <= p < a.Length0 :: a[k, p] == rows[k][p]
    requires forall p: nat | i < p < a.Length0 :: a[j, p] == Pivot(rows, j, i)[j][p]
    modifies a
    ensures forall r: nat, p: nat | r < a.Length0 && p < a.Length0 ::
      a[r, p] == if r == k && p > i then Pivot(rows, j, i)[k][p] else old(a[r, p])
  {
    PivotRow(rows, j, i, k);
    ghost var pivot := Pivot(rows, j, i);
    hide Pivot;
    for p := i + 1 to a.Length0
      invariant forall r: nat, q: nat | r < a.Length0 && q < a.Length0 ::
        a[r, q] == if r == k && i < q < p then pivot[k][q] else old(a[r, q])
    {
      a[k, p] := a[k, p] - a[j, p] * a[k, i];
    }
  }

  /** Rows with a zero in the pivot column are skipped; the textbook step leaves them as they are. */
  lemma SkippedRow(rows: Matrix, j: nat, i: nat, k: nat)
    requires IsSquare(rows, |rows|) && i < |rows| && j < |rows| && k < |rows| && k != j
    requires rows[j][i] != 0.0 && rows[k][i] == 0.0
    ensures Pivot(rows, j, i)[k] == rows[k]
  {
    PivotRow(rows, j, i, k);
  }

  /** The whole pivot step: afterwards the array agrees with the textbook rows right of the pivot. */
  method PivotArray(a: array2<real>, ghost rows: Matrix, j: nat, i: nat)
    requires a.Length0 == a.Length1 && IsSquare(rows, a.Length0) && AgreesFrom(a, rows, i)
    requires i < a.Length0 && j < a.Length0 && rows[j][i] != 0.0
    modifies a
    ensures AgreesFrom(a, Pivot(rows, j, i), i + 1)
  {
    ghost var pivot := Pivot(rows, j, i);
    DivideRow(a, rows, j, i);
    for k := 0 to a.Length0
      invariant forall r: nat, p: nat | r < a.Length0 && i < p < a.Length0 ::
        a[r, p] == if r < k || r == j then pivot[r][p] else rows[r][p]
      invariant forall r: nat | r < a.Length0 :: a[r, i] == rows[r][i]
    {
      if k != j && a[k, i] != 0.0 {
        SubtractRow(a, rows, j, i, k);
      } else if k != j {
        SkippedRow(rows, j, i, k);
      }
    }
  }

  /** The search for an unselected row with a non-zero entry in the column. */
  method FindPivotRow(a: array2<real>, rowSelected: seq<bool>, i: nat, ghost rows: Matrix) returns (j: nat)
    requires a.Length0 == a.Length1 == |rowSelected| && i < a.Length0
    requires IsSquare(rows, a.Length0) && AgreesFrom(a, rows, i)
    ensures j == FirstRow(rows, rowSelected, i, 0)
  {
    j := 0;
    while j < a.Length0
      invariant j <= a.Length0
      invariant FirstRow(rows, rowSelected, i, 0) == FirstRow(rows, rowSelected, i, j)
    {
      if !rowSelected[j] && a[j, i] != 0.0 {
        break;
      }
      j := j + 1;
    }
  }

  lemma PivotsExtended(e: Elimination, f: Elimination, j: nat)
    requires f.pivots == e.pivots + [j] && |f.rows| == |e.rows|
    ensures |PivotColumns(f)| == |PivotColumns(e)| + (if j < |e.rows| then 1 else 0)
  {
    if j < |e.rows| {
      assert PivotColumns(f) == PivotColumns(e) + {|e.pivots|};
    } else {
      assert PivotColumns(f) == PivotColumns(e);
    }
  }

  /** The source fixes |m| at 64. */
  method ComputeRank(m: NatMatrix) returns (rank: nat)
    requires IsSquareNat(m)
    ensures IsRank(ToReals(m), |m|, rank)
    ensures rank == |PivotColumns(Eliminated(ToReals(m), |m|))|
    ensures rank == |m| <==> NonSingular(ToReals(m), |m|)
    ensures rank == |m| <==> forall x: Vec | |x| == |m| && InKernel(ToReals(m), x) :: IsZero(x)
  {
    hide Pivot;
    hide FirstRow;
    hide AgreesFrom;
    var n := |m|;
    ghost var t := ToReals(m);
    var a := ConvertToFloat(m);
    rank := 0;
    var rowSelected := seq(n, _ => false);
    for i := 0 to n
      invariant fresh(a) && a.Length0 == a.Length1 == n
      invariant AgreesFrom(a, Eliminated(t, i).rows, i)
      invariant rowSelected == Eliminated(t, i).selected
      invariant rank == |PivotColumns(Eliminated(t, i))|
    {
      ghost var e := Eliminated(t, i);
      var j := FindPivotRow(a, rowSelected, i, e.rows);
      PivotsExtended(e, Eliminated(t, i + 1), j);
      if j != n {
        rank := rank + 1;
        rowSelected := rowSelected[j := true];
        PivotArray(a, e.rows, j, i);
      } else {
        AgreesFurther(a, e.rows, i);
      }
    }
    PivotsGiveRank(t);
    FullRankIffNonSingular(t, rank);
  }

  lemma AgreesFurther(a: array2<real>, rows: Matrix, i: nat)
    requires IsSquare(rows, a.Length0) && a.Length1 == a.Length0 && AgreesFrom(a, rows, i)
    ensures AgreesFrom(a, rows, i + 1)
  {
  }
}
