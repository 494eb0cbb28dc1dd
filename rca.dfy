/** Revealed comparative advantage of a pivoted locations x activities
    frame (`rca(tbl)`).

    Missing cells are read as 0. Each cell is the location's share of the
    activity divided by the activity's share of the grand total:
    `R[l,a] = (V[l,a] / rowSum(l)) / (colSum(a) / total)`. The source calls
    the per-row sums `col_sums` and the per-column sums `row_sums`; here
    they are named after what they hold. */
module PivotRca {
  import opened Numeric
  import opened Algebra
  import opened Advantage

  /** The sum of each row (`tbl.sum(axis=1)`). */
  function RowSums(t: Matrix): (s: seq<real>)
    ensures |s| == |t|
  {
    seq(|t|, l requires 0 <= l < |t| => SkipSum(t[l]))
  }

  /** `(V / rowSum) / (colSum / total)` for one cell. */
  function RcaCell(x: Num, rowSum: real, colSum: real, total: real): Num {
    Div(Div(x, Fin(rowSum)), Div(Fin(colSum), Fin(total)))
  }

  function Rca(tbl: Matrix, cols: nat): (r: Matrix)
    requires IsMatrix(tbl, cols)
    ensures |r| == |tbl| && IsMatrix(r, cols)
  {
    var t := FillMissing(tbl, cols);
    var rs, cs := RowSums(t), ColSkipSums(t, cols);
    var total := Sum(cs);
    seq(|t|, l requires 0 <= l < |t| =>
      seq(cols, a requires 0 <= a < cols => RcaCell(t[l][a], rs[l], cs[a], total)))
  }

  /** Every defined cell is non-negative (exports, employment, ...). */
  predicate NonNegCells(m: Matrix, cols: nat)
    requires IsMatrix(m, cols)
  {
    forall l, a :: 0 <= l < |m| && 0 <= a < cols && m[l][a].Fin? ==> m[l][a].v >= 0.0
  }

  /** Every defined cell multiplied by `k`. */
  function ScaleCells(m: Matrix, cols: nat, k: real): (s: Matrix)
    requires IsMatrix(m, cols)
    ensures |s| == |m|  && IsMatrix(s, cols)
  {
    seq(|m|, l requires 0 <= l < |m| =>
      seq(cols, a requires 0 <= a < cols => Mul(m[l][a], Fin(k))))
  }

  // --------------------------------------------------------------- lemmas

  /** Missing cells are replaced by 0 before any sum: a frame and its
      zero-filled copy have the same RCA. */
  lemma MissingAsZero(tbl: Matrix, cols: nat)
    requires IsMatrix(tbl, cols)
    ensures Rca(tbl, cols) == Rca(FillMissing(tbl, cols), cols)
  {
    var t := FillMissing(tbl, cols);
    var tt := FillMissing(t, cols);
    forall l | 0 <= l < |t| ensures tt[l] == t[l] {
      assert forall a :: 0 <= a < cols ==> tt[l][a] == t[l][a];
    }
    assert tt == t;
  }

  /** On non-negative data a cell is defined exactly when its row and its
      column have a positive total, and then it is `V·total / (rowSum·colSum)`. */
  lemma CellValue(tbl: Matrix, cols: nat, l: nat, a: nat)
    requires IsMatrix(tbl, cols) && NonNegCells(tbl, cols)
    requires l < |tbl| && a < cols
    ensures var t := FillMissing(tbl, cols);
            var rs, cs := RowSums(t)[l], ColSkipSums(t, cols)[a];
            var total := Sum(ColSkipSums(t, cols));
            var r := Rca(tbl, cols)[l][a];
            && (r.Fin? <==> rs > 0.0 && cs > 0.0)
            && (r.Fin? ==> r == Div(Mul(t[l][a], Fin(total)), Mul(Fin(rs), Fin(cs))))
  {
    var t := FillMissing(tbl, cols);
    var csq := ColSkipSums(t, cols);
    Sums(tbl, cols, l, a);
    EntryAtMostSum(csq, a);
    var v, rs, total := t[l][a].v, RowSums(t)[l], Sum(csq);
    var r := Rca(tbl, cols)[l][a];
    assert r == RcaCell(Fin(v), rs, csq[a], total);
    CellDefined(v, rs, csq[a], total);
    assert t[l][a] == Fin(v);
  }

  lemma CellDefined(v: real, rs: real, cs: real, total: real)
    requires rs >= 0.0 && cs >= 0.0 && total >= cs
    ensures var r := RcaCell(Fin(v), rs, cs, total);
            && (r.Fin? <==> rs > 0.0 && cs > 0.0)
            && (r.Fin? ==> r == Div(Mul(Fin(v), Fin(total)), Mul(Fin(rs), Fin(cs))))
  {
    if rs > 0.0 && cs > 0.0 {
      Quotients(v, rs, cs, total);
    }
  }

  /** The sums of the zero-filled frame are non-negative, and so are the
      cell, its row sum and its column sum. */
  lemma Sums(tbl: Matrix, cols: nat, l: nat, a: nat)
    requires IsMatrix(tbl, cols) && NonNegCells(tbl, cols)
    requires l < |tbl| && a < cols
    ensures var t := FillMissing(tbl, cols);
            && t[l][a].Fin? && t[l][a].v >= 0.0
            && RowSums(t)[l] >= 0.0
            && (forall b :: 0 <= b < cols ==> ColSkipSums(t, cols)[b] >= 0.0)
            && (ColSkipSums(t, cols)[a] == 0.0 ==> t[l][a].v == 0.0)
            && (RowSums(t)[l] == 0.0 ==> t[l][a].v == 0.0)
  {
    var t := FillMissing(tbl, cols);
    SkipSumIsSumOfVals(t[l]);
    SumNonNeg(Vals(t[l]));
    forall b | 0 <= b < cols ensures ColSkipSums(t, cols)[b] >= 0.0 {
      SkipSumIsSumOfVals(Col(t, cols, b));
      SumNonNeg(Vals(Col(t, cols, b)));
    }
    SkipSumIsSumOfVals(Col(t, cols, a));
    if ColSkipSums(t, cols)[a] == 0.0 {
      SumZeroNonNeg(Vals(Col(t, cols, a)), l);
    }
    if RowSums(t)[l] == 0.0 {
      SumZeroNonNeg(Vals(t[l]), a);
    }
  }

  lemma Quotients(v: real, rs: real, cs: real, total: real)
    requires rs > 0.0 && cs > 0.0 && total >= cs
    ensures (v / rs) / (cs / total) == v * total / (rs * cs)
  {
  }

  /** Multiplying every cell by the same non-zero constant leaves every
      RCA value unchanged. */
  lemma ScaleInvariant(tbl: Matrix, cols: nat, k: real)
    requires IsMatrix(tbl, cols) && k != 0.0
    ensures Rca(ScaleCells(tbl, cols, k), cols) == Rca(tbl, cols)
  {
    var t := FillMissing(tbl, cols);
    var u := FillMissing(ScaleCells(tbl, cols, k), cols);
    var r, q := Rca(tbl, cols), Rca(ScaleCells(tbl, cols, k), cols);
    var rs, us := RowSums(t), RowSums(u);
    var cs, ds := ColSkipSums(t, cols), ColSkipSums(u, cols);
    ScaledTotals(tbl, cols, k);
    forall l | 0 <= l < |t| ensures q[l] == r[l] {
      forall a | 0 <= a < cols ensures q[l][a] == r[l][a] {
        assert q[l][a] == RcaCell(u[l][a], us[l], ds[a], Sum(ds));
        assert r[l][a] == RcaCell(t[l][a], rs[l], cs[a], Sum(cs));
        CellScaled(t[l][a], rs[l], cs[a], Sum(cs), k, u[l][a], us[l], ds[a], Sum(ds));
      }
    }
  }

  /** Scaling the cells scales the zero-filled cells, every row and column
      sum and the grand total by the same factor. */
  lemma ScaledTotals(tbl: Matrix, cols: nat, k: real)
    requires IsMatrix(tbl, cols)
    ensures var t := FillMissing(tbl, cols);
            var u := FillMissing(ScaleCells(tbl, cols, k), cols);
            && (forall l, a :: 0 <= l < |t| && 0 <= a < cols ==> u[l][a] == Mul(Fin(k), t[l][a]))
            && (forall l :: 0 <= l < |t| ==> Fin(RowSums(u)[l]) == Mul(Fin(k), Fin(RowSums(t)[l])))
            && (forall a :: 0 <= a < cols ==> Fin(ColSkipSums(u, cols)[a]) == Mul(Fin(k), Fin(ColSkipSums(t, cols)[a])))
            && Fin(Sum(ColSkipSums(u, cols))) == Mul(Fin(k), Fin(Sum(ColSkipSums(t, cols))))
  {
    var t := FillMissing(tbl, cols);
    var u := FillMissing(ScaleCells(tbl, cols, k), cols);
    ScaledFill(tbl, cols, k);
    forall l | 0 <= l < |t| ensures Fin(RowSums(u)[l]) == Mul(Fin(k), Fin(RowSums(t)[l])) {
      ScaledSum(t[l], u[l], k);
    }
    forall a | 0 <= a < cols ensures Fin(ColSkipSums(u, cols)[a]) == Mul(Fin(k), Fin(ColSkipSums(t, cols)[a])) {
      ScaledSum(Col(t, cols, a), Col(u, cols, a), k);
    }
    ScaledRealSum(ColSkipSums(t, cols), ColSkipSums(u, cols), k);
  }

  lemma ScaledFill(tbl: Matrix, cols: nat, k: real)
    requires IsMatrix(tbl, cols)
    ensures var t := FillMissing(tbl, cols);
            var u := FillMissing(ScaleCells(tbl, cols, k), cols);
            && NoMissing(t, cols)
            && forall l, a :: 0 <= l < |t| && 0 <= a < cols ==> u[l][a] == Mul(Fin(k), t[l][a])
  {
  }

  /** The zero-filled cells of a scaled vector sum to `k` times the original. */
  lemma {:induction false} ScaledSum(s: seq<Num>, u: seq<Num>, k: real)
    requires |s| == |u| && AllFin(s)
    requires forall i :: 0 <= i < |s| ==> u[i] == Mul(Fin(k), s[i])
    ensures Fin(SkipSum(u)) == Mul(Fin(k), Fin(SkipSum(s)))
  {
    if |s| > 0 {
      ScaledSum(s[1..], u[1..], k);
    }
  }

  lemma {:induction false} ScaledRealSum(s: seq<real>, u: seq<real>, k: real)
    requires |s| == |u|
    requires forall i :: 0 <= i < |s| ==> Fin(u[i]) == Mul(Fin(k), Fin(s[i]))
    ensures Fin(Sum(u)) == Mul(Fin(k), Fin(Sum(s)))
  {
    if |s| > 0 {
      ScaledRealSum(s[1..], u[1..], k);
    }
  }

  lemma CellScaled(x: Num, rs: real, cs: real, total: real, k: real,
                   kx: Num, krs: real, kcs: real, ktotal: real)
    requires k != 0.0 && x.Fin?
    requires kx == Mul(Fin(k), x) && Fin(krs) == Mul(Fin(k), Fin(rs))
    requires Fin(kcs) == Mul(Fin(k), Fin(cs)) && Fin(ktotal) == Mul(Fin(k), Fin(total))
    ensures RcaCell(kx, krs, kcs, ktotal) == RcaCell(x, rs, cs, total)
  {
    if rs != 0.0 {
      assert kx.v / krs == x.v / rs;
    }
    if total != 0.0 {
      assert kcs / ktotal == cs / total;
    }
  }

  /** Weighting a location's RCA values by the activities' global shares
      gives back 1 (the weighted shares of the location add up to its
      whole), for every location with a positive total on non-negative
      data; undefined products are skipped, as `sum` does. */
  lemma SharesSumToOne(tbl: Matrix, cols: nat, l: nat)
    requires IsMatrix(tbl, cols) && NonNegCells(tbl, cols) && l < |tbl|
    requires RowSums(FillMissing(tbl, cols))[l] > 0.0
    ensures var cs := ColSkipSums(FillMissing(tbl, cols), cols);
            var r := Rca(tbl, cols);
            SkipSum(seq(cols, a requires 0 <= a < cols => Mul(r[l][a], Div(Fin(cs[a]), Fin(Sum(cs)))))) == 1.0
  {
    var t := FillMissing(tbl, cols);
    var cs := ColSkipSums(t, cols);
    var r := Rca(tbl, cols);
    var rs := RowSums(t)[l];
    var w := seq(cols, a requires 0 <= a < cols => Mul(r[l][a], Div(Fin(cs[a]), Fin(Sum(cs)))));
    forall a | 0 <= a < cols ensures Vals(w)[a] == Vals(t[l])[a] / rs {
      WeightedCell(tbl, cols, l, a);
    }
    SkipSumIsSumOfVals(w);
    SkipSumIsSumOfVals(t[l]);
    SumDiv(Vals(t[l]), Vals(w), rs);
    DivSelf(rs);
  }

  /** One term of the weighted row: the location's share of the activity
      (0 where the activity's total is 0). */
  lemma WeightedCell(tbl: Matrix, cols: nat, l: nat, a: nat)
    requires IsMatrix(tbl, cols) && NonNegCells(tbl, cols) && l < |tbl| && a < cols
    requires RowSums(FillMissing(tbl, cols))[l] > 0.0
    ensures var t := FillMissing(tbl, cols);
            var cs := ColSkipSums(t, cols);
            var r := Rca(tbl, cols);
            OrZero(Mul(r[l][a], Div(Fin(cs[a]), Fin(Sum(cs))))) == t[l][a].v / RowSums(t)[l]
  {
    var t := FillMissing(tbl, cols);
    var cs := ColSkipSums(t, cols);
    var rs := RowSums(t)[l];
    Sums(tbl, cols, l, a);
    assert Rca(tbl, cols)[l][a] == RcaCell(t[l][a], rs, cs[a], Sum(cs));
    if cs[a] > 0.0 {
      EntryAtMostSum(cs, a);
      Weighted(t[l][a].v, rs, cs[a], Sum(cs));
    } else {
      DivSelf(rs);
    }
  }

  lemma Weighted(v: real, rs: real, cs: real, total: real)
    requires rs > 0.0 && cs > 0.0 && total >= cs
    ensures Mul(RcaCell(Fin(v), rs, cs, total), Div(Fin(cs), Fin(total))) == Fin(v / rs)
  {
    assert (v / rs) / (cs / total) * (cs / total) == v / rs;
  }
}
