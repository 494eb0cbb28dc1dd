/** The legacy `rca(tbl)`: the same computation as the current pivoted
    RCA (module PivotRca), with the binarization commented out, so the result
    is real-valued. These lemmas state its edge cases. */
module LegacyRca {
  import opened Numeric
  import opened Algebra
  import opened Advantage
  import opened PivotRca

  /** The result is not thresholded: a cell can exceed 1. */
  lemma NotBinarized()
    ensures Rca([[Fin(1.0), Fin(0.0)], [Fin(1.0), Fin(1.0)]], 2)[0][0] == Fin(1.5)
  {
    var tbl := [[Fin(1.0), Fin(0.0)], [Fin(1.0), Fin(1.0)]];
    SmallTableSums(tbl);
    assert Rca(tbl, 2)[0][0] == RcaCell(Fin(1.0), 1.0, 2.0, 3.0);
  }

  lemma SmallTableSums(tbl: Matrix)
    requires tbl == [[Fin(1.0), Fin(0.0)], [Fin(1.0), Fin(1.0)]]
    ensures FillMissing(tbl, 2) == tbl
    ensures RowSums(tbl)[0] == 1.0
    ensures ColSkipSums(tbl, 2) == [2.0, 1.0] && Sum([2.0, 1.0]) == 3.0
  {
    var t := FillMissing(tbl, 2);
    assert t[0] == tbl[0] && t[1] == tbl[1];
    assert Col(tbl, 2, 0) == [Fin(1.0), Fin(1.0)];
    assert Col(tbl, 2, 1) == [Fin(0.0), Fin(1.0)];
    var cs := ColSkipSums(tbl, 2);
    assert cs[0] == 2.0 && cs[1] == 1.0;
    assert [2.0, 1.0][1..] == [1.0] && [1.0][1..] == [];
  }

  /** On non-negative data a missing cell whose row and column have
      positive totals is read as 0 and so gets RCA 0. */
  lemma MissingCellIsZero(tbl: Matrix, cols: nat, l: nat, a: nat)
    requires IsMatrix(tbl, cols) && NonNegCells(tbl, cols)
    requires l < |tbl| && a < cols && tbl[l][a].NaN?
    requires RowSums(FillMissing(tbl, cols))[l] > 0.0
    requires ColSkipSums(FillMissing(tbl, cols), cols)[a] > 0.0
    ensures Rca(tbl, cols)[l][a] == Fin(0.0)
  {
    CellValue(tbl, cols, l, a);
  }

  /** A location with a zero total gets an undefined value in every column. */
  lemma EmptyLocationUndefined(tbl: Matrix, cols: nat, l: nat)
    requires IsMatrix(tbl, cols) && NonNegCells(tbl, cols) && l < |tbl|
    requires RowSums(FillMissing(tbl, cols))[l] == 0.0
    ensures forall a :: 0 <= a < cols ==> Rca(tbl, cols)[l][a].NaN?
  {
    forall a | 0 <= a < cols ensures Rca(tbl, cols)[l][a].NaN? {
      CellValue(tbl, cols, l, a);
    }
  }

  /** An activity with a zero total is undefined at every location. */
  lemma EmptyActivityUndefined(tbl: Matrix, cols: nat, a: nat)
    requires IsMatrix(tbl, cols) && NonNegCells(tbl, cols) && a < cols
    requires ColSkipSums(FillMissing(tbl, cols), cols)[a] == 0.0
    ensures forall l :: 0 <= l < |tbl| ==> Rca(tbl, cols)[l][a].NaN?
  {
    forall l | 0 <= l < |tbl| ensures Rca(tbl, cols)[l][a].NaN? {
      CellValue(tbl, cols, l, a);
    }
  }
}
