/** `complexity` and `complexity_subnational` of the pandas engine.

    Both binarize with `ge(cutoff).astype(int)` before the all-missing drop
    step. The binarized frame has no missing cell, so the drop removes a
    line only when the frame has rows but no columns or columns but no
    rows; otherwise it changes nothing, the warning is not logged and
    `drop` has no effect. */
module PandasComplexity {
  import opened Numeric
  import opened Algebra
  import opened Stats
  import opened Advantage
  import opened Reflections

  /** The frame the loop runs on: the dropped one when `drop` is set. */
  function Used(rca: Matrix, cols: nat, cutoff: real, drop: bool): (f: Frame)
    requires IsMatrix(rca, cols)
    ensures IsMatrix(f.cells, f.cols)
  {
    var m := GeBinarize(rca, cols, cutoff);
    if drop then DropAllMissing(m, cols).0 else Frame(m, cols)
  }

  /** `complexity(df_rca, cutoff=cutoff, drop=drop, iterations=iterations)`;
      `warned` is whether the warning about all-missing lines is logged. */
  method Complexity(rca: Matrix, cols: nat, cutoff: real, drop: bool, iterations: int, root: real -> real)
    returns (eci: seq<Num>, pci: seq<Num>, warned: bool)
    requires IsMatrix(rca, cols)
    ensures warned == DropAllMissing(GeBinarize(rca, cols, cutoff), cols).1
    ensures var f := Used(rca, cols, cutoff, drop);
            && eci == Standardize(Iterates(f.cells, f.cols, if iterations >= 2 then iterations - 2 else 0).kc, root)
            && pci == Standardize(Iterates(f.cells, f.cols, if iterations >= 1 then iterations - 1 else 0).kp, root)
  {
    var m := GeBinarize(rca, cols, cutoff);
    var clone := DropAllMissing(m, cols);
    warned := clone.1;
    var f := if drop then clone.0 else Frame(m, cols);
    eci, pci := Indices(f.cells, f.cols, iterations, root);
  }

  // ---------------------------------------------------------- drop step

  /** The warning is logged exactly when the frame has rows but no
      columns, or columns but no rows; in every other case the drop step
      returns the binarized frame itself, so `drop` changes nothing. */
  lemma {:induction false} BinarizedDrop(rca: Matrix, cols: nat, cutoff: real)
    requires IsMatrix(rca, cols)
    ensures var m := GeBinarize(rca, cols, cutoff);
            && (DropAllMissing(m, cols).1 <==> (|rca| == 0) != (cols == 0))
            && (|rca| > 0 && cols > 0 ==> DropAllMissing(m, cols).0 == Frame(m, cols))
  {
    var m := GeBinarize(rca, cols, cutoff);
    if |rca| > 0 && cols > 0 {
      DropKeepsComplete(m, cols);
    } else if |rca| > 0 {
      KeepNoRows(m);
    } else {
      var ks := KeptCols(m, cols, 0);
      if |ks| > 0 {
        assert ks[0] in ks;
        assert AllMissing(Col(m, cols, ks[0]));
      }
    }
  }

  /** Rows without cells are all missing and are dropped. */
  lemma {:induction false} KeepNoRows(m: Matrix)
    requires forall i :: 0 <= i < |m| ==> |m[i]| == 0
    ensures KeepRows(m) == []
  {
    if |m| > 0 {
      assert AllMissing(m[0]);
      KeepNoRows(m[1..]);
    }
  }

  /** Unless the frame is empty, the loop runs on the binarized frame
      whatever `drop` is. */
  lemma {:induction false} DropIgnored(rca: Matrix, cols: nat, cutoff: real)
    requires IsMatrix(rca, cols) && |rca| > 0 && cols > 0
    ensures Used(rca, cols, cutoff, true) == Used(rca, cols, cutoff, false)
  {
    BinarizedDrop(rca, cols, cutoff);
  }

  /** An all-missing RCA row is not warned about: it binarizes to zeros,
      which the drop step keeps. */
  lemma {:induction false} MissingRowUnwarned()
    ensures DropAllMissing([[NaN, NaN]], 2).1
    ensures !DropAllMissing(GeBinarize([[NaN, NaN]], 2, 1.0), 2).1
  {
    MissingRowDropped();
    BinarizedDrop([[NaN, NaN]], 2, 1.0);
  }

  lemma {:induction false} MissingRowDropped()
    ensures KeepRows([[NaN, NaN]]) == []
  {
    var r: seq<Num> := [NaN, NaN];
    assert AllMissing(r);
    assert KeepRows([r]) == [] + KeepRows([r][1..]);
  }

  // --------------------------------------------------------- subnational

  /** A labelled series of values (`pci_external`); labels may repeat. */
  datatype Series = Series(labels: seq<int>, values: seq<Num>)

  predicate WellFormed(s: Series) {
    |s.labels| == |s.values|
  }

  /** The labels of the activities a binarized row holds (`row == 1`). */
  function HeldLabels(row: seq<Num>, acts: seq<int>): (h: set<int>)
    ensures forall x :: x in h <==> exists a :: 0 <= a < |row| && a < |acts| && row[a] == Fin(1.0) && acts[a] == x
  {
    set a | 0 <= a < |row| && a < |acts| && row[a] == Fin(1.0) :: acts[a]
  }

  /** `pci_external[pci_external.index.isin(held)]`: the entries whose
      label is held, in the series' order. */
  function Selected(labels: seq<int>, values: seq<Num>, held: set<int>): (r: seq<Num>)
    requires |labels| == |values|
    ensures |r| <= |values|
    ensures |r| == 0 <==> forall k :: 0 <= k < |labels| ==> labels[k] !in held
    ensures forall x :: x in r ==> exists k :: 0 <= k < |labels| && labels[k] in held && values[k] == x
  {
    if |labels| == 0 then []
    else
      var rest := Selected(labels[1..], values[1..], held);
      assert forall k :: 1 <= k < |labels| ==> labels[k] == labels[1..][k - 1] && values[k] == values[1..][k - 1];
      (if labels[0] in held then [values[0]] else []) + rest
  }

  /** `pci_rca.sum() / len(pci_rca)`: the sum skips missing values, the
      count does not, and an empty selection is 0/0. So the value is
      undefined exactly when none of the held activities is listed. */
  function RowEci(row: seq<Num>, acts: seq<int>, pci: Series): (e: Num)
    requires WellFormed(pci)
    ensures e.NaN? <==> forall k :: 0 <= k < |pci.labels| ==> pci.labels[k] !in HeldLabels(row, acts)
  {
    var sel := Selected(pci.labels, pci.values, HeldLabels(row, acts));
    Div(Fin(SkipSum(sel)), Fin(|sel| as real))
  }

  /** The eci of every row of a binarized frame, in row order. */
  function RowEcis(m: Matrix, acts: seq<int>, pci: Series): (e: seq<Num>)
    requires WellFormed(pci)
    ensures |e| == |m|
  {
    seq(|m|, l requires 0 <= l < |m| => RowEci(m[l], acts, pci))
  }

  /** The rows the subnational loop visits: the binarized frame after the
      all-missing drop. */
  function SubnationalRows(rca: Matrix, cols: nat, cutoff: real): (m: Matrix)
    requires IsMatrix(rca, cols)
  {
    DropAllMissing(GeBinarize(rca, cols, cutoff), cols).0.cells
  }

  /** `complexity_subnational(df_rca, pci_external, cutoff, standardize)`:
      the row loop appends one eci per visited row; the external pci is
      returned unchanged. `acts` are the activity labels of `df_rca`. */
  method ComplexitySubnational(rca: Matrix, cols: nat, acts: seq<int>, pci: Series, cutoff: real,
                               standardize: bool, root: real -> real)
    returns (eci: seq<Num>, pciOut: Series)
    requires IsMatrix(rca, cols) && |acts| == cols && WellFormed(pci)
    ensures var e := RowEcis(SubnationalRows(rca, cols, cutoff), acts, pci);
            eci == if standardize then Standardize(e, root) else e
    ensures pciOut == pci
  {
    var rows := SubnationalRows(rca, cols, cutoff);
    eci := [];
    var i := 0;
    while i < |rows|
      invariant 0 <= i <= |rows|
      invariant eci == RowEcis(rows[..i], acts, pci)
    {
      var held := HeldLabels(rows[i], acts);
      var sel := Selected(pci.labels, pci.values, held);
      var e := Div(Fin(SkipSum(sel)), Fin(|sel| as real));
      assert e == RowEci(rows[i], acts, pci);
      RowEcisSnoc(rows, i, acts, pci);
      eci := eci + [e];
      i := i + 1;
    }
    assert rows[..i] == rows;
    if standardize {
      eci := Standardize(eci, root);
    }
    pciOut := pci;
  }

  /** Appending one row's eci extends the eci of the rows before it. */
  lemma RowEcisSnoc(m: Matrix, i: nat, acts: seq<int>, pci: Series)
    requires i < |m| && WellFormed(pci)
    ensures RowEcis(m[..i + 1], acts, pci) == RowEcis(m[..i], acts, pci) + [RowEci(m[i], acts, pci)]
  {
    var lhs, rhs := RowEcis(m[..i + 1], acts, pci), RowEcis(m[..i], acts, pci) + [RowEci(m[i], acts, pci)];
    assert |lhs| == |rhs|;
    forall k | 0 <= k < |lhs| ensures lhs[k] == rhs[k] {
      assert m[..i + 1][k] == if k < i then m[..i][k] else m[i];
    }
  }

  /** Unless the frame is empty, the loop visits every row of the
      binarized frame. */
  lemma {:induction false} SubnationalVisitsAll(rca: Matrix, cols: nat, cutoff: real)
    requires IsMatrix(rca, cols) && |rca| > 0 && cols > 0
    ensures SubnationalRows(rca, cols, cutoff) == GeBinarize(rca, cols, cutoff)
  {
    BinarizedDrop(rca, cols, cutoff);
  }

  /** Every listed pci value of a held activity is defined and within [lo, hi]. */
  predicate ListedWithin(pci: Series, held: set<int>, lo: real, hi: real)
    requires WellFormed(pci)
  {
    forall k :: 0 <= k < |pci.labels| && pci.labels[k] in held ==>
      pci.values[k].Fin? && lo <= pci.values[k].v <= hi
  }

  /** When every listed pci value of a held activity is defined and within
      [lo, hi], and at least one is listed, the location's eci is their mean
      and lies within [lo, hi]. */
  lemma {:induction false} EciBetween(row: seq<Num>, acts: seq<int>, pci: Series, lo: real, hi: real)
    requires WellFormed(pci)
    requires exists k :: 0 <= k < |pci.labels| && pci.labels[k] in HeldLabels(row, acts)
    requires ListedWithin(pci, HeldLabels(row, acts), lo, hi)
    ensures RowEci(row, acts, pci).Fin?
    ensures lo <= RowEci(row, acts, pci).v <= hi
  {
    var held := HeldLabels(row, acts);
    var sel := Selected(pci.labels, pci.values, held);
    assert Within(sel, lo, hi) by {
      forall i | 0 <= i < |sel| ensures sel[i].Fin? && lo <= sel[i].v <= hi {
        assert sel[i] in sel;
      }
    }
    MeanWithin(sel, lo, hi);
  }

  /** The sum of `n > 0` values within [lo, hi], divided by `n`. */
  lemma {:induction false} MeanWithin(sel: seq<Num>, lo: real, hi: real)
    requires |sel| > 0 && Within(sel, lo, hi)
    ensures var e := Div(Fin(SkipSum(sel)), Fin(|sel| as real));
            e.Fin? && lo <= e.v <= hi
  {
    var d, total, n := Vals(sel), SkipSum(sel), |sel| as real;
    assert forall k :: 0 <= k < |d| ==> lo <= d[k] <= hi;
    assert total == Sum(d) by {
      SkipSumIsSumOfVals(sel);
    }
    SumWithin(d, lo, hi);
    RatioBetween(total, n, lo, hi);
    assert Div(Fin(total), Fin(n)) == Fin(total / n);
  }

  /** A listed missing pci value counts towards the number of values but
      not towards their sum: one held activity with pci 2 and one with a
      missing pci give an eci of 1. */
  lemma {:induction false} MissingPciHalves()
    ensures RowEci([Fin(1.0), Fin(1.0)], [7, 8], Series([7, 8], [Fin(2.0), NaN])) == Fin(1.0)
  {
    var row: seq<Num>, acts: seq<int> := [Fin(1.0), Fin(1.0)], [7, 8];
    var held := HeldLabels(row, acts);
    assert row[0] == Fin(1.0) && acts[0] == 7;
    assert row[1] == Fin(1.0) && acts[1] == 8;
    assert 7 in held && 8 in held;
    var sel := Selected([7, 8], [Fin(2.0), NaN], held);
    assert Selected([8], [NaN], held) == [NaN] + Selected([], [], held);
    assert sel == [Fin(2.0), NaN];
    assert SkipSum(sel) == 2.0;
  }
}
