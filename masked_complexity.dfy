/** `complexity` of the NumPy-era engine (and its legacy twin).

    The RCA frame is copied and binarized at the fixed threshold 1 by
    masked assignment, so a missing cell stays missing. The all-missing
    drop step then really can remove lines: the warning is logged when it
    would, and the lines are removed only when `drop` is set. */
module MaskedComplexity {
  import opened Numeric
  import opened Algebra
  import opened Stats
  import opened Advantage
  import opened Reflections
  import opened Frames
  import PandasComplexity

  /** The frame the loop runs on. */
  function Used(rca: Matrix, cols: nat, drop: bool): (f: Frame)
    requires IsMatrix(rca, cols)
    ensures IsMatrix(f.cells, f.cols)
  {
    var m := MaskBinarize(rca, cols);
    if drop then DropAllMissing(m, cols).0 else Frame(m, cols)
  }

  /** `complexity(rca, iterations=iterations, drop=drop)`; `warned` is
      whether the warning is emitted. */
  method Complexity(rca: Matrix, cols: nat, iterations: int, drop: bool, root: real -> real)
    returns (eci: seq<Num>, pci: seq<Num>, warned: bool)
    requires IsMatrix(rca, cols)
    ensures warned == DropAllMissing(MaskBinarize(rca, cols), cols).1
    ensures var f := Used(rca, cols, drop);
            && eci == Standardize(Iterates(f.cells, f.cols, if iterations >= 2 then iterations - 2 else 0).kc, root)
            && pci == Standardize(Iterates(f.cells, f.cols, if iterations >= 1 then iterations - 1 else 0).kp, root)
  {
    var m := MaskBinarizeCopy(rca, cols);
    var clone := DropAllMissing(m, cols);
    warned := clone.1;
    var f := if drop then clone.0 else Frame(m, cols);
    eci, pci := Indices(f.cells, f.cols, iterations, root);
  }

  /** The warning is emitted exactly when the RCA frame has a row or a
      column that is entirely missing, whatever `drop` is. */
  lemma {:induction false} WarnsIff(rca: Matrix, cols: nat)
    requires IsMatrix(rca, cols)
    ensures DropAllMissing(MaskBinarize(rca, cols), cols).1 <==>
            (exists i :: 0 <= i < |rca| && AllMissing(rca[i])) ||
            (exists c :: 0 <= c < cols && AllMissing(Col(rca, cols, c)))
  {
    var m := MaskBinarize(rca, cols);
    DropWarnsIff(m, cols);
    assert forall i :: 0 <= i < |rca| ==> (AllMissing(m[i]) <==> AllMissing(rca[i]));
    forall c | 0 <= c < cols ensures AllMissing(Col(m, cols, c)) <==> AllMissing(Col(rca, cols, c)) {
      assert forall i :: 0 <= i < |rca| ==> (Col(m, cols, c)[i].NaN? <==> Col(rca, cols, c)[i].NaN?);
    }
  }

  /** With `drop` set, the loop runs on a frame without entirely missing
      lines; without it, on the masked frame itself. */
  lemma {:induction false} DropCleans(rca: Matrix, cols: nat, drop: bool)
    requires IsMatrix(rca, cols)
    ensures var f := Used(rca, cols, drop);
            drop ==> forall i :: 0 <= i < |f.cells| ==> !AllMissing(f.cells[i])
    ensures var f := Used(rca, cols, drop);
            drop ==> forall t :: 0 <= t < f.cols ==> !AllMissing(Col(f.cells, f.cols, t))
    ensures !drop ==> Used(rca, cols, drop) == Frame(MaskBinarize(rca, cols), cols)
  {
    DropLeavesNoMissingLine(MaskBinarize(rca, cols), cols);
  }

  /** On a non-empty RCA frame without missing cells, this engine runs its
      loop on the same frame as the pandas engine at cutoff 1, whatever
      either's `drop` is. */
  lemma {:induction false} AgreesWithPandas(rca: Matrix, cols: nat, drop: bool, pandasDrop: bool)
    requires NoMissing(rca, cols) && |rca| > 0 && cols > 0
    ensures Used(rca, cols, drop) == PandasComplexity.Used(rca, cols, 1.0, pandasDrop)
    ensures !DropAllMissing(MaskBinarize(rca, cols), cols).1
  {
    MaskAgreesWithGe(rca, cols);
    PandasComplexity.BinarizedDrop(rca, cols, 1.0);
  }

  /** A missing cell whose row and column each have a defined cell
      survives the drop step. */
  lemma {:induction false} MissingCellSurvives(rca: Matrix, cols: nat, l: nat, p: nat, a: nat, r: nat)
    requires IsMatrix(rca, cols) && l < |rca| && p < cols && rca[l][p].NaN?
    requires a < cols && rca[l][a].Fin? && r < |rca| && rca[r][p].Fin?
    ensures var f := Used(rca, cols, true);
            exists i, t :: 0 <= i < |f.cells| && 0 <= t < f.cols && f.cells[i][t].NaN?
  {
    var m := MaskBinarize(rca, cols);
    var rows := KeepRows(m);
    assert IsMatrix(rows, cols) by {
      forall i | 0 <= i < |rows| ensures |rows[i]| == cols {
        assert rows[i] in rows;
      }
    }
    assert m[l][a].Fin? && m[l] in m;
    assert m[l] in rows;
    var i :| 0 <= i < |rows| && rows[i] == m[l];
    assert m[r][p].Fin? && m[r] in m;
    assert m[r] in rows;
    var h :| 0 <= h < |rows| && rows[h] == m[r];
    assert Col(rows, cols, p)[h].Fin?;
    var ks := KeptCols(rows, cols, 0);
    assert p in ks;
    var t :| 0 <= t < |ks| && ks[t] == p;
    var f := Used(rca, cols, true);
    assert f.cells[i][t] == rows[i][p];
  }

  /** So unless `drop` removes it, one missing RCA cell makes every
      complexity value undefined once `iterations >= 4`. */
  lemma {:induction false} MissingCellUndefines(rca: Matrix, cols: nat, drop: bool, iterations: int, root: real -> real, i: nat, t: nat)
    requires IsMatrix(rca, cols) && iterations >= 4
    requires var f := Used(rca, cols, drop);
             i < |f.cells| && t < f.cols && f.cells[i][t].NaN?
    ensures var f := Used(rca, cols, drop);
            var eci := Standardize(Iterates(f.cells, f.cols, iterations - 2).kc, root);
            var pci := Standardize(Iterates(f.cells, f.cols, iterations - 1).kp, root);
            && (forall c :: 0 <= c < |f.cells| ==> eci[c].NaN?)
            && (forall q :: 0 <= q < f.cols ==> pci[q].NaN?)
  {
    var f := Used(rca, cols, drop);
    MissingCellUndefinesAll(f.cells, f.cols, i, t, iterations, root);
  }
}
