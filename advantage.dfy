/** Binarization of an RCA frame into the advantage matrix M.

    The library binarizes in two ways. `df.ge(cutoff).astype(int)` maps a
    cell to 1 iff it is at least the cutoff, so a NaN cell becomes 0
    (GeBinarize). Masked assignment `m[m >= 1] = 1; m[m < 1] = 0` leaves a
    NaN cell as NaN, since NaN is neither >= 1 nor < 1 (MaskBinarize). */
module Advantage {
  import opened Numeric
  import opened Algebra

  function GeCell(x: Num, cutoff: real): Num {
    if AtLeast(x, cutoff) then Fin(1.0) else Fin(0.0)
  }

  function MaskCell(x: Num): Num {
    if AtLeast(x, 1.0) then Fin(1.0) else if Below(x, 1.0) then Fin(0.0) else x
  }

  /** `r.ge(cutoff).astype(int)`. */
  function GeBinarize(r: Matrix, cols: nat, cutoff: real): (m: Matrix)
    requires IsMatrix(r, cols)
    ensures |m| == |r| && IsBinary(m, cols)
    ensures forall i, j :: 0 <= i < |r| && 0 <= j < cols ==>
      (m[i][j] == Fin(1.0) <==> r[i][j].Fin? && r[i][j].v >= cutoff)
  {
    seq(|r|, i requires 0 <= i < |r| => seq(cols, j requires 0 <= j < cols => GeCell(r[i][j], cutoff)))
  }

  /** Masked assignment at the fixed threshold 1. */
  function MaskBinarize(r: Matrix, cols: nat): (m: Matrix)
    requires IsMatrix(r, cols)
    ensures |m| == |r| && IsMatrix(m, cols)
    ensures forall i, j :: 0 <= i < |r| && 0 <= j < cols ==>
      (r[i][j].NaN? <==> m[i][j].NaN?) &&
      (r[i][j].Fin? ==> IsBit(m[i][j]) && (m[i][j] == Fin(1.0) <==> r[i][j].v >= 1.0))
  {
    seq(|r|, i requires 0 <= i < |r| => seq(cols, j requires 0 <= j < cols => MaskCell(r[i][j])))
  }

  /** `1 - m`, cell by cell (NaN stays NaN). */
  function Flip(m: Matrix, cols: nat): (f: Matrix)
    requires IsMatrix(m, cols)
    ensures |f| == |m| && IsMatrix(f, cols)
  {
    seq(|m|, i requires 0 <= i < |m| => seq(cols, j requires 0 <= j < cols => Sub(Fin(1.0), m[i][j])))
  }

  /** `fillna(0)` on a whole frame. */
  function FillMissing(m: Matrix, cols: nat): (f: Matrix)
    requires IsMatrix(m, cols)
    ensures |f| == |m| && NoMissing(f, cols)
    ensures forall i, j :: 0 <= i < |m| && 0 <= j < cols ==> (m[i][j].Fin? ==> f[i][j] == m[i][j])
    ensures forall i, j :: 0 <= i < |m| && 0 <= j < cols ==> (m[i][j].NaN? ==> f[i][j] == Fin(0.0))
  {
    seq(|m|, i requires 0 <= i < |m| => seq(cols, j requires 0 <= j < cols => FillZero(m[i][j])))
  }

  /** Re-binarizing a 0/1 frame at cutoff 1 changes nothing. */
  lemma GeBinarizeKeepsBinary(m: Matrix, cols: nat)
    requires IsBinary(m, cols)
    ensures GeBinarize(m, cols, 1.0) == m
  {
    var g := GeBinarize(m, cols, 1.0);
    forall i | 0 <= i < |m| ensures g[i] == m[i] {
      assert forall j :: 0 <= j < cols ==> g[i][j] == m[i][j];
    }
  }

  /** A row below the cutoff everywhere binarizes to zeros, and a row at
      or above it everywhere binarizes to ones. */
  lemma GeRowExtremes(r: Matrix, cols: nat, cutoff: real, l: nat)
    requires IsMatrix(r, cols) && l < |r|
    ensures (forall b :: 0 <= b < cols ==> !AtLeast(r[l][b], cutoff)) ==>
            forall b :: 0 <= b < cols ==> GeBinarize(r, cols, cutoff)[l][b] == Fin(0.0)
    ensures (forall b :: 0 <= b < cols ==> AtLeast(r[l][b], cutoff)) ==>
            forall b :: 0 <= b < cols ==> GeBinarize(r, cols, cutoff)[l][b] == Fin(1.0)
  {
  }

  /** Flipping a row of ones gives zeros and a row of zeros gives ones. */
  lemma FlipRow(m: Matrix, cols: nat, l: nat)
    requires IsMatrix(m, cols) && l < |m|
    ensures (forall b :: 0 <= b < cols ==> m[l][b] == Fin(1.0)) ==>
            forall b :: 0 <= b < cols ==> Flip(m, cols)[l][b] == Fin(0.0)
    ensures (forall b :: 0 <= b < cols ==> m[l][b] == Fin(0.0)) ==>
            forall b :: 0 <= b < cols ==> Flip(m, cols)[l][b] == Fin(1.0)
  {
  }

  /** Zero-filling a 0/1 frame changes nothing. */
  lemma FillBinary(m: Matrix, cols: nat)
    requires IsBinary(m, cols)
    ensures FillMissing(m, cols) == m
  {
    var f := FillMissing(m, cols);
    forall i | 0 <= i < |m| ensures f[i] == m[i] {
      assert forall j :: 0 <= j < cols ==> f[i][j] == m[i][j];
    }
  }

  /** Flipping a 0/1 frame gives a 0/1 frame with every bit inverted. */
  lemma FlipBinary(m: Matrix, cols: nat)
    requires IsBinary(m, cols)
    ensures IsBinary(Flip(m, cols), cols)
    ensures forall i, j :: 0 <= i < |m| && 0 <= j < cols ==>
      (Flip(m, cols)[i][j] == Fin(1.0) <==> m[i][j] == Fin(0.0))
  {
  }

  /** On a frame without missing cells, masking at 1 and `ge(1)` agree. */
  lemma MaskAgreesWithGe(r: Matrix, cols: nat)
    requires NoMissing(r, cols)
    ensures MaskBinarize(r, cols) == GeBinarize(r, cols, 1.0)
  {
    var a, b := MaskBinarize(r, cols), GeBinarize(r, cols, 1.0);
    forall i | 0 <= i < |r| ensures a[i] == b[i] {
      assert forall j :: 0 <= j < cols ==> a[i][j] == b[i][j];
    }
  }

  /** Masking at 1 and then filling the missing cells with 0 is `ge(1)`. */
  lemma FillMaskIsGe(r: Matrix, cols: nat)
    requires IsMatrix(r, cols)
    ensures FillMissing(MaskBinarize(r, cols), cols) == GeBinarize(r, cols, 1.0)
  {
    var a, b := FillMissing(MaskBinarize(r, cols), cols), GeBinarize(r, cols, 1.0);
    forall i | 0 <= i < |r| ensures a[i] == b[i] {
      assert forall j :: 0 <= j < cols ==> a[i][j] == b[i][j];
    }
  }

  /** Masking an already masked frame changes nothing. */
  lemma MaskTwice(r: Matrix, cols: nat)
    requires IsMatrix(r, cols)
    ensures MaskBinarize(MaskBinarize(r, cols), cols) == MaskBinarize(r, cols)
  {
    var m := MaskBinarize(r, cols);
    var a := MaskBinarize(m, cols);
    forall i | 0 <= i < |r| ensures a[i] == m[i] {
      assert forall j :: 0 <= j < cols ==> a[i][j] == m[i][j];
    }
  }

  /** The flipped masked frame holds only 0, 1 and missing cells, so a
      second mask leaves it unchanged. */
  lemma MaskFlipMasked(r: Matrix, cols: nat)
    requires IsMatrix(r, cols)
    ensures var f := Flip(MaskBinarize(r, cols), cols);
            MaskBinarize(f, cols) == f
  {
    var f := Flip(MaskBinarize(r, cols), cols);
    var a := MaskBinarize(f, cols);
    forall i | 0 <= i < |r| ensures a[i] == f[i] {
      assert forall j :: 0 <= j < cols ==> a[i][j] == f[i][j];
    }
  }

  /** The pandas column sums skip missing cells, so the masked frame and the
      `ge(1)` frame have the same prevalences. */
  lemma MaskSkipSums(r: Matrix, cols: nat)
    requires IsMatrix(r, cols)
    ensures ColSkipSums(MaskBinarize(r, cols), cols) == ColSkipSums(GeBinarize(r, cols, 1.0), cols)
  {
    var m, g := MaskBinarize(r, cols), GeBinarize(r, cols, 1.0);
    forall j | 0 <= j < cols ensures SkipSum(Col(m, cols, j)) == SkipSum(Col(g, cols, j)) {
      var u, v := Col(m, cols, j), Col(g, cols, j);
      SkipSumIsSumOfVals(u);
      SkipSumIsSumOfVals(v);
      assert Vals(u) == Vals(v);
    }
  }

  /** `rcas.T.fillna(0)` of the masked frame is the transpose of the `ge(1)`
      frame. */
  lemma FillMaskTransposed(r: Matrix, cols: nat)
    requires IsMatrix(r, cols)
    ensures FillMissing(Transpose(MaskBinarize(r, cols), cols), |r|) == Transpose(GeBinarize(r, cols, 1.0), cols)
  {
    var a := FillMissing(Transpose(MaskBinarize(r, cols), cols), |r|);
    var b := Transpose(GeBinarize(r, cols, 1.0), cols);
    forall i | 0 <= i < cols ensures a[i] == b[i] {
      assert forall j :: 0 <= j < |r| ==> a[i][j] == b[i][j];
    }
  }

  /** A defined row below 1 everywhere masks to zeros, and one at or above
      1 everywhere masks to ones. */
  lemma MaskRowExtremes(r: Matrix, cols: nat, l: nat)
    requires IsMatrix(r, cols) && l < |r| && AllFin(r[l])
    ensures (forall b :: 0 <= b < cols ==> r[l][b].v < 1.0) ==>
            forall b :: 0 <= b < cols ==> MaskBinarize(r, cols)[l][b] == Fin(0.0)
    ensures (forall b :: 0 <= b < cols ==> r[l][b].v >= 1.0) ==>
            forall b :: 0 <= b < cols ==> MaskBinarize(r, cols)[l][b] == Fin(1.0)
  {
    var m := MaskBinarize(r, cols);
    assert forall b :: 0 <= b < cols ==> m[l][b] == MaskCell(r[l][b]);
  }
}
