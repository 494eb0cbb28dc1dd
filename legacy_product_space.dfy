/** The legacy product space: `proximity`, `relatedness`, `distance` and
    `opportunity_gain`. The stand-alone legacy `relatedness` and
    `opportunity_gain` modules hold the same code, so the lemmas here state
    their properties too.

    Every function binarizes a copy of the RCA frame at the fixed threshold
    1 by masked assignment, so a missing cell stays missing and the caller's
    frame is unchanged. The module imports pandas only, yet `proximity`
    computes its denominator with `np`: every call raises `NameError`. The
    corrected proximity is the same code with NumPy imported. */
module LegacyProductSpace {
  import opened Numeric
  import opened Algebra
  import opened Advantage
  import opened Space
  import opened Gain
  import opened Frames
  import PandasProximity
  import PandasRelatedness
  import PandasOppGain

  // ------------------------------------------------------------ proximity

  /** `proximity(rcas, procedure)` as written: the sqrt branch calls
      `np.power` and the other branch `np.maximum`, and `np` is unbound. */
  function Proximity(rcas: Matrix, cols: nat, procedure: string): (r: Result<Matrix>)
    requires IsMatrix(rcas, cols)
  {
    Err(NameError("np"))
  }

  lemma ProximityFails(rcas: Matrix, cols: nat, procedure: string)
    requires IsMatrix(rcas, cols)
    ensures Proximity(rcas, cols, procedure) == Err(NameError("np"))
  {
  }

  /** The intended `proximity`: mask a copy at 1, count co-occurrences on
      the zero-filled transpose, take the skip-missing column sums as
      prevalences, divide, and zero the diagonal in place. It computes the
      pandas-engine proximity at cutoff 1, with its laws. */
  method CorrectedProximity(rcas: Matrix, cols: nat, procedure: string, root: real -> real) returns (phi: Matrix)
    requires IsMatrix(rcas, cols)
    ensures phi == PandasProximity.ProximityOf(rcas, cols, 1.0, ProcedureOf(procedure), root)
    ensures ProximityLaws(phi, Prevalence(GeBinarize(rcas, cols, 1.0), cols), ProcedureOf(procedure), root)
  {
    var m := MaskBinarizeCopy(rcas, cols);
    var mt := FillMissing(Transpose(m, cols), |m|);
    var count := MatMul(mt, Transpose(mt, |m|), cols);
    var k := Prevalence(m, cols);
    var g := GeBinarize(rcas, cols, 1.0);
    FillMaskTransposed(rcas, cols);
    TransposeTwice(g, cols);
    assert count == Gram(g, cols);
    MaskSkipSums(rcas, cols);
    assert k == Prevalence(g, cols);
    phi := FillProximity(count, k, ProcedureOf(procedure), root);
    BinaryProximity(g, cols, ProcedureOf(procedure), root);
  }

  // ----------------------------------------------------------- relatedness

  /** `(M·Φ) / ((M*0 + 1)·Φ)` for the masked frame M. */
  function RelatednessOf(rcas: Matrix, cols: nat, phi: Matrix): (d: Matrix)
    requires IsMatrix(rcas, cols) && |phi| == cols && IsMatrix(phi, cols)
    ensures |d| == |rcas| && IsMatrix(d, cols)
  {
    var m := MaskBinarize(rcas, cols);
    Density(m, phi, cols, OnesLike(m, cols))
  }

  method Relatedness(rcas: Matrix, cols: nat, phi: Matrix) returns (d: Matrix)
    requires IsMatrix(rcas, cols) && |phi| == cols && IsMatrix(phi, cols)
    ensures d == RelatednessOf(rcas, cols, phi)
  {
    var m := MaskBinarizeCopy(rcas, cols);
    var numerator := MatMul(m, phi, cols);
    var denominator := MatMul(OnesLike(m, cols), phi, cols);
    d := seq(|m|, l requires 0 <= l < |m| =>
           seq(cols, a requires 0 <= a < cols => Div(numerator[l][a], denominator[l][a])));
  }

  /** `1 - relatedness(rcas, proximities)`: undefined exactly where the
      relatedness is, and its complement elsewhere. */
  method Distance(rcas: Matrix, cols: nat, phi: Matrix) returns (e: Matrix)
    requires IsMatrix(rcas, cols) && |phi| == cols && IsMatrix(phi, cols)
    ensures |e| == |rcas| && IsMatrix(e, cols)
    ensures var d := RelatednessOf(rcas, cols, phi);
            forall l, a :: 0 <= l < |rcas| && 0 <= a < cols ==>
              (e[l][a].NaN? <==> d[l][a].NaN?) && (d[l][a].Fin? ==> e[l][a].v == 1.0 - d[l][a].v)
  {
    var d := Relatedness(rcas, cols, phi);
    e := Flip(d, cols);
  }

  /** For a location without missing RCA, the cell is undefined exactly when
      the proximity column has an undefined cell or sums to 0; with
      non-negative proximities and a positive sum it lies in [0, 1]. */
  lemma RelatednessCell(rcas: Matrix, cols: nat, phi: Matrix, l: nat, a: nat)
    requires IsMatrix(rcas, cols) && |phi| == cols && IsMatrix(phi, cols)
    requires l < |rcas| && a < cols && AllFin(rcas[l])
    ensures var col := Col(phi, cols, a);
            var d := RelatednessOf(rcas, cols, phi)[l][a];
            && (d.NaN? <==> !AllFin(col) || Sum(Vals(col)) == 0.0)
            && (AllNonNeg(col) && Sum(Vals(col)) > 0.0 ==> d.Fin? && 0.0 <= d.v <= 1.0)
  {
    var m := MaskBinarize(rcas, cols);
    assert AllFin(m[l]);
    OnesLikeRow(m, cols, l);
    assert AllBits(m[l]);
    DensityCell(m, phi, cols, OnesLike(m, cols), l, a);
  }

  /** The denominator does not depend on the location: for every location
      without missing RCA it is the column sum of Φ. */
  lemma RowIndependentDenominator(rcas: Matrix, cols: nat, phi: Matrix, l: nat, a: nat)
    requires IsMatrix(rcas, cols) && |phi| == cols && IsMatrix(phi, cols)
    requires l < |rcas| && a < cols && AllFin(rcas[l])
    ensures var m := MaskBinarize(rcas, cols);
            RelatednessOf(rcas, cols, phi)[l][a] == Div(NumDot(m[l], Col(phi, cols, a)), NumSum(Col(phi, cols, a)))
  {
    var m := MaskBinarize(rcas, cols);
    OnesLikeRow(m, cols, l);
    DensityAt(m, phi, cols, OnesLike(m, cols), l, a);
    DensityDenominator(m, phi, cols, OnesLike(m, cols), l, a);
  }

  /** A missing RCA cell survives the mask and makes the location's whole
      relatedness row undefined. */
  lemma MissingRowUndefined(rcas: Matrix, cols: nat, phi: Matrix, l: nat, b: nat, a: nat)
    requires IsMatrix(rcas, cols) && |phi| == cols && IsMatrix(phi, cols)
    requires l < |rcas| && b < cols && a < cols && rcas[l][b].NaN?
    ensures RelatednessOf(rcas, cols, phi)[l][a].NaN?
  {
    var m := MaskBinarize(rcas, cols);
    DensityMissingRow(m, phi, cols, OnesLike(m, cols), l, b, a);
  }

  /** A location below 1 everywhere has relatedness 0 and one at or above 1
      everywhere has relatedness 1, in every column that is defined with a
      non-zero sum. */
  lemma RelatednessExtremes(rcas: Matrix, cols: nat, phi: Matrix, l: nat, a: nat)
    requires IsMatrix(rcas, cols) && |phi| == cols && IsMatrix(phi, cols)
    requires l < |rcas| && a < cols && AllFin(rcas[l])
    requires AllFin(Col(phi, cols, a)) && Sum(Vals(Col(phi, cols, a))) != 0.0
    ensures (forall b :: 0 <= b < cols ==> rcas[l][b].v < 1.0) ==> RelatednessOf(rcas, cols, phi)[l][a] == Fin(0.0)
    ensures (forall b :: 0 <= b < cols ==> rcas[l][b].v >= 1.0) ==> RelatednessOf(rcas, cols, phi)[l][a] == Fin(1.0)
  {
    if forall b :: 0 <= b < cols ==> rcas[l][b].v < 1.0 {
      assert RelatednessOf(rcas, cols, phi)[l][a] == Fin(0.0) by {
        var m := MaskBinarize(rcas, cols);
        MaskRowExtremes(rcas, cols, l);
        OnesLikeRow(m, cols, l);
        DensityExtremeRows(m, phi, cols, OnesLike(m, cols), l, a);
      }
    }
    if forall b :: 0 <= b < cols ==> rcas[l][b].v >= 1.0 {
      assert RelatednessOf(rcas, cols, phi)[l][a] == Fin(1.0) by {
        var m := MaskBinarize(rcas, cols);
        MaskRowExtremes(rcas, cols, l);
        assert AllOnes(m[l]);
        OnesLikeRow(m, cols, l);
        DensityExtremeRows(m, phi, cols, OnesLike(m, cols), l, a);
      }
    }
  }

  /** On a frame without missing RCA, the legacy relatedness is the
      pandas-engine relatedness at cutoff 1 with the same proximities. */
  lemma RelatednessAgreesWithPandas(rcas: Matrix, cols: nat, phi: Matrix)
    requires NoMissing(rcas, cols) && |phi| == cols && IsMatrix(phi, cols)
    ensures RelatednessOf(rcas, cols, phi) == PandasRelatedness.Relatedness(rcas, cols, 1.0, Some(phi))
  {
    MaskAgreesWithGe(rcas, cols);
  }

  // ------------------------------------------------------ opportunity gain

  /** `opportunity_gain(rcas, proximities, pci)`: the shared gain formula
      on the masked frame. The inner `relatedness` masks `1 - M` again,
      which changes nothing. */
  method OpportunityGain(rcas: Matrix, cols: nat, phi: Matrix, pci: seq<Num>) returns (g: Matrix)
    requires IsMatrix(rcas, cols) && |phi| == cols && IsMatrix(phi, cols) && |pci| == cols
    ensures g == GainFrom(MaskBinarize(rcas, cols), phi, cols, pci)
  {
    var m := MaskBinarizeCopy(rcas, cols);
    var proxRatio := ProxRatio(phi, cols);
    var inverse := Flip(m, cols);
    var middle := ScaleColumns(inverse, cols, pci);
    var dcp := Relatedness(inverse, cols, phi);
    MaskFlipMasked(rcas, cols);
    assert dcp == InverseDensity(m, phi, cols);
    dcp := Flip(dcp, cols);
    var right := ScaleColumns(dcp, cols, pci);
    var left := MatMul(middle, proxRatio, cols);
    g := seq(|m|, l requires 0 <= l < |m| =>
           seq(cols, a requires 0 <= a < cols => Sub(left[l][a], right[l][a])));
  }

  /** `middle` is 0 where the location reaches 1 and its PCI is defined,
      and the activity's PCI where it stays below 1. */
  lemma MiddleCell(rcas: Matrix, cols: nat, pci: seq<Num>, l: nat, a: nat)
    requires IsMatrix(rcas, cols) && |pci| == cols && l < |rcas| && a < cols && rcas[l][a].Fin?
    ensures var middle := Middle(MaskBinarize(rcas, cols), cols, pci);
            && (rcas[l][a].v >= 1.0 && pci[a].Fin? ==> middle[l][a] == Fin(0.0))
            && (rcas[l][a].v < 1.0 ==> middle[l][a] == pci[a])
  {
  }

  /** On a frame without missing RCA, the legacy gain is the pandas-engine
      gain at cutoff 1 with the same proximities. */
  lemma GainAgreesWithPandas(rcas: Matrix, cols: nat, phi: Matrix, pci: seq<Num>)
    requires NoMissing(rcas, cols) && |phi| == cols && IsMatrix(phi, cols) && |pci| == cols
    ensures GainFrom(MaskBinarize(rcas, cols), phi, cols, pci) ==
            PandasOppGain.OpportunityGain(rcas, cols, pci, 1.0, Some(phi))
  {
    MaskAgreesWithGe(rcas, cols);
    PandasOppGain.AsGain(rcas, cols, pci, 1.0, Some(phi));
  }

  /** A missing RCA cell makes the location's whole gain row undefined. */
  lemma GainMissingRow(rcas: Matrix, cols: nat, phi: Matrix, pci: seq<Num>, l: nat, b: nat, a: nat)
    requires IsMatrix(rcas, cols) && |phi| == cols && IsMatrix(phi, cols) && |pci| == cols
    requires l < |rcas| && b < cols && a < cols && rcas[l][b].NaN?
    ensures GainFrom(MaskBinarize(rcas, cols), phi, cols, pci)[l][a].NaN?
  {
    MissingRow(MaskBinarize(rcas, cols), phi, cols, pci, l, b, a);
  }

  /** A location at or above 1 everywhere gains `-pci[a]`, and one below 1
      everywhere gains the proximity-weighted average PCI. */
  lemma ExtremeGains(rcas: Matrix, cols: nat, phi: Matrix, pci: seq<Num>, l: nat, a: nat)
    requires IsMatrix(rcas, cols) && |phi| == cols && IsMatrix(phi, cols) && |pci| == cols
    requires l < |rcas| && a < cols && AllFin(rcas[l]) && AllFin(pci)
    requires AllFin(Col(phi, cols, a)) && Sum(Vals(Col(phi, cols, a))) != 0.0
    ensures (forall b :: 0 <= b < cols ==> rcas[l][b].v >= 1.0) ==>
            GainFrom(MaskBinarize(rcas, cols), phi, cols, pci)[l][a] == Fin(-pci[a].v)
    ensures var w := Col(phi, cols, a);
            (forall b :: 0 <= b < cols ==> rcas[l][b].v < 1.0) ==>
            GainFrom(MaskBinarize(rcas, cols), phi, cols, pci)[l][a] == Fin(Dot(Vals(pci), Vals(w)) / Sum(Vals(w)))
  {
    var m := MaskBinarize(rcas, cols);
    MaskRowExtremes(rcas, cols, l);
    if forall b :: 0 <= b < cols ==> m[l][b] == Fin(1.0) {
      assert AllOnes(m[l]);
      HoldsEverything(m, phi, cols, pci, l, a);
    }
    if forall b :: 0 <= b < cols ==> m[l][b] == Fin(0.0) {
      HoldsNothing(m, phi, cols, pci, l, a);
    }
  }
}
