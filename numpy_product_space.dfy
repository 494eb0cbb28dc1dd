/** The NumPy-based product space of the package root: `proximity`,
    `relatedness`, `distance`, `opportunity_gain`, and `pgi`/`peii` through
    `_pmi`.

    `proximity` and `relatedness` take the RCA frame as it is: they do not
    binarize it, and their sums and dot products propagate undefined cells.
    `opportunity_gain` and `_pmi` binarize a copy with the masked
    assignment at 1, which keeps undefined cells undefined. */
module NumpyProductSpace {
  import opened Numeric
  import opened Algebra
  import opened Advantage
  import opened Space
  import opened Gain
  import opened PivotRca
  import opened MeasureIndex
  import Frames
  import PandasProximity
  import PandasRelatedness
  import PandasOppGain
  import PandasPmi

  // ------------------------------------------------------------ proximity

  /** The proximity of the frame as given, with the denominator built as
      the pandas engine builds it: `kp0` as a row against its column, so
      that "sqrt" divides by the outer product of the prevalences. For
      "max" this is what `proximity` returns; for "sqrt" it is the evidently
      intended result. */
  function ProximityOf(rcas: Matrix, cols: nat, p: Procedure, root: real -> real): (phi: Matrix)
    requires IsMatrix(rcas, cols)
    ensures |phi| == cols && IsMatrix(phi, cols)
  {
    PhiFrom(Gram(rcas, cols), NumPyColSums(rcas, cols), p, root)
  }

  /** What `proximity(rcas, procedure)` does as written. With "sqrt" it
      takes `kp0_trans.dot(kp0)` of an `(n, 1)` array and an `(n,)` one,
      which NumPy refuses with a `ValueError` unless `n` is 1; with one
      activity the product is the single prevalence squared, and the
      diagonal is zeroed anyway. */
  function ProximityAsWritten(rcas: Matrix, cols: nat, procedure: string, root: real -> real): Result<Matrix>
    requires IsMatrix(rcas, cols)
  {
    if ProcedureOf(procedure) == GeometricMean && cols != 1
    then Err(ValueError("shapes not aligned"))
    else Ok(ProximityOf(rcas, cols, ProcedureOf(procedure), root))
  }

  /** `proximity(rcas, procedure)`: counts `rcasᵀ·rcas`, NumPy column sums,
      the quotient, and `np.fill_diagonal(phi, 0)`. A result, when there is
      one, is symmetric with a zero diagonal whatever the input. */
  method Proximity(rcas: Matrix, cols: nat, procedure: string, root: real -> real) returns (r: Result<Matrix>)
    requires IsMatrix(rcas, cols)
    ensures r == ProximityAsWritten(rcas, cols, procedure, root)
    ensures r.Err? <==> ProcedureOf(procedure) == GeometricMean && cols != 1
    ensures r.Ok? ==> |r.value| == cols && Symmetric(r.value)
    ensures r.Ok? ==> forall i :: 0 <= i < cols ==> r.value[i][i] == Fin(0.0)
  {
    var count := MatMul(Transpose(rcas, cols), rcas, cols);
    var kp0 := NumPyColSums(rcas, cols);
    if ProcedureOf(procedure) == GeometricMean && cols != 1 {
      return Err(ValueError("shapes not aligned"));
    }
    var phi := FillProximity(count, kp0, ProcedureOf(procedure), root);
    GramIsSymmetric(rcas, cols);
    PhiSymmetric(count, kp0, ProcedureOf(procedure), root);
    r := Ok(phi);
  }

  /** Every "sqrt" call on more than one activity raises, and every other
      call returns the proximity of the frame. */
  lemma SqrtShapeFails(rcas: Matrix, cols: nat, procedure: string, root: real -> real)
    requires IsMatrix(rcas, cols)
    ensures procedure == "sqrt" && cols >= 2 ==> ProximityAsWritten(rcas, cols, procedure, root).Err?
    ensures procedure != "sqrt" || cols == 1 ==>
              ProximityAsWritten(rcas, cols, procedure, root) == Ok(ProximityOf(rcas, cols, ProcedureOf(procedure), root))
  {
  }

  /** On a 0/1 frame the proximity of the frame is the pandas one at cutoff
      1 under both procedures, and the proximity laws hold. */
  lemma CorrectedProximityAgrees(rcas: Matrix, cols: nat, p: Procedure, root: real -> real)
    requires IsBinary(rcas, cols)
    ensures ProximityOf(rcas, cols, p, root) == PandasProximity.ProximityOf(rcas, cols, 1.0, p, root)
    ensures ProximityLaws(ProximityOf(rcas, cols, p, root), Prevalence(rcas, cols), p, root)
  {
    GeBinarizeKeepsBinary(rcas, cols);
    BinaryColSumsAgree(rcas, cols);
    BinaryProximity(rcas, cols, p, root);
  }

  /** On a 0/1 frame every result `proximity` returns is the pandas
      proximity at cutoff 1 and obeys the proximity laws; "max" always
      returns one. */
  lemma BinaryProximityAgrees(rcas: Matrix, cols: nat, procedure: string, root: real -> real)
    requires IsBinary(rcas, cols)
    ensures procedure != "sqrt" ==> ProximityAsWritten(rcas, cols, procedure, root).Ok?
    ensures var r := ProximityAsWritten(rcas, cols, procedure, root);
            r.Ok? ==> r.value == PandasProximity.ProximityOf(rcas, cols, 1.0, ProcedureOf(procedure), root)
    ensures var r := ProximityAsWritten(rcas, cols, procedure, root);
            r.Ok? ==> ProximityLaws(r.value, Prevalence(rcas, cols), ProcedureOf(procedure), root)
  {
    CorrectedProximityAgrees(rcas, cols, ProcedureOf(procedure), root);
  }

  /** Without binarization the quotient is not a probability: one location
      with RCA 2 in two activities gives a proximity of 2. */
  lemma RawProximityExceedsOne(root: real -> real)
    ensures var r := ProximityAsWritten([[Fin(2.0), Fin(2.0)]], 2, "max", root);
            r.Ok? && r.value[0][1] == Fin(2.0)
  {
    var m: Matrix := [[Fin(2.0), Fin(2.0)]];
    assert ProcedureOf("max") == Maximum;
    var c := Col(m, 2, 0);
    assert c == [Fin(2.0)];
    assert Col(m, 2, 1) == [Fin(2.0)];
    assert Gram(m, 2)[0][1] == NumDot(Transpose(m, 2)[0], Col(m, 2, 1));
    assert Transpose(m, 2)[0] == c;
    assert NumSum(c) == Fin(2.0) by {
      assert c[1..] == [];
    }
    assert NumDot(c, c) == Fin(4.0) by {
      assert c[1..] == [];
    }
  }

  /** An undefined RCA in column `a` makes `a`'s NumPy column sum undefined
      and every count `NumDot(col a, col b)` undefined, so the proximity of
      `a` with any other activity is undefined; "max" returns it so, and
      "sqrt" raises, since there are at least two activities. */
  lemma MissingRcaUndefines(rcas: Matrix, cols: nat, procedure: string, root: real -> real, l: nat, a: nat, b: nat)
    requires IsMatrix(rcas, cols) && l < |rcas| && a < cols && b < cols && a != b
    requires rcas[l][a].NaN?
    ensures ProximityOf(rcas, cols, ProcedureOf(procedure), root)[a][b].NaN?
    ensures ProximityOf(rcas, cols, ProcedureOf(procedure), root)[b][a].NaN?
    ensures procedure == "sqrt" ==> ProximityAsWritten(rcas, cols, procedure, root).Err?
    ensures var r := ProximityAsWritten(rcas, cols, procedure, root);
            procedure != "sqrt" ==> r.Ok? && r.value[a][b].NaN? && r.value[b][a].NaN?
  {
    var c := Col(rcas, cols, a);
    NumSumDefined(c);
    assert !AllFin(c) by {
      assert c[l].NaN?;
    }
    assert NumPyColSums(rcas, cols)[a].NaN?;
  }

  // ---------------------------------------------------------- relatedness

  /** `relatedness(rcas, proximities)`: `(rcas·Φ) / (np.ones·Φ)`. */
  function Relatedness(rcas: Matrix, cols: nat, phi: Matrix): (d: Matrix)
    requires IsMatrix(rcas, cols) && |phi| == cols && IsMatrix(phi, cols)
    ensures |d| == |rcas| && IsMatrix(d, cols)
  {
    Density(rcas, phi, cols, Ones(|rcas|, cols))
  }

  /** `1 - relatedness(rcas, proximities)`. */
  function Distance(rcas: Matrix, cols: nat, phi: Matrix): (d: Matrix)
    requires IsMatrix(rcas, cols) && |phi| == cols && IsMatrix(phi, cols)
    ensures |d| == |rcas| && IsMatrix(d, cols)
  {
    Flip(Relatedness(rcas, cols, phi), cols)
  }

  /** The denominator is the NumPy column sum of Φ, for every location and
      whether or not the location's row is defined. */
  lemma RelatednessCell(rcas: Matrix, cols: nat, phi: Matrix, l: nat, a: nat)
    requires IsMatrix(rcas, cols) && |phi| == cols && IsMatrix(phi, cols) && l < |rcas| && a < cols
    ensures Relatedness(rcas, cols, phi)[l][a] == Div(NumDot(rcas[l], Col(phi, cols, a)), NumSum(Col(phi, cols, a)))
  {
    var ones := Ones(|rcas|, cols);
    assert AllOnes(ones[l]);
    DensityAt(rcas, phi, cols, ones, l, a);
    NumDotOnes(ones[l], Col(phi, cols, a));
  }

  /** On a 0/1 frame the NumPy relatedness is the pandas one at cutoff 1
      with the same proximities. */
  lemma BinaryRelatednessAgrees(rcas: Matrix, cols: nat, phi: Matrix)
    requires IsBinary(rcas, cols) && |phi| == cols && IsMatrix(phi, cols)
    ensures Relatedness(rcas, cols, phi) == PandasRelatedness.Relatedness(rcas, cols, 1.0, Some(phi))
  {
    GeBinarizeKeepsBinary(rcas, cols);
    PandasRelatedness.AsDensity(rcas, cols, 1.0, Some(phi));
  }

  /** For a 0/1 row, a value is undefined exactly when its proximity column
      has an undefined cell or sums to 0, and for a non-negative column with
      a positive sum the relatedness and the distance lie in [0, 1] and add
      up to 1. */
  lemma BinaryRowBounded(rcas: Matrix, cols: nat, phi: Matrix, l: nat, a: nat)
    requires IsMatrix(rcas, cols) && |phi| == cols && IsMatrix(phi, cols) && l < |rcas| && a < cols
    requires AllBits(rcas[l])
    ensures var w := Col(phi, cols, a);
            var d := Relatedness(rcas, cols, phi)[l][a];
            && (d.NaN? <==> !AllFin(w) || Sum(Vals(w)) == 0.0)
            && (d.NaN? <==> Distance(rcas, cols, phi)[l][a].NaN?)
    ensures var w := Col(phi, cols, a);
            var d := Relatedness(rcas, cols, phi)[l][a];
            var e := Distance(rcas, cols, phi)[l][a];
            AllNonNeg(w) && Sum(Vals(w)) > 0.0 ==>
              d.Fin? && e.Fin? && 0.0 <= d.v <= 1.0 && 0.0 <= e.v <= 1.0 && d.v + e.v == 1.0
  {
    var ones := Ones(|rcas|, cols);
    assert AllOnes(ones[l]);
    DensityCell(rcas, phi, cols, ones, l, a);
  }

  /** Without binarization the relatedness is not a probability: with one
      activity of non-zero self-proximity, a location's relatedness is its
      raw RCA, so an RCA of 2 gives 2. */
  lemma RawRelatednessExceedsOne(rcas: Matrix, phi: Matrix, l: nat)
    requires IsMatrix(rcas, 1) && |phi| == 1 && IsMatrix(phi, 1) && l < |rcas|
    requires rcas[l][0].Fin? && phi[0][0].Fin? && phi[0][0].v != 0.0
    ensures Relatedness(rcas, 1, phi)[l][0] == rcas[l][0]
  {
    var w := Col(phi, 1, 0);
    RelatednessCell(rcas, 1, phi, l, 0);
    assert NumSum(w) == Fin(phi[0][0].v) by {
      assert w[1..] == [];
    }
    assert NumDot(rcas[l], w) == Fin(rcas[l][0].v * phi[0][0].v) by {
      assert rcas[l][1..] == [] && w[1..] == [];
    }
    Cancel(rcas[l][0].v, phi[0][0].v);
  }

  lemma Cancel(r: real, c: real)
    requires c != 0.0
    ensures Div(Fin(r * c), Fin(c)) == Fin(r)
  {
  }

  // ----------------------------------------------------- opportunity gain

  /** `opportunity_gain(rcas, proximities, pci)` as written: `relatedness`
      returns a NumPy array, so `1 - dcp` is one too, and `dcp.multiply(pci)`
      raises because arrays have no `multiply` method. */
  function OpportunityGain(rcas: Matrix, cols: nat, phi: Matrix, pci: seq<Num>): (r: Result<Matrix>)
    requires IsMatrix(rcas, cols) && |phi| == cols && IsMatrix(phi, cols) && |pci| == cols
  {
    Err(AttributeError("multiply"))
  }

  /** Every call fails, whatever the frames. */
  lemma OpportunityGainFails(rcas: Matrix, cols: nat, phi: Matrix, pci: seq<Num>)
    requires IsMatrix(rcas, cols) && |phi| == cols && IsMatrix(phi, cols) && |pci| == cols
    ensures OpportunityGain(rcas, cols, phi, pci).Err?
    ensures OpportunityGain(rcas, cols, phi, pci).error == AttributeError("multiply")
  {
  }

  /** The evidently intended result: the right-hand part scaled column by
      column (`(1 - dcp) * pci`), with the NumPy relatedness of the masked
      inverse. */
  function CorrectedGain(rcas: Matrix, cols: nat, phi: Matrix, pci: seq<Num>): (g: Matrix)
    requires IsMatrix(rcas, cols) && |phi| == cols && IsMatrix(phi, cols) && |pci| == cols
    ensures |g| == |rcas| && IsMatrix(g, cols)
  {
    var m := MaskBinarize(rcas, cols);
    GainWith(m, phi, cols, pci, Relatedness(Flip(m, cols), cols, phi))
  }

  /** The NumPy relatedness of the inverse agrees with the `m*0 + 1`
      density: a row with an undefined cell is undefined either way. */
  lemma {:induction false} InverseAgrees(m: Matrix, cols: nat, phi: Matrix)
    requires IsMatrix(m, cols) && |phi| == cols && IsMatrix(phi, cols)
    ensures Relatedness(Flip(m, cols), cols, phi) == InverseDensity(m, phi, cols)
  {
    var inv := Flip(m, cols);
    var x := Relatedness(inv, cols, phi);
    var y := InverseDensity(m, phi, cols);
    var o := OnesLike(inv, cols);
    forall l, a | 0 <= l < |m| && 0 <= a < cols ensures x[l][a] == y[l][a] {
      RelatednessCell(inv, cols, phi, l, a);
      DensityAt(inv, phi, cols, o, l, a);
      if AllFin(inv[l]) {
        OnesLikeRow(inv, cols, l);
        NumDotOnes(o[l], Col(phi, cols, a));
      } else {
        NumDotDefined(inv[l], Col(phi, cols, a));
      }
    }
    forall l | 0 <= l < |m| ensures x[l] == y[l] {
      assert forall a :: 0 <= a < cols ==> x[l][a] == y[l][a];
    }
  }

  /** The corrected gain is the shared formula on the masked frame. */
  lemma CorrectedIsGain(rcas: Matrix, cols: nat, phi: Matrix, pci: seq<Num>)
    requires IsMatrix(rcas, cols) && |phi| == cols && IsMatrix(phi, cols) && |pci| == cols
    ensures CorrectedGain(rcas, cols, phi, pci) == GainFrom(MaskBinarize(rcas, cols), phi, cols, pci)
  {
    InverseAgrees(MaskBinarize(rcas, cols), cols, phi);
  }

  /** On a frame without undefined cells the corrected gain is the pandas
      opportunity gain at cutoff 1 with the same proximities. */
  lemma CorrectedAgreesWithPandas(rcas: Matrix, cols: nat, phi: Matrix, pci: seq<Num>)
    requires NoMissing(rcas, cols) && |phi| == cols && IsMatrix(phi, cols) && |pci| == cols
    ensures CorrectedGain(rcas, cols, phi, pci) == PandasOppGain.OpportunityGain(rcas, cols, pci, 1.0, Some(phi))
  {
    CorrectedIsGain(rcas, cols, phi, pci);
    PandasOppGain.AsGain(rcas, cols, pci, 1.0, Some(phi));
    MaskAgreesWithGe(rcas, cols);
  }

  /** An undefined RCA makes the location's whole gain row undefined. */
  lemma CorrectedMissingRow(rcas: Matrix, cols: nat, phi: Matrix, pci: seq<Num>, l: nat, b: nat, a: nat)
    requires IsMatrix(rcas, cols) && |phi| == cols && IsMatrix(phi, cols) && |pci| == cols
    requires l < |rcas| && b < cols && a < cols && rcas[l][b].NaN?
    ensures CorrectedGain(rcas, cols, phi, pci)[l][a].NaN?
  {
    CorrectedIsGain(rcas, cols, phi, pci);
    MissingRow(MaskBinarize(rcas, cols), phi, cols, pci, l, b, a);
  }

  // ------------------------------------------------------------------ pmi

  /** The index `_pmi` computes: the masked assignment at 1 on a copy of
      the RCAs, then the shared product-measure formula. */
  function MaskedPmi(tbl: Table, rcas: Matrix, measure: Column, cols: nat): (p: seq<Num>)
    requires Fits(tbl, rcas, measure, cols)
    ensures |p| == cols
  {
    PmiOf(tbl, MaskBinarize(rcas, cols), measure, cols)
  }

  /** `_pmi(tbl, rcas, measure, measure_name)`: masks a copy of `rcas`,
      computes the index and renames its column in place. */
  method MeasureFrame(tbl: Table, rcas: Matrix, measure: Column, cols: nat, measureName: string)
    returns (f: IndexFrame)
    requires Fits(tbl, rcas, measure, cols)
    ensures fresh(f)
    ensures f.column == measureName && f.values == MaskedPmi(tbl, rcas, measure, cols)
  {
    var m := Frames.MaskBinarizeCopy(rcas, cols);
    f := new IndexFrame(measure.name, PmiOf(tbl, m, measure, cols));
    f.Rename(measureName);
  }

  /** `pgi(tbl, rcas, gini)`. */
  method Pgi(tbl: Table, rcas: Matrix, gini: Column, cols: nat) returns (f: IndexFrame)
    requires Fits(tbl, rcas, gini, cols)
    ensures fresh(f)
    ensures f.column == PandasPmi.PgiName && f.values == MaskedPmi(tbl, rcas, gini, cols)
  {
    f := MeasureFrame(tbl, rcas, gini, cols, PandasPmi.PgiName);
  }

  /** `peii(tbl, rcas, emissions)`. */
  method Peii(tbl: Table, rcas: Matrix, emissions: Column, cols: nat) returns (f: IndexFrame)
    requires Fits(tbl, rcas, emissions, cols)
    ensures fresh(f)
    ensures f.column == PandasPmi.PeiiName && f.values == MaskedPmi(tbl, rcas, emissions, cols)
  {
    f := MeasureFrame(tbl, rcas, emissions, cols, PandasPmi.PeiiName);
  }

  /** On RCAs without undefined cells the masked index is the pandas `pmi`
      at cutoff 1. */
  lemma MaskedPmiAgrees(tbl: Table, rcas: Matrix, measure: Column, cols: nat)
    requires Fits(tbl, rcas, measure, cols) && NoMissing(rcas, cols)
    ensures MaskedPmi(tbl, rcas, measure, cols) == PandasPmi.Pmi(tbl, rcas, measure, cols, 1.0)
  {
    MaskAgreesWithGe(rcas, cols);
  }

  /** An undefined RCA at a kept location makes the activity's index
      undefined: the masked copy keeps it, and the dot product carries it. */
  lemma MissingRcaUndefined(tbl: Table, rcas: Matrix, measure: Column, cols: nat, l: nat, a: nat)
    requires Fits(tbl, rcas, measure, cols) && l < |tbl.cells| && a < cols
    requires KeptRow(tbl, measure, l) && rcas[l][a].NaN?
    ensures MaskedPmi(tbl, rcas, measure, cols)[a].NaN?
  {
    MissingAdvantageUndefined(tbl, MaskBinarize(rcas, cols), measure, cols, l, a);
  }

  /** With defined RCAs at the kept locations, non-negative exports,
      positive totals, and a kept location holding `a` with RCA at least 1
      and a non-zero export, the index of `a` is defined and lies between
      the lowest and highest measure of the locations that contribute. */
  lemma MaskedPmiBounds(tbl: Table, rcas: Matrix, measure: Column, cols: nat, a: nat, lo: real, hi: real)
    requires Fits(tbl, rcas, measure, cols) && a < cols
    requires NonNegCells(tbl.cells, cols) && KeptTotalsPositive(tbl, measure, cols)
    requires forall l :: 0 <= l < |tbl.cells| && KeptRow(tbl, measure, l) ==> rcas[l][a].Fin?
    requires SomeContributor(tbl, MaskBinarize(rcas, cols), measure, cols, a)
    requires ContributorsWithin(tbl, MaskBinarize(rcas, cols), measure, cols, a, lo, hi)
    ensures MaskedPmi(tbl, rcas, measure, cols)[a].Fin?
    ensures lo <= MaskedPmi(tbl, rcas, measure, cols)[a].v <= hi
  {
    var m := MaskBinarize(rcas, cols);
    assert KeptBits(tbl, m, measure, cols, a);
    PmiBetween(tbl, m, measure, cols, a, lo, hi);
  }
}
