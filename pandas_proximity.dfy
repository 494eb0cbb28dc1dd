/** `proximity(df_rca, cutoff, procedure)` of the pandas engine.

    The RCA frame is binarized with `ge(cutoff)` (an undefined RCA becomes
    0), the co-occurrence counts are `Mᵀ·M` of the zero-filled transpose,
    the prevalences are the column sums of M, and the quotient is written
    into a fresh buffer whose diagonal is then overwritten with 0. */
module PandasProximity {
  import opened Numeric
  import opened Algebra
  import opened Advantage
  import opened Space

  /** The proximity matrix the procedure defines for an RCA frame. */
  function ProximityOf(rca: Matrix, cols: nat, cutoff: real, p: Procedure, root: real -> real): (phi: Matrix)
    requires IsMatrix(rca, cols)
    ensures |phi| == cols && IsMatrix(phi, cols)
  {
    var m := GeBinarize(rca, cols, cutoff);
    PhiFrom(Gram(m, cols), Prevalence(m, cols), p, root)
  }

  /** Location `l` has an advantage in activity `a` at the cutoff. */
  predicate Holds(rca: Matrix, cols: nat, cutoff: real, l: nat, a: nat)
    requires IsMatrix(rca, cols) && l < |rca| && a < cols
  {
    AtLeast(rca[l][a], cutoff)
  }

  method Proximity(rca: Matrix, cols: nat, cutoff: real, procedure: string, root: real -> real) returns (phi: Matrix)
    requires IsMatrix(rca, cols)
    ensures |phi| == cols && IsMatrix(phi, cols)
    ensures phi == ProximityOf(rca, cols, cutoff, ProcedureOf(procedure), root)
    ensures ProximityLaws(phi, Prevalence(GeBinarize(rca, cols, cutoff), cols), ProcedureOf(procedure), root)
  {
    var m := GeBinarize(rca, cols, cutoff);
    var mt := FillMissing(Transpose(m, cols), |m|);
    var count := MatMul(mt, Transpose(mt, |m|), cols);
    FillBinary(Transpose(m, cols), |m|);
    TransposeTwice(m, cols);
    var k := Prevalence(m, cols);
    phi := FillProximity(count, k, ProcedureOf(procedure), root);
    BinaryProximity(m, cols, ProcedureOf(procedure), root);
  }

  /** `count[i][j]` is the number of locations with an advantage in both
      activities, `k[i]` the number with an advantage in i, and the count
      is at most either. */
  lemma CoOccurrence(rca: Matrix, cols: nat, cutoff: real, i: nat, j: nat)
    requires IsMatrix(rca, cols) && i < cols && j < cols
    ensures var m := GeBinarize(rca, cols, cutoff);
            var both := CountBoth(Vals(Col(m, cols, i)), Vals(Col(m, cols, j)));
            && Gram(m, cols)[i][j] == Fin(both as real)
            && Gram(m, cols)[i][j] == Gram(m, cols)[j][i]
            && Prevalence(m, cols)[i] == Fin(CountOnes(Vals(Col(m, cols, i))) as real)
            && both <= CountOnes(Vals(Col(m, cols, i)))
            && both <= CountOnes(Vals(Col(m, cols, j)))
  {
    var m := GeBinarize(rca, cols, cutoff);
    GramCounts(m, cols, i, j);
    GramSymmetric(m, cols, i, j);
  }

  /** An activity has prevalence 0 exactly when no location reaches the
      cutoff in it (an undefined RCA never does). */
  lemma NobodyHolds(rca: Matrix, cols: nat, cutoff: real, a: nat)
    requires IsMatrix(rca, cols) && a < cols
    ensures Prevalence(GeBinarize(rca, cols, cutoff), cols)[a] == Fin(0.0) <==>
            forall l :: 0 <= l < |rca| ==> !Holds(rca, cols, cutoff, l, a)
  {
    var m := GeBinarize(rca, cols, cutoff);
    var c := Col(m, cols, a);
    ColOfBinary(m, cols, a);
    SkipSumIsSumOfVals(c);
    SumOfBits(Vals(c));
    CountOnesZero(Vals(c));
    assert forall l :: 0 <= l < |rca| ==> (Vals(c)[l] == 0.0 <==> !Holds(rca, cols, cutoff, l, a));
  }
}
