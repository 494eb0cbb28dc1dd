/** `relatedness` and `distance` of the pandas engine.

    Relatedness (density) of location l in activity a is the Φ-weighted
    share of the activities l holds: `(M·Φ)[l][a] / (ones·Φ)[l][a]`, with M
    binarized by `ge(cutoff)` and the ones frame built as `M*0 + 1`. When
    no proximities are passed they are computed with the max procedure and
    the same cutoff. Distance is `1 - relatedness`. */
module PandasRelatedness {
  import opened Numeric
  import opened Algebra
  import opened Advantage
  import opened Space
  import opened PandasProximity

  predicate ProximitiesFit(proximities: Option<Matrix>, cols: nat) {
    proximities.Some? ==> |proximities.value| == cols && IsMatrix(proximities.value, cols)
  }

  /** The proximities used: the given ones, or `proximity(df_rca, cutoff=cutoff)`.
      The max procedure never calls a root, so any root stands in. */
  function ProximitiesOr(rca: Matrix, cols: nat, cutoff: real, proximities: Option<Matrix>): (phi: Matrix)
    requires IsMatrix(rca, cols) && ProximitiesFit(proximities, cols)
    ensures |phi| == cols && IsMatrix(phi, cols)
  {
    if proximities.None? then ProximityOf(rca, cols, cutoff, Maximum, x => x) else proximities.value
  }

  function Relatedness(rca: Matrix, cols: nat, cutoff: real, proximities: Option<Matrix>): (d: Matrix)
    requires IsMatrix(rca, cols) && ProximitiesFit(proximities, cols)
    ensures |d| == |rca| && IsMatrix(d, cols)
  {
    var phi := ProximitiesOr(rca, cols, cutoff, proximities);
    var m := GeBinarize(rca, cols, cutoff);
    Density(m, phi, cols, OnesLike(m, cols))
  }

  /** `1 - relatedness(...)` with the same arguments. */
  function Distance(rca: Matrix, cols: nat, cutoff: real, proximities: Option<Matrix>): (d: Matrix)
    requires IsMatrix(rca, cols) && ProximitiesFit(proximities, cols)
    ensures |d| == |rca| && IsMatrix(d, cols)
  {
    Flip(Relatedness(rca, cols, cutoff, proximities), cols)
  }

  predicate HeldSomewhere(rca: Matrix, cols: nat, cutoff: real, a: nat)
    requires IsMatrix(rca, cols) && a < cols
  {
    exists l :: 0 <= l < |rca| && Holds(rca, cols, cutoff, l, a)
  }

  // --------------------------------------------------------------- lemmas

  /** The binarized frame has no missing cell, so `M*0 + 1` is all ones. */
  lemma AsDensity(rca: Matrix, cols: nat, cutoff: real, proximities: Option<Matrix>)
    requires IsMatrix(rca, cols) && ProximitiesFit(proximities, cols)
    ensures Relatedness(rca, cols, cutoff, proximities) ==
      Density(GeBinarize(rca, cols, cutoff), ProximitiesOr(rca, cols, cutoff, proximities), cols, Ones(|rca|, cols))
  {
    OnesLikeNoMissing(GeBinarize(rca, cols, cutoff), cols);
  }

  /** Omitting the proximities is the same as passing the max-procedure
      proximities at the same cutoff, whatever square root is used. */
  lemma DefaultProximity(rca: Matrix, cols: nat, cutoff: real, root: real -> real)
    requires IsMatrix(rca, cols)
    ensures Relatedness(rca, cols, cutoff, None) ==
            Relatedness(rca, cols, cutoff, Some(ProximityOf(rca, cols, cutoff, Maximum, root)))
  {
    var m := GeBinarize(rca, cols, cutoff);
    MaxIgnoresRoot(Gram(m, cols), Prevalence(m, cols), x => x, root);
  }

  /** The denominator is the column sum of Φ, the same for every location. */
  lemma RowIndependentDenominator(rca: Matrix, cols: nat, cutoff: real, proximities: Option<Matrix>, l: nat, a: nat)
    requires IsMatrix(rca, cols) && ProximitiesFit(proximities, cols) && l < |rca| && a < cols
    ensures var phi := ProximitiesOr(rca, cols, cutoff, proximities);
            Relatedness(rca, cols, cutoff, proximities)[l][a] ==
            Div(NumDot(GeBinarize(rca, cols, cutoff)[l], Col(phi, cols, a)), NumSum(Col(phi, cols, a)))
  {
    var phi := ProximitiesOr(rca, cols, cutoff, proximities);
    var m := GeBinarize(rca, cols, cutoff);
    var ones := Ones(|rca|, cols);
    AsDensity(rca, cols, cutoff, proximities);
    assert AllOnes(ones[l]);
    DensityAt(m, phi, cols, ones, l, a);
    NumDotOnes(ones[l], Col(phi, cols, a));
  }

  /** A relatedness value is undefined exactly when its proximity column
      has an undefined cell or sums to 0; for a non-negative column with a
      positive sum it lies in [0, 1]. */
  lemma Bounded(rca: Matrix, cols: nat, cutoff: real, proximities: Option<Matrix>, l: nat, a: nat)
    requires IsMatrix(rca, cols) && ProximitiesFit(proximities, cols) && l < |rca| && a < cols
    ensures var w := Col(ProximitiesOr(rca, cols, cutoff, proximities), cols, a);
            var d := Relatedness(rca, cols, cutoff, proximities)[l][a];
            && (d.NaN? <==> !AllFin(w) || Sum(Vals(w)) == 0.0)
            && (AllNonNeg(w) && Sum(Vals(w)) > 0.0 ==> d.Fin? && 0.0 <= d.v <= 1.0)
  {
    var phi := ProximitiesOr(rca, cols, cutoff, proximities);
    var m := GeBinarize(rca, cols, cutoff);
    var ones := Ones(|rca|, cols);
    AsDensity(rca, cols, cutoff, proximities);
    assert AllOnes(ones[l]);
    RowOfBinary(m, cols, l);
    DensityCell(m, phi, cols, ones, l, a);
  }

  /** A location with no advantage has relatedness 0 in every column of Φ
      that is defined and has a non-zero sum. */
  lemma NoAdvantage(rca: Matrix, cols: nat, cutoff: real, proximities: Option<Matrix>, l: nat, a: nat)
    requires IsMatrix(rca, cols) && ProximitiesFit(proximities, cols) && l < |rca| && a < cols
    requires var w := Col(ProximitiesOr(rca, cols, cutoff, proximities), cols, a);
             AllFin(w) && Sum(Vals(w)) != 0.0
    requires forall b :: 0 <= b < cols ==> !Holds(rca, cols, cutoff, l, b)
    ensures Relatedness(rca, cols, cutoff, proximities)[l][a] == Fin(0.0)
  {
    AsDensity(rca, cols, cutoff, proximities);
    forall b | 0 <= b < cols ensures !AtLeast(rca[l][b], cutoff) {
      assert !Holds(rca, cols, cutoff, l, b);
    }
    ExtremeRowWith(rca, cols, cutoff, ProximitiesOr(rca, cols, cutoff, proximities), l, a);
  }

  /** A location with an advantage in every activity has relatedness 1 in
      every column of Φ that is defined and has a non-zero sum. */
  lemma FullAdvantage(rca: Matrix, cols: nat, cutoff: real, proximities: Option<Matrix>, l: nat, a: nat)
    requires IsMatrix(rca, cols) && ProximitiesFit(proximities, cols) && l < |rca| && a < cols
    requires var w := Col(ProximitiesOr(rca, cols, cutoff, proximities), cols, a);
             AllFin(w) && Sum(Vals(w)) != 0.0
    requires forall b :: 0 <= b < cols ==> Holds(rca, cols, cutoff, l, b)
    ensures Relatedness(rca, cols, cutoff, proximities)[l][a] == Fin(1.0)
  {
    AsDensity(rca, cols, cutoff, proximities);
    forall b | 0 <= b < cols ensures AtLeast(rca[l][b], cutoff) {
      assert Holds(rca, cols, cutoff, l, b);
    }
    ExtremeRowWith(rca, cols, cutoff, ProximitiesOr(rca, cols, cutoff, proximities), l, a);
  }

  /** Both extremes for an arbitrary proximity matrix. */
  lemma ExtremeRowWith(rca: Matrix, cols: nat, cutoff: real, phi: Matrix, l: nat, a: nat)
    requires IsMatrix(rca, cols) && |phi| == cols && IsMatrix(phi, cols) && l < |rca| && a < cols
    requires AllFin(Col(phi, cols, a)) && Sum(Vals(Col(phi, cols, a))) != 0.0
    ensures (forall b :: 0 <= b < cols ==> !AtLeast(rca[l][b], cutoff)) ==>
            Density(GeBinarize(rca, cols, cutoff), phi, cols, Ones(|rca|, cols))[l][a] == Fin(0.0)
    ensures (forall b :: 0 <= b < cols ==> AtLeast(rca[l][b], cutoff)) ==>
            Density(GeBinarize(rca, cols, cutoff), phi, cols, Ones(|rca|, cols))[l][a] == Fin(1.0)
  {
    var m := GeBinarize(rca, cols, cutoff);
    var ones := Ones(|rca|, cols);
    assert AllOnes(ones[l]);
    GeRowExtremes(rca, cols, cutoff, l);
    DensityExtremeRows(m, phi, cols, ones, l, a);
  }

  /** With the default proximities, and every activity held by some
      location, every relatedness value is defined exactly when its
      proximity column has a positive sum, and then lies in [0, 1]. */
  lemma DefaultBounded(rca: Matrix, cols: nat, cutoff: real, l: nat, a: nat)
    requires IsMatrix(rca, cols) && l < |rca| && a < cols
    requires forall b :: 0 <= b < cols ==> HeldSomewhere(rca, cols, cutoff, b)
    ensures var w := Col(ProximitiesOr(rca, cols, cutoff, None), cols, a);
            var d := Relatedness(rca, cols, cutoff, None)[l][a];
            && (d.Fin? <==> Sum(Vals(w)) > 0.0)
            && (d.Fin? ==> 0.0 <= d.v <= 1.0)
  {
    var m := GeBinarize(rca, cols, cutoff);
    var k := Prevalence(m, cols);
    var phi := ProximitiesOr(rca, cols, cutoff, None);
    BinaryProximity(m, cols, Maximum, x => x);
    forall b | 0 <= b < cols ensures k[b] != Fin(0.0) {
      NobodyHolds(rca, cols, cutoff, b);
      assert HeldSomewhere(rca, cols, cutoff, b);
      var h :| 0 <= h < |rca| && Holds(rca, cols, cutoff, h, b);
    }
    var w := Col(phi, cols, a);
    assert AllNonNeg(w) by {
      forall b | 0 <= b < cols ensures w[b].Fin? && w[b].v >= 0.0 {
        assert w[b] == phi[b][a];
      }
    }
    SumNonNeg(Vals(w));
    Bounded(rca, cols, cutoff, None, l, a);
  }

  /** Distance is the complement of relatedness: defined exactly where it
      is, the two add up to 1, and so distance lies in [0, 1] wherever
      relatedness does. */
  lemma DistanceComplement(rca: Matrix, cols: nat, cutoff: real, proximities: Option<Matrix>, l: nat, a: nat)
    requires IsMatrix(rca, cols) && ProximitiesFit(proximities, cols) && l < |rca| && a < cols
    ensures var r := Relatedness(rca, cols, cutoff, proximities)[l][a];
            var d := Distance(rca, cols, cutoff, proximities)[l][a];
            && (d.Fin? <==> r.Fin?)
            && (d.Fin? ==> d.v + r.v == 1.0)
            && (r.Fin? && 0.0 <= r.v <= 1.0 ==> 0.0 <= d.v <= 1.0)
  {
    var r := Relatedness(rca, cols, cutoff, proximities);
    assert Distance(rca, cols, cutoff, proximities)[l][a] == Sub(Fin(1.0), r[l][a]);
  }
}
