/** The opportunity-gain formula shared by every generation of the library.

    For an advantage matrix M, proximities Φ and a PCI vector:
    `prox_ratio` divides each column of Φ by its total; the inverse `1 - M`
    marks the activities a location does not hold; `middle` scales the
    inverse by each activity's PCI; the right-hand part scales
    `1 - density(1 - M, Φ)` by PCI; and the gain is
    `middle·prox_ratio - right`. */
module Gain {
  import opened Numeric
  import opened Algebra
  import opened Advantage
  import opened Space

  /** `proximities / proximities.sum()`: each column divided by its total
      (the total skips undefined cells, as pandas `sum` does). */
  function ProxRatio(phi: Matrix, cols: nat): (q: Matrix)
    requires IsMatrix(phi, cols)
    ensures |q| == |phi| && IsMatrix(q, cols)
  {
    var s := ColSkipSums(phi, cols);
    seq(|phi|, b requires 0 <= b < |phi| => seq(cols, a requires 0 <= a < cols => Div(phi[b][a], Fin(s[a]))))
  }

  /** `frame.multiply(pci)`: column `a` scaled by `pci[a]`. */
  function ScaleColumns(m: Matrix, cols: nat, pci: seq<Num>): (s: Matrix)
    requires IsMatrix(m, cols) && |pci| == cols
    ensures |s| == |m| && IsMatrix(s, cols)
  {
    seq(|m|, l requires 0 <= l < |m| => seq(cols, a requires 0 <= a < cols => Mul(m[l][a], pci[a])))
  }

  /** `density(1 - m, Φ)` with the `m*0 + 1` denominator row. */
  function InverseDensity(m: Matrix, phi: Matrix, cols: nat): (d: Matrix)
    requires IsMatrix(m, cols) && |phi| == cols && IsMatrix(phi, cols)
    ensures |d| == |m| && IsMatrix(d, cols)
  {
    var inverse := Flip(m, cols);
    Density(inverse, phi, cols, OnesLike(inverse, cols))
  }

  /** `(1 - m).multiply(pci)`. */
  function Middle(m: Matrix, cols: nat, pci: seq<Num>): (s: Matrix)
    requires IsMatrix(m, cols) && |pci| == cols
    ensures |s| == |m| && IsMatrix(s, cols)
  {
    ScaleColumns(Flip(m, cols), cols, pci)
  }

  /** `middle.dot(prox_ratio) - (1 - dcp).multiply(pci)`, for whatever
      relatedness `dcp` of the inverse the caller computed. */
  function GainWith(m: Matrix, phi: Matrix, cols: nat, pci: seq<Num>, dcp: Matrix): (g: Matrix)
    requires IsMatrix(m, cols) && |phi| == cols && IsMatrix(phi, cols) && |pci| == cols
    requires |dcp| == |m| && IsMatrix(dcp, cols)
    ensures |g| == |m| && IsMatrix(g, cols)
  {
    var right := ScaleColumns(Flip(dcp, cols), cols, pci);
    var left := MatMul(Middle(m, cols, pci), ProxRatio(phi, cols), cols);
    seq(|m|, l requires 0 <= l < |m| => seq(cols, a requires 0 <= a < cols => Sub(left[l][a], right[l][a])))
  }

  /** The gain for advantage matrix `m`, with the density of the inverse. */
  function GainFrom(m: Matrix, phi: Matrix, cols: nat, pci: seq<Num>): (g: Matrix)
    requires IsMatrix(m, cols) && |phi| == cols && IsMatrix(phi, cols) && |pci| == cols
    ensures |g| == |m| && IsMatrix(g, cols)
  {
    GainWith(m, phi, cols, pci, InverseDensity(m, phi, cols))
  }

  // --------------------------------------------------------------- lemmas

  /** Every column of the ratio matrix whose total is non-zero sums to 1,
      and it is fully defined when the proximity column is. */
  lemma RatioColumnSumsToOne(phi: Matrix, cols: nat, a: nat)
    requires IsMatrix(phi, cols) && a < cols && SkipSum(Col(phi, cols, a)) != 0.0
    ensures SkipSum(Col(ProxRatio(phi, cols), cols, a)) == 1.0
    ensures AllFin(Col(phi, cols, a)) ==> AllFin(Col(ProxRatio(phi, cols), cols, a))
  {
    var w, e := Col(phi, cols, a), Col(ProxRatio(phi, cols), cols, a);
    var s := SkipSum(w);
    RatioVals(phi, cols, a);
    SkipSumIsSumOfVals(w);
    SkipSumIsSumOfVals(e);
    SumDiv(Vals(w), Vals(e), s);
    DivSelf(s);
  }

  /** A ratio column holds the proximity column's values over its total. */
  lemma RatioVals(phi: Matrix, cols: nat, a: nat)
    requires IsMatrix(phi, cols) && a < cols && SkipSum(Col(phi, cols, a)) != 0.0
    ensures var w := Col(phi, cols, a);
            var e := Col(ProxRatio(phi, cols), cols, a);
            && |e| == |w|
            && (forall b :: 0 <= b < |w| ==> Vals(e)[b] == Vals(w)[b] / SkipSum(w))
            && (AllFin(w) ==> AllFin(e))
  {
    var w, e := Col(phi, cols, a), Col(ProxRatio(phi, cols), cols, a);
    forall b | 0 <= b < |w| ensures Vals(e)[b] == Vals(w)[b] / SkipSum(w) && (w[b].Fin? ==> e[b].Fin?) {
      assert e[b] == Div(w[b], Fin(SkipSum(w)));
    }
  }

  /** `middle` is 0 where the location holds the activity (and its PCI is
      defined) and is the activity's PCI where it does not. */
  lemma MiddleCell(m: Matrix, cols: nat, pci: seq<Num>, l: nat, a: nat)
    requires IsBinary(m, cols) && |pci| == cols && l < |m| && a < cols
    ensures var middle := Middle(m, cols, pci);
            && (m[l][a] == Fin(1.0) && pci[a].Fin? ==> middle[l][a] == Fin(0.0))
            && (m[l][a] == Fin(0.0) ==> middle[l][a] == pci[a])
  {
  }

  /** One gain cell: the middle row against the ratio column, minus the
      complement of the inverse density scaled by PCI. */
  lemma GainAt(m: Matrix, phi: Matrix, cols: nat, pci: seq<Num>, l: nat, a: nat)
    requires IsMatrix(m, cols) && |phi| == cols && IsMatrix(phi, cols) && |pci| == cols
    requires l < |m| && a < cols
    ensures GainFrom(m, phi, cols, pci)[l][a] ==
      Sub(NumDot(Middle(m, cols, pci)[l], Col(ProxRatio(phi, cols), cols, a)),
          Mul(Sub(Fin(1.0), InverseDensity(m, phi, cols)[l][a]), pci[a]))
  {
  }

  /** The density of the inverse is 0 for a location holding everything
      and 1 for one holding nothing. */
  lemma InverseExtremes(m: Matrix, phi: Matrix, cols: nat, l: nat, a: nat)
    requires IsMatrix(m, cols) && |phi| == cols && IsMatrix(phi, cols) && l < |m| && a < cols
    requires AllFin(Col(phi, cols, a)) && Sum(Vals(Col(phi, cols, a))) != 0.0
    ensures AllOnes(m[l]) ==> InverseDensity(m, phi, cols)[l][a] == Fin(0.0)
    ensures (forall b :: 0 <= b < cols ==> m[l][b] == Fin(0.0)) ==> InverseDensity(m, phi, cols)[l][a] == Fin(1.0)
  {
    var inverse := Flip(m, cols);
    var ones := OnesLike(inverse, cols);
    FlipRow(m, cols, l);
    if AllOnes(m[l]) || forall b :: 0 <= b < cols ==> m[l][b] == Fin(0.0) {
      assert AllFin(inverse[l]);
      OnesLikeRow(inverse, cols, l);
      DensityExtremeRows(inverse, phi, cols, ones, l, a);
    }
  }

  /** The left-hand term is 0 for a location holding everything, and the
      proximity-weighted PCI average for one holding nothing. */
  lemma LeftExtremes(m: Matrix, phi: Matrix, cols: nat, pci: seq<Num>, l: nat, a: nat)
    requires IsMatrix(m, cols) && |phi| == cols && IsMatrix(phi, cols) && |pci| == cols
    requires l < |m| && a < cols && AllFin(pci)
    requires AllFin(Col(phi, cols, a)) && Sum(Vals(Col(phi, cols, a))) != 0.0
    ensures var left := NumDot(Middle(m, cols, pci)[l], Col(ProxRatio(phi, cols), cols, a));
            AllOnes(m[l]) ==> left == Fin(0.0)
    ensures var w := Col(phi, cols, a);
            var left := NumDot(Middle(m, cols, pci)[l], Col(ProxRatio(phi, cols), cols, a));
            (forall b :: 0 <= b < cols ==> m[l][b] == Fin(0.0)) ==> left == Fin(Dot(Vals(pci), Vals(w)) / Sum(Vals(w)))
  {
    var w := Col(phi, cols, a);
    var row := Middle(m, cols, pci)[l];
    var e := Col(ProxRatio(phi, cols), cols, a);
    SkipSumIsSumOfVals(w);
    RatioVals(phi, cols, a);
    if AllOnes(m[l]) {
      assert forall b :: 0 <= b < cols ==> row[b] == Fin(0.0);
      NumDotDefined(row, e);
      DotZeros(Vals(row), Vals(e));
    }
    if forall b :: 0 <= b < cols ==> m[l][b] == Fin(0.0) {
      assert row == pci by {
        assert forall b :: 0 <= b < cols ==> row[b] == pci[b];
      }
      NumDotDefined(pci, e);
      DotDiv(Vals(pci), Vals(w), Vals(e), Sum(Vals(w)));
    }
  }

  /** A location already holding every activity gains `-pci[a]` in every
      activity whose proximity column is defined with a non-zero total. */
  lemma HoldsEverything(m: Matrix, phi: Matrix, cols: nat, pci: seq<Num>, l: nat, a: nat)
    requires IsMatrix(m, cols) && |phi| == cols && IsMatrix(phi, cols) && |pci| == cols
    requires l < |m| && a < cols && AllOnes(m[l]) && AllFin(pci)
    requires AllFin(Col(phi, cols, a)) && Sum(Vals(Col(phi, cols, a))) != 0.0
    ensures GainFrom(m, phi, cols, pci)[l][a] == Fin(-pci[a].v)
  {
    GainAt(m, phi, cols, pci, l, a);
    InverseExtremes(m, phi, cols, l, a);
    LeftExtremes(m, phi, cols, pci, l, a);
  }

  /** A location holding nothing gains, in activity `a`, the average PCI
      weighted by the proximities to `a`. */
  lemma HoldsNothing(m: Matrix, phi: Matrix, cols: nat, pci: seq<Num>, l: nat, a: nat)
    requires IsMatrix(m, cols) && |phi| == cols && IsMatrix(phi, cols) && |pci| == cols
    requires l < |m| && a < cols && AllFin(pci)
    requires forall b :: 0 <= b < cols ==> m[l][b] == Fin(0.0)
    requires AllFin(Col(phi, cols, a)) && Sum(Vals(Col(phi, cols, a))) != 0.0
    ensures var w := Col(phi, cols, a);
            GainFrom(m, phi, cols, pci)[l][a] == Fin(Dot(Vals(pci), Vals(w)) / Sum(Vals(w)))
  {
    GainAt(m, phi, cols, pci, l, a);
    InverseExtremes(m, phi, cols, l, a);
    LeftExtremes(m, phi, cols, pci, l, a);
  }

  /** With non-negative proximities, the gain of a location holding
      nothing lies between the smallest and the largest PCI. */
  lemma HoldsNothingBounded(m: Matrix, phi: Matrix, cols: nat, pci: seq<Num>, l: nat, a: nat, lo: real, hi: real)
    requires IsMatrix(m, cols) && |phi| == cols && IsMatrix(phi, cols) && |pci| == cols
    requires l < |m| && a < cols && AllFin(pci)
    requires forall b :: 0 <= b < cols ==> m[l][b] == Fin(0.0)
    requires AllNonNeg(Col(phi, cols, a)) && Sum(Vals(Col(phi, cols, a))) != 0.0
    requires forall b :: 0 <= b < cols ==> lo <= pci[b].v <= hi
    ensures var g := GainFrom(m, phi, cols, pci)[l][a];
            g.Fin? && lo <= g.v <= hi
  {
    var w := Vals(Col(phi, cols, a));
    HoldsNothing(m, phi, cols, pci, l, a);
    SumNonNeg(w);
    assert NonNegReals(w) && WeightedWithin(Vals(pci), w, lo, hi);
    WeightedAverage(Vals(pci), w, lo, hi);
  }

  /** An undefined advantage cell makes the location's whole gain row
      undefined. */
  lemma MissingRow(m: Matrix, phi: Matrix, cols: nat, pci: seq<Num>, l: nat, b: nat, a: nat)
    requires IsMatrix(m, cols) && |phi| == cols && IsMatrix(phi, cols) && |pci| == cols
    requires l < |m| && b < cols && a < cols && m[l][b].NaN?
    ensures GainFrom(m, phi, cols, pci)[l][a].NaN?
  {
    var middle: Matrix := Middle(m, cols, pci);
    assert middle[l][b].NaN?;
    GainAt(m, phi, cols, pci, l, a);
    NumDotDefined(middle[l], Col(ProxRatio(phi, cols), cols, a));
  }
}
