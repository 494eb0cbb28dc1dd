/** Cross-proximity and cross-relatedness between two activity spaces
    observed over the same locations (rows).

    With 0/1 matrices A (locations × A-activities) and B (locations ×
    B-activities), `count = Aᵀ·B` counts the locations holding both i and
    j, `ka` and `kb` are the column sums, and the cross-proximity is
    `min(count/kb[j], count/ka[i])` with an undefined quotient read as 0.
    Unlike the proximity of one space, no diagonal is cleared. */
module CrossSpace {
  import opened Numeric
  import opened Algebra
  import opened Advantage
  import opened Space

  /** `a.T.dot(b)`. */
  function CrossCount(a: Matrix, colsA: nat, b: Matrix, colsB: nat): (c: Matrix)
    requires IsMatrix(a, colsA) && IsMatrix(b, colsB) && |a| == |b|
    ensures |c| == colsA && IsMatrix(c, colsB)
  {
    MatMul(Transpose(a, colsA), b, colsB)
  }

  /** `np.minimum` of the two quotients, each with `fillna(0)`. */
  function CrossCell(count: Num, ka: Num, kb: Num): Num {
    Min(FillZero(Div(count, kb)), FillZero(Div(count, ka)))
  }

  /** The cross-proximity of two 0/1 matrices over the same locations. */
  function CrossFrom(a: Matrix, colsA: nat, b: Matrix, colsB: nat): (x: Matrix)
    requires IsMatrix(a, colsA) && IsMatrix(b, colsB) && |a| == |b|
    ensures |x| == colsA && IsMatrix(x, colsB)
  {
    var count := CrossCount(a, colsA, b, colsB);
    var ka, kb := Prevalence(a, colsA), Prevalence(b, colsB);
    seq(colsA, i requires 0 <= i < colsA =>
      seq(colsB, j requires 0 <= j < colsB => CrossCell(count[i][j], ka[i], kb[j])))
  }

  /** `cross_proximity(rcas_a, rcas_b, cutoff=cutoff)`: both frames are
      binarized with `ge(cutoff)`. */
  function CrossProximity(rcasA: Matrix, colsA: nat, rcasB: Matrix, colsB: nat, cutoff: real): (x: Matrix)
    requires IsMatrix(rcasA, colsA) && IsMatrix(rcasB, colsB) && |rcasA| == |rcasB|
    ensures |x| == colsA && IsMatrix(x, colsB)
  {
    CrossFrom(GeBinarize(rcasA, colsA, cutoff), colsA, GeBinarize(rcasB, colsB, cutoff), colsB)
  }

  /** `cross_relatedness(df_rca, x_proximity, cutoff=cutoff)`:
      `(M·X) / (ones·X)` with M binarized with `ge(cutoff)`. */
  function CrossRelatedness(rca: Matrix, colsA: nat, x: Matrix, colsB: nat, cutoff: real): (d: Matrix)
    requires IsMatrix(rca, colsA) && |x| == colsA && IsMatrix(x, colsB)
    ensures |d| == |rca| && IsMatrix(d, colsB)
  {
    Density(GeBinarize(rca, colsA, cutoff), x, colsB, Ones(|rca|, colsA))
  }

  // ------------------------------------------------------------- counts

  /** For 0/1 matrices `count[i][j]` is the number of locations holding A-
      activity i and B-activity j, the prevalences count the holders, and
      the count is at most either prevalence. */
  lemma {:induction false} CrossCounts(a: Matrix, colsA: nat, b: Matrix, colsB: nat, i: nat, j: nat)
    requires IsBinary(a, colsA) && IsBinary(b, colsB) && |a| == |b| && i < colsA && j < colsB
    ensures var u, v := Vals(Col(a, colsA, i)), Vals(Col(b, colsB, j));
            && CrossCount(a, colsA, b, colsB)[i][j] == Fin(CountBoth(u, v) as real)
            && Prevalence(a, colsA)[i] == Fin(CountOnes(u) as real)
            && Prevalence(b, colsB)[j] == Fin(CountOnes(v) as real)
            && CountBoth(u, v) <= CountOnes(u) && CountBoth(u, v) <= CountOnes(v)
  {
    var ci, cj := Col(a, colsA, i), Col(b, colsB, j);
    ColOfBinary(a, colsA, i);
    ColOfBinary(b, colsB, j);
    assert Transpose(a, colsA)[i] == ci;
    NumDotDefined(ci, cj);
    DotOfBits(Vals(ci), Vals(cj));
    SkipSumIsSumOfVals(ci);
    SkipSumIsSumOfVals(cj);
    SumOfBits(Vals(ci));
    SumOfBits(Vals(cj));
  }

  /** The minimum of the two quotients of a count bounded by both
      prevalences: defined, within [0, 1], at most either filled quotient,
      and 0 when either prevalence is 0. */
  lemma {:induction false} CrossQuotient(c: real, ka: real, kb: real)
    requires 0.0 <= c <= ka && c <= kb
    ensures var x := CrossCell(Fin(c), Fin(ka), Fin(kb));
            && x.Fin? && 0.0 <= x.v <= 1.0
            && x.v <= FillZero(Div(Fin(c), Fin(kb))).v
            && x.v <= FillZero(Div(Fin(c), Fin(ka))).v
            && (ka == 0.0 || kb == 0.0 ==> x == Fin(0.0))
  {
    if kb > 0.0 {
      RatioBetween(c, kb, 0.0, 1.0);
    }
    if ka > 0.0 {
      RatioBetween(c, ka, 0.0, 1.0);
    }
  }

  /** Every cross-proximity of two 0/1 matrices is defined, within [0, 1],
      at most either filled quotient, and 0 when either activity is held
      nowhere. */
  lemma {:induction false} CrossBounded(a: Matrix, colsA: nat, b: Matrix, colsB: nat, i: nat, j: nat)
    requires IsBinary(a, colsA) && IsBinary(b, colsB) && |a| == |b| && i < colsA && j < colsB
    ensures var count := CrossCount(a, colsA, b, colsB)[i][j];
            var ka, kb := Prevalence(a, colsA)[i], Prevalence(b, colsB)[j];
            var x := CrossFrom(a, colsA, b, colsB)[i][j];
            && x.Fin? && 0.0 <= x.v <= 1.0
            && x.v <= FillZero(Div(count, kb)).v
            && x.v <= FillZero(Div(count, ka)).v
            && (ka == Fin(0.0) || kb == Fin(0.0) ==> x == Fin(0.0))
  {
    CrossCounts(a, colsA, b, colsB, i, j);
    var u, v := Vals(Col(a, colsA, i)), Vals(Col(b, colsB, j));
    CrossQuotient(CountBoth(u, v) as real, CountOnes(u) as real, CountOnes(v) as real);
  }

  /** Swapping the two spaces transposes the cross-proximity. */
  lemma {:induction false} CrossSwap(a: Matrix, colsA: nat, b: Matrix, colsB: nat)
    requires IsMatrix(a, colsA) && IsMatrix(b, colsB) && |a| == |b|
    ensures CrossFrom(b, colsB, a, colsA) == Transpose(CrossFrom(a, colsA, b, colsB), colsB)
  {
    var x, y := CrossFrom(a, colsA, b, colsB), CrossFrom(b, colsB, a, colsA);
    var t := Transpose(x, colsB);
    forall j | 0 <= j < colsB ensures y[j] == t[j] {
      forall i | 0 <= i < colsA ensures y[j][i] == t[j][i] {
        CountSwap(a, colsA, b, colsB, i, j);
      }
    }
  }

  lemma {:induction false} CountSwap(a: Matrix, colsA: nat, b: Matrix, colsB: nat, i: nat, j: nat)
    requires IsMatrix(a, colsA) && IsMatrix(b, colsB) && |a| == |b| && i < colsA && j < colsB
    ensures CrossCount(b, colsB, a, colsA)[j][i] == CrossCount(a, colsA, b, colsB)[i][j]
  {
    assert Transpose(a, colsA)[i] == Col(a, colsA, i);
    assert Transpose(b, colsB)[j] == Col(b, colsB, j);
    NumDotComm(Col(b, colsB, j), Col(a, colsA, i));
  }

  /** So `cross_proximity(B, A)` is the transpose of `cross_proximity(A, B)`. */
  lemma {:induction false} CrossProximitySwap(rcasA: Matrix, colsA: nat, rcasB: Matrix, colsB: nat, cutoff: real)
    requires IsMatrix(rcasA, colsA) && IsMatrix(rcasB, colsB) && |rcasA| == |rcasB|
    ensures CrossProximity(rcasB, colsB, rcasA, colsA, cutoff) ==
            Transpose(CrossProximity(rcasA, colsA, rcasB, colsB, cutoff), colsB)
  {
    CrossSwap(GeBinarize(rcasA, colsA, cutoff), colsA, GeBinarize(rcasB, colsB, cutoff), colsB);
  }

  /** `cross_proximity` of a frame with itself keeps its diagonal: an
      activity held somewhere has cross-proximity 1 with itself. */
  lemma {:induction false} SelfCrossDiagonal(rca: Matrix, cols: nat, cutoff: real, i: nat)
    requires IsMatrix(rca, cols) && i < cols
    requires Prevalence(GeBinarize(rca, cols, cutoff), cols)[i] != Fin(0.0)
    ensures CrossProximity(rca, cols, rca, cols, cutoff)[i][i] == Fin(1.0)
  {
    var m := GeBinarize(rca, cols, cutoff);
    CrossCounts(m, cols, m, cols, i, i);
    var u := Vals(Col(m, cols, i));
    ColOfBinary(m, cols, i);
    CountBothSelf(u);
    DivSelf(CountOnes(u) as real);
  }

  lemma {:induction false} CountBothSelf(u: seq<real>)
    requires Bits(u)
    ensures CountBoth(u, u) == CountOnes(u)
  {
    if |u| > 0 {
      CountBothSelf(u[1..]);
    }
  }

  // --------------------------------------------------------- relatedness

  /** The denominator is the column sum of X, the same for every location,
      and a cell is undefined exactly when that column has an undefined cell
      or sums to 0; with a non-negative column of positive sum the cell
      lies in [0, 1]. */
  lemma {:induction false} CrossRelatednessCell(rca: Matrix, colsA: nat, x: Matrix, colsB: nat, cutoff: real, l: nat, j: nat)
    requires IsMatrix(rca, colsA) && |x| == colsA && IsMatrix(x, colsB) && l < |rca| && j < colsB
    ensures var w := Col(x, colsB, j);
            var d := CrossRelatedness(rca, colsA, x, colsB, cutoff)[l][j];
            && d == Div(NumDot(GeBinarize(rca, colsA, cutoff)[l], w), NumSum(w))
            && (d.NaN? <==> !AllFin(w) || Sum(Vals(w)) == 0.0)
            && (AllNonNeg(w) && Sum(Vals(w)) > 0.0 ==> d.Fin? && 0.0 <= d.v <= 1.0)
  {
    var m := GeBinarize(rca, colsA, cutoff);
    var ones := Ones(|rca|, colsA);
    assert AllOnes(ones[l]);
    RowOfBinary(m, colsA, l);
    DensityAt(m, x, colsB, ones, l, j);
    NumDotOnes(ones[l], Col(x, colsB, j));
    DensityCell(m, x, colsB, ones, l, j);
  }

  /** Fed with a cross-proximity, cross-relatedness is undefined exactly
      where the cross-proximity column sums to 0 and lies in [0, 1]
      elsewhere. */
  lemma {:induction false} CrossChain(rca: Matrix, rcasB: Matrix, colsA: nat, colsB: nat, cutoff: real, l: nat, j: nat)
    requires IsMatrix(rca, colsA) && IsMatrix(rcasB, colsB) && |rca| == |rcasB| && l < |rca| && j < colsB
    ensures var x := CrossProximity(rca, colsA, rcasB, colsB, cutoff);
            var d := CrossRelatedness(rca, colsA, x, colsB, cutoff)[l][j];
            && (d.NaN? <==> Sum(Vals(Col(x, colsB, j))) == 0.0)
            && (d.Fin? ==> 0.0 <= d.v <= 1.0)
  {
    var a, b := GeBinarize(rca, colsA, cutoff), GeBinarize(rcasB, colsB, cutoff);
    var x := CrossProximity(rca, colsA, rcasB, colsB, cutoff);
    var w := Col(x, colsB, j);
    assert AllNonNeg(w) by {
      forall i | 0 <= i < colsA ensures w[i].Fin? && w[i].v >= 0.0 {
        CrossBounded(a, colsA, b, colsB, i, j);
      }
    }
    SumNonNeg(Vals(w));
    CrossRelatednessCell(rca, colsA, x, colsB, cutoff, l, j);
  }
}
