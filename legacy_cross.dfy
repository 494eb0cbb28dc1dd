/** The legacy cross space: `cross_proximity` and `cross_relatedness`.

    `cross_proximity` binarizes the caller's two frames in place at 1 by
    masked assignment, so the caller sees its frames changed and missing
    cells stay missing; the count is the NaN-propagating matrix product,
    the prevalences are skip-missing column sums, and each quotient is
    filled with 0. `cross_relatedness` masks a copy, but its ones frame is
    `M + 1` rather than `M*0 + 1`, so the denominator is the numerator plus
    the column sum of X and the result never exceeds 1/2. */
module LegacyCross {
  import opened Numeric
  import opened Algebra
  import opened Advantage
  import opened Space
  import opened Frames
  import CrossSpace

  // ------------------------------------------------------- cross-proximity

  /** `cross_proximity(rcas_a, rcas_b)`. Both buffers end up masked, also
      when the caller passes the same frame twice. */
  method CrossProximity(a: array2<Num>, b: array2<Num>) returns (x: Matrix)
    requires a.Length0 == b.Length0
    modifies a, b
    ensures Contents(a) == MaskBinarize(old(Contents(a)), a.Length1)
    ensures Contents(b) == MaskBinarize(old(Contents(b)), b.Length1)
    ensures x == CrossSpace.CrossFrom(Contents(a), a.Length1, Contents(b), b.Length1)
    ensures x == CrossProximityOf(old(Contents(a)), a.Length1, old(Contents(b)), b.Length1)
  {
    ghost var oldA, oldB := Contents(a), Contents(b);
    MaskInPlace(a);
    ghost var midB := Contents(b);
    assert a != b ==> midB == oldB;
    MaskInPlace(b);
    if a == b {
      MaskTwice(oldA, a.Length1);
    } else {
      assert Contents(a) == MaskBinarize(oldA, a.Length1);
    }
    var ma, mb := Contents(a), Contents(b);
    var numerator := MatMul(Transpose(ma, a.Length1), mb, b.Length1);
    var ka, kb := Prevalence(ma, a.Length1), Prevalence(mb, b.Length1);
    x := seq(a.Length1, i requires 0 <= i < a.Length1 =>
           seq(b.Length1, j requires 0 <= j < b.Length1 => CrossSpace.CrossCell(numerator[i][j], ka[i], kb[j])));
  }

  /** The cross-proximity of the RCA frames as the method leaves them. */
  function CrossProximityOf(rcasA: Matrix, colsA: nat, rcasB: Matrix, colsB: nat): (x: Matrix)
    requires IsMatrix(rcasA, colsA) && IsMatrix(rcasB, colsB) && |rcasA| == |rcasB|
    ensures |x| == colsA && IsMatrix(x, colsB)
  {
    CrossSpace.CrossFrom(MaskBinarize(rcasA, colsA), colsA, MaskBinarize(rcasB, colsB), colsB)
  }

  /** A masked column without missing cells is the `ge(1)` column. */
  lemma {:induction false} DefinedColumn(r: Matrix, cols: nat, i: nat)
    requires IsMatrix(r, cols) && i < cols && AllFin(Col(MaskBinarize(r, cols), cols, i))
    ensures Col(MaskBinarize(r, cols), cols, i) == Col(GeBinarize(r, cols, 1.0), cols, i)
  {
    var u, v := Col(MaskBinarize(r, cols), cols, i), Col(GeBinarize(r, cols, 1.0), cols, i);
    forall l | 0 <= l < |r| ensures u[l] == v[l] {
      assert u[l].Fin?;
    }
  }

  /** The cell the count, the prevalences and the fill give for A-activity
      `i` and B-activity `j`. */
  lemma {:induction false} CrossCellAt(rcasA: Matrix, colsA: nat, rcasB: Matrix, colsB: nat, i: nat, j: nat)
    requires IsMatrix(rcasA, colsA) && IsMatrix(rcasB, colsB) && |rcasA| == |rcasB| && i < colsA && j < colsB
    ensures var ma, mb := MaskBinarize(rcasA, colsA), MaskBinarize(rcasB, colsB);
            var ga, gb := GeBinarize(rcasA, colsA, 1.0), GeBinarize(rcasB, colsB, 1.0);
            && CrossProximityOf(rcasA, colsA, rcasB, colsB)[i][j] ==
               CrossSpace.CrossCell(NumDot(Col(ma, colsA, i), Col(mb, colsB, j)), Prevalence(ga, colsA)[i], Prevalence(gb, colsB)[j])
            && CrossSpace.CrossProximity(rcasA, colsA, rcasB, colsB, 1.0)[i][j] ==
               CrossSpace.CrossCell(NumDot(Col(ga, colsA, i), Col(gb, colsB, j)), Prevalence(ga, colsA)[i], Prevalence(gb, colsB)[j])
  {
    var ma, mb := MaskBinarize(rcasA, colsA), MaskBinarize(rcasB, colsB);
    var ga, gb := GeBinarize(rcasA, colsA, 1.0), GeBinarize(rcasB, colsB, 1.0);
    MaskSkipSums(rcasA, colsA);
    MaskSkipSums(rcasB, colsB);
    assert Prevalence(ma, colsA) == Prevalence(ga, colsA);
    assert Prevalence(mb, colsB) == Prevalence(gb, colsB);
    assert Transpose(ma, colsA)[i] == Col(ma, colsA, i);
    assert Transpose(ga, colsA)[i] == Col(ga, colsA, i);
  }

  /** A missing RCA cell in A-activity `i` (or in B-activity `j`) makes the
      count undefined, and the fill turns the cell into 0, whatever the
      other locations hold. */
  lemma {:induction false} MissingZeroes(rcasA: Matrix, colsA: nat, rcasB: Matrix, colsB: nat, i: nat, j: nat, l: nat)
    requires IsMatrix(rcasA, colsA) && IsMatrix(rcasB, colsB) && |rcasA| == |rcasB|
    requires i < colsA && j < colsB && l < |rcasA| && (rcasA[l][i].NaN? || rcasB[l][j].NaN?)
    ensures CrossProximityOf(rcasA, colsA, rcasB, colsB)[i][j] == Fin(0.0)
  {
    var ma, mb := MaskBinarize(rcasA, colsA), MaskBinarize(rcasB, colsB);
    var u, v := Col(ma, colsA, i), Col(mb, colsB, j);
    CrossCellAt(rcasA, colsA, rcasB, colsB, i, j);
    assert u[l].NaN? || v[l].NaN?;
    NumDotDefined(u, v);
  }

  /** Where neither column holds a missing RCA, the legacy cross-proximity
      is the current one at cutoff 1. */
  lemma {:induction false} AgreesWhereDefined(rcasA: Matrix, colsA: nat, rcasB: Matrix, colsB: nat, i: nat, j: nat)
    requires IsMatrix(rcasA, colsA) && IsMatrix(rcasB, colsB) && |rcasA| == |rcasB| && i < colsA && j < colsB
    requires AllFin(Col(rcasA, colsA, i)) && AllFin(Col(rcasB, colsB, j))
    ensures CrossProximityOf(rcasA, colsA, rcasB, colsB)[i][j] == CrossSpace.CrossProximity(rcasA, colsA, rcasB, colsB, 1.0)[i][j]
  {
    var ma, mb := MaskBinarize(rcasA, colsA), MaskBinarize(rcasB, colsB);
    assert AllFin(Col(ma, colsA, i)) by {
      forall l | 0 <= l < |rcasA| ensures Col(ma, colsA, i)[l].Fin? {
        assert Col(rcasA, colsA, i)[l].Fin?;
      }
    }
    assert AllFin(Col(mb, colsB, j)) by {
      forall l | 0 <= l < |rcasB| ensures Col(mb, colsB, j)[l].Fin? {
        assert Col(rcasB, colsB, j)[l].Fin?;
      }
    }
    DefinedColumn(rcasA, colsA, i);
    DefinedColumn(rcasB, colsB, j);
    CrossCellAt(rcasA, colsA, rcasB, colsB, i, j);
  }

  /** Every legacy cross-proximity is defined and lies in [0, 1], and it is
      0 when either activity is held nowhere. */
  lemma {:induction false} CrossBounded(rcasA: Matrix, colsA: nat, rcasB: Matrix, colsB: nat, i: nat, j: nat)
    requires IsMatrix(rcasA, colsA) && IsMatrix(rcasB, colsB) && |rcasA| == |rcasB| && i < colsA && j < colsB
    ensures var x := CrossProximityOf(rcasA, colsA, rcasB, colsB)[i][j];
            && x.Fin? && 0.0 <= x.v <= 1.0
            && ((Prevalence(MaskBinarize(rcasA, colsA), colsA)[i] == Fin(0.0) ||
                 Prevalence(MaskBinarize(rcasB, colsB), colsB)[j] == Fin(0.0)) ==> x == Fin(0.0))
  {
    var ga, gb := GeBinarize(rcasA, colsA, 1.0), GeBinarize(rcasB, colsB, 1.0);
    MaskSkipSums(rcasA, colsA);
    MaskSkipSums(rcasB, colsB);
    if AllFin(Col(rcasA, colsA, i)) && AllFin(Col(rcasB, colsB, j)) {
      AgreesWhereDefined(rcasA, colsA, rcasB, colsB, i, j);
      CrossSpace.CrossBounded(ga, colsA, gb, colsB, i, j);
    } else if !AllFin(Col(rcasA, colsA, i)) {
      var l :| 0 <= l < |rcasA| && !Col(rcasA, colsA, i)[l].Fin?;
      MissingZeroes(rcasA, colsA, rcasB, colsB, i, j, l);
    } else {
      var l :| 0 <= l < |rcasB| && !Col(rcasB, colsB, j)[l].Fin?;
      MissingZeroes(rcasA, colsA, rcasB, colsB, i, j, l);
    }
  }

  /** On frames without missing RCA, the legacy cross-proximity is the
      current one at cutoff 1. */
  lemma {:induction false} AgreesWithCurrent(rcasA: Matrix, colsA: nat, rcasB: Matrix, colsB: nat)
    requires NoMissing(rcasA, colsA) && NoMissing(rcasB, colsB) && |rcasA| == |rcasB|
    ensures CrossProximityOf(rcasA, colsA, rcasB, colsB) == CrossSpace.CrossProximity(rcasA, colsA, rcasB, colsB, 1.0)
  {
    MaskAgreesWithGe(rcasA, colsA);
    MaskAgreesWithGe(rcasB, colsB);
  }

  // ----------------------------------------------------- cross-relatedness

  /** `m + 1`, cell by cell (NaN stays NaN). */
  function PlusOne(m: Matrix, cols: nat): (p: Matrix)
    requires IsMatrix(m, cols)
    ensures |p| == |m| && IsMatrix(p, cols)
    ensures forall i, j :: 0 <= i < |m| && 0 <= j < cols ==> p[i][j] == Add(m[i][j], Fin(1.0))
  {
    seq(|m|, i requires 0 <= i < |m| => seq(cols, j requires 0 <= j < cols => Add(m[i][j], Fin(1.0))))
  }

  /** `cross_relatedness(rcas_a, cross_proximity)` as written:
      `(M·X) / ((M + 1)·X)`. */
  function CrossRelatednessOf(rcas: Matrix, colsA: nat, x: Matrix, colsB: nat): (d: Matrix)
    requires IsMatrix(rcas, colsA) && |x| == colsA && IsMatrix(x, colsB)
    ensures |d| == |rcas| && IsMatrix(d, colsB)
  {
    var m := MaskBinarize(rcas, colsA);
    Density(m, x, colsB, PlusOne(m, colsA))
  }

  /** The as-written computation on a masked copy; the value of `rcas_a*0`
      is overwritten before it is used, so it is not computed here. */
  method CrossRelatedness(rcas: Matrix, colsA: nat, x: Matrix, colsB: nat) returns (d: Matrix)
    requires IsMatrix(rcas, colsA) && |x| == colsA && IsMatrix(x, colsB)
    ensures d == CrossRelatednessOf(rcas, colsA, x, colsB)
  {
    var m := MaskBinarizeCopy(rcas, colsA);
    var numerator := MatMul(m, x, colsB);
    var ones := PlusOne(m, colsA);
    var denominator := MatMul(ones, x, colsB);
    d := seq(|m|, l requires 0 <= l < |m| =>
           seq(colsB, j requires 0 <= j < colsB => Div(numerator[l][j], denominator[l][j])));
  }

  /** `u + 1`, cell by cell. */
  function Shift(u: seq<Num>): (s: seq<Num>)
    ensures |s| == |u|
  {
    seq(|u|, i requires 0 <= i < |u| => Add(u[i], Fin(1.0)))
  }

  lemma ShiftStep(u0: Num, w0: Num, d: Num, s: Num)
    ensures Add(Mul(Add(u0, Fin(1.0)), w0), Add(d, s)) == Add(Add(Mul(u0, w0), d), Add(w0, s))
  {
    if u0.Fin? && w0.Fin? && d.Fin? && s.Fin? {
      assert (u0.v + 1.0) * w0.v == u0.v * w0.v + w0.v;
    }
  }

  /** The `+1` row against a column is the numerator plus the column sum. */
  lemma {:induction false} ShiftDot(u: seq<Num>, w: seq<Num>)
    requires |u| == |w|
    ensures NumDot(Shift(u), w) == Add(NumDot(u, w), NumSum(w))
  {
    if |u| > 0 {
      assert Shift(u)[1..] == Shift(u[1..]);
      ShiftDot(u[1..], w[1..]);
      ShiftStep(u[0], w[0], NumDot(u[1..], w[1..]), NumSum(w[1..]));
    }
  }

  /** `n / (n + s)` for `0 <= n <= s` and `s > 0` lies in [0, 1/2]. */
  lemma HalfRatio(n: real, s: real)
    requires 0.0 <= n <= s && s > 0.0
    ensures 0.0 <= n / (n + s) <= 0.5
  {
    RatioBetween(n, n + s, 0.0, 0.5);
  }

  /** For a location without missing RCA and a defined column `w` of X, the
      cell is `n / (n + s)` with `n` the X-weight of the held activities and
      `s` the column sum, so the denominator depends on the location. */
  lemma {:induction false} CrossRelatednessCell(rcas: Matrix, colsA: nat, x: Matrix, colsB: nat, l: nat, j: nat)
    requires IsMatrix(rcas, colsA) && |x| == colsA && IsMatrix(x, colsB) && l < |rcas| && j < colsB
    requires AllFin(rcas[l]) && AllFin(Col(x, colsB, j))
    ensures var m, w := MaskBinarize(rcas, colsA), Col(x, colsB, j);
            var n := Dot(Vals(m[l]), Vals(w));
            CrossRelatednessOf(rcas, colsA, x, colsB)[l][j] == Div(Fin(n), Fin(n + Sum(Vals(w))))
  {
    var m, w := MaskBinarize(rcas, colsA), Col(x, colsB, j);
    var ones := PlusOne(m, colsA);
    assert AllFin(m[l]);
    assert ones[l] == Shift(m[l]);
    DensityAt(m, x, colsB, ones, l, j);
    ShiftDot(m[l], w);
    NumDotDefined(m[l], w);
    NumSumDefined(w);
  }

  /** For a location without missing RCA and a non-negative column `w`,
      the masked row's weight `n` on `w` is defined and within [0, Σw]. */
  lemma {:induction false} RowWeight(rcas: Matrix, colsA: nat, x: Matrix, colsB: nat, l: nat, j: nat)
    requires IsMatrix(rcas, colsA) && |x| == colsA && IsMatrix(x, colsB) && l < |rcas| && j < colsB
    requires AllFin(rcas[l]) && AllNonNeg(Col(x, colsB, j))
    ensures var m, w := MaskBinarize(rcas, colsA), Col(x, colsB, j);
            var n := Dot(Vals(m[l]), Vals(w));
            && NumDot(m[l], w) == Fin(n) && NumSum(w) == Fin(Sum(Vals(w)))
            && 0.0 <= n <= Sum(Vals(w))
  {
    var m, w := MaskBinarize(rcas, colsA), Col(x, colsB, j);
    assert AllFin(m[l]) && Bits(Vals(m[l])) by {
      forall b | 0 <= b < colsA ensures IsBit(m[l][b]) && Vals(m[l])[b] == m[l][b].v {
        assert rcas[l][b].Fin?;
      }
    }
    NumDotDefined(m[l], w);
    NumSumDefined(w);
    SelectedWeight(Vals(m[l]), Vals(w));
  }

  /** With a non-negative column of positive sum, the as-written
      cross-relatedness of a location without missing RCA is defined and
      lies in [0, 1/2], and it is 0 for a location below 1 everywhere. */
  lemma {:induction false} HalfBound(rcas: Matrix, colsA: nat, x: Matrix, colsB: nat, l: nat, j: nat)
    requires IsMatrix(rcas, colsA) && |x| == colsA && IsMatrix(x, colsB) && l < |rcas| && j < colsB
    requires AllFin(rcas[l]) && AllNonNeg(Col(x, colsB, j)) && Sum(Vals(Col(x, colsB, j))) > 0.0
    ensures var d := CrossRelatednessOf(rcas, colsA, x, colsB)[l][j];
            d.Fin? && 0.0 <= d.v <= 0.5
    ensures (forall b :: 0 <= b < colsA ==> rcas[l][b].v < 1.0) ==> CrossRelatednessOf(rcas, colsA, x, colsB)[l][j] == Fin(0.0)
  {
    var m, w := MaskBinarize(rcas, colsA), Col(x, colsB, j);
    var n, s := Dot(Vals(m[l]), Vals(w)), Sum(Vals(w));
    CrossRelatednessCell(rcas, colsA, x, colsB, l, j);
    RowWeight(rcas, colsA, x, colsB, l, j);
    HalfRatio(n, s);
    MaskRowExtremes(rcas, colsA, l);
    if forall b :: 0 <= b < colsA ==> m[l][b] == Fin(0.0) {
      DotZeros(Vals(m[l]), Vals(w));
    }
  }

  /** A location at or above 1 in every A-activity, against a defined
      column of X with a positive sum, gets exactly 1/2 as written, where
      the corrected cross-relatedness gives 1. The smallest instance is one
      location, one activity of each kind, RCA 1 and cross-proximity 1. */
  lemma {:induction false} FullRowHalf(rcas: Matrix, colsA: nat, x: Matrix, colsB: nat, l: nat, j: nat)
    requires IsMatrix(rcas, colsA) && |x| == colsA && IsMatrix(x, colsB) && l < |rcas| && j < colsB
    requires AllFin(rcas[l]) && forall b :: 0 <= b < colsA ==> rcas[l][b].v >= 1.0
    requires AllFin(Col(x, colsB, j)) && Sum(Vals(Col(x, colsB, j))) > 0.0
    ensures CrossRelatednessOf(rcas, colsA, x, colsB)[l][j] == Fin(0.5)
    ensures CorrectedCrossRelatedness(rcas, colsA, x, colsB)[l][j] == Fin(1.0)
  {
    var m, w := MaskBinarize(rcas, colsA), Col(x, colsB, j);
    MaskRowExtremes(rcas, colsA, l);
    assert AllOnes(m[l]);
    assert CrossRelatednessOf(rcas, colsA, x, colsB)[l][j] == Fin(0.5) by {
      assert forall b :: 0 <= b < colsA ==> Vals(m[l])[b] == 1.0;
      DotOnes(Vals(m[l]), Vals(w));
      CrossRelatednessCell(rcas, colsA, x, colsB, l, j);
      Half(Sum(Vals(w)));
    }
    assert CorrectedCrossRelatedness(rcas, colsA, x, colsB)[l][j] == Fin(1.0) by {
      CorrectedCell(rcas, colsA, x, colsB, l, j);
      ExtremeShares(m[l], w);
    }
  }

  lemma Half(s: real)
    requires s > 0.0
    ensures Div(Fin(s), Fin(s + s)) == Fin(0.5)
  {
    assert s / (s + s) == 0.5;
  }

  // ------------------------------------------------------------ corrected

  /** The evidently intended cross-relatedness: the ones frame is
      `M*0 + 1`, as in the legacy `relatedness`. */
  function CorrectedCrossRelatedness(rcas: Matrix, colsA: nat, x: Matrix, colsB: nat): (d: Matrix)
    requires IsMatrix(rcas, colsA) && |x| == colsA && IsMatrix(x, colsB)
    ensures |d| == |rcas| && IsMatrix(d, colsB)
  {
    var m := MaskBinarize(rcas, colsA);
    Density(m, x, colsB, OnesLike(m, colsA))
  }

  /** For a location without missing RCA the corrected cell is the X-weighted
      share of held activities: undefined exactly when the column has an
      undefined cell or sums to 0, and within [0, 1] for a non-negative
      column of positive sum. */
  lemma {:induction false} CorrectedCell(rcas: Matrix, colsA: nat, x: Matrix, colsB: nat, l: nat, j: nat)
    requires IsMatrix(rcas, colsA) && |x| == colsA && IsMatrix(x, colsB) && l < |rcas| && j < colsB
    requires AllFin(rcas[l])
    ensures var w := Col(x, colsB, j);
            var m := MaskBinarize(rcas, colsA);
            var d := CorrectedCrossRelatedness(rcas, colsA, x, colsB)[l][j];
            && d == Div(NumDot(m[l], w), NumSum(w))
            && (d.NaN? <==> !AllFin(w) || Sum(Vals(w)) == 0.0)
            && (AllNonNeg(w) && Sum(Vals(w)) > 0.0 ==> d.Fin? && 0.0 <= d.v <= 1.0)
  {
    var m := MaskBinarize(rcas, colsA);
    assert AllFin(m[l]);
    OnesLikeRow(m, colsA, l);
    assert AllBits(m[l]);
    DensityAt(m, x, colsB, OnesLike(m, colsA), l, j);
    NumDotOnes(OnesLike(m, colsA)[l], Col(x, colsB, j));
    DensityCell(m, x, colsB, OnesLike(m, colsA), l, j);
  }

  /** On a frame without missing RCA, the corrected cross-relatedness is
      the current one at cutoff 1. */
  lemma {:induction false} CorrectedAgrees(rcas: Matrix, colsA: nat, x: Matrix, colsB: nat)
    requires NoMissing(rcas, colsA) && |x| == colsA && IsMatrix(x, colsB)
    ensures CorrectedCrossRelatedness(rcas, colsA, x, colsB) == CrossSpace.CrossRelatedness(rcas, colsA, x, colsB, 1.0)
  {
    MaskAgreesWithGe(rcas, colsA);
    OnesLikeNoMissing(GeBinarize(rcas, colsA, 1.0), colsA);
  }

  /** The as-written value is the corrected value `c` mapped to `c / (c + 1)`. */
  lemma {:induction false} AsWrittenFromCorrected(rcas: Matrix, colsA: nat, x: Matrix, colsB: nat, l: nat, j: nat)
    requires IsMatrix(rcas, colsA) && |x| == colsA && IsMatrix(x, colsB) && l < |rcas| && j < colsB
    requires AllFin(rcas[l]) && AllNonNeg(Col(x, colsB, j)) && Sum(Vals(Col(x, colsB, j))) > 0.0
    ensures var c := CorrectedCrossRelatedness(rcas, colsA, x, colsB)[l][j];
            c.Fin? && c.v >= 0.0 && CrossRelatednessOf(rcas, colsA, x, colsB)[l][j] == Fin(c.v / (c.v + 1.0))
  {
    var n := Dot(Vals(MaskBinarize(rcas, colsA)[l]), Vals(Col(x, colsB, j)));
    var s := Sum(Vals(Col(x, colsB, j)));
    CrossRelatednessCell(rcas, colsA, x, colsB, l, j);
    assert CrossRelatednessOf(rcas, colsA, x, colsB)[l][j] == Div(Fin(n), Fin(n + s));
    RowWeight(rcas, colsA, x, colsB, l, j);
    var c := CorrectedCrossRelatedness(rcas, colsA, x, colsB)[l][j];
    CorrectedCell(rcas, colsA, x, colsB, l, j);
    assert c == Div(Fin(n), Fin(s));
    Rescale(n, s);
    RescaleAt(n, s, c.v);
  }

  lemma RescaleAt(n: real, s: real, c: real)
    requires n >= 0.0 && s > 0.0 && c == n / s
    ensures Div(Fin(n), Fin(n + s)) == Fin(c / (c + 1.0))
  {
    Rescale(n, s);
  }

  lemma Rescale(n: real, s: real)
    requires n >= 0.0 && s > 0.0
    ensures n / s >= 0.0 && Div(Fin(n), Fin(s)) == Fin(n / s)
    ensures Div(Fin(n), Fin(n + s)) == Fin((n / s) / (n / s + 1.0))
  {
    var c := n / s;
    assert n == c * s;
    assert n + s == (c + 1.0) * s;
  }
}
