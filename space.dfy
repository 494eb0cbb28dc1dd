/** The product-space constructions shared by every generation of the
    library: the proximity quotient with its zeroed diagonal, and the
    density (relatedness) quotient `m·Φ / ones·Φ`.

    Each source variant differs only in how it obtains the co-occurrence
    counts, the prevalences and the "ones" frame; those are parameters here
    and each variant module instantiates them. */
module Space {
  import opened Numeric
  import opened Algebra
  import opened Advantage
  import Frames

  /** The `procedure` argument: "sqrt" selects the geometric mean, and
      every other value falls through to the `else` branch (maximum). */
  datatype Procedure = GeometricMean | Maximum

  function ProcedureOf(name: string): (p: Procedure)
    ensures p == GeometricMean <==> name == "sqrt"
  {
    if name == "sqrt" then GeometricMean else Maximum
  }

  /** The union denominator for prevalences `ki`, `kj`. `root` stands for
      `np.power(·, 0.5)`, which the model leaves uninterpreted. */
  function Union(p: Procedure, ki: Num, kj: Num, root: real -> real): Num {
    match p
    case Maximum => Max(ki, kj)
    case GeometricMean => var prod := Mul(ki, kj); if prod.Fin? then Fin(root(prod.v)) else NaN
  }

  /** One cell of `np.divide(count, union)`. */
  function ProximityCell(count: Num, ki: Num, kj: Num, p: Procedure, root: real -> real): Num {
    Div(count, Union(p, ki, kj, root))
  }

  /** `np.divide(count, union)` before the diagonal is overwritten. */
  function Quotient(count: Matrix, k: seq<Num>, p: Procedure, root: real -> real): (q: Matrix)
    requires |count| == |k| && IsMatrix(count, |k|)
    ensures |q| == |k| && IsMatrix(q, |k|)
  {
    seq(|k|, i requires 0 <= i < |k| =>
      seq(|k|, j requires 0 <= j < |k| => ProximityCell(count[i][j], k[i], k[j], p, root)))
  }

  /** The proximity matrix: the quotient with its diagonal forced to 0. */
  function PhiFrom(count: Matrix, k: seq<Num>, p: Procedure, root: real -> real): (phi: Matrix)
    requires |count| == |k| && IsMatrix(count, |k|)
    ensures |phi| == |k| && IsMatrix(phi, |k|)
    ensures forall i :: 0 <= i < |k| ==> phi[i][i] == Fin(0.0)
  {
    seq(|k|, i requires 0 <= i < |k| =>
      seq(|k|, j requires 0 <= j < |k| =>
        if i == j then Fin(0.0) else ProximityCell(count[i][j], k[i], k[j], p, root)))
  }

  /** The max procedure never calls `root`. */
  lemma MaxIgnoresRoot(count: Matrix, k: seq<Num>, root: real -> real, other: real -> real)
    requires |count| == |k| && IsMatrix(count, |k|)
    ensures PhiFrom(count, k, Maximum, root) == PhiFrom(count, k, Maximum, other)
  {
    var a, b := PhiFrom(count, k, Maximum, root), PhiFrom(count, k, Maximum, other);
    forall i | 0 <= i < |k| ensures a[i] == b[i] {
      assert forall j :: 0 <= j < |k| ==> a[i][j] == b[i][j];
    }
  }

  /** Build the quotient into a fresh buffer, then `np.fill_diagonal(phi, 0)`
      on it in place. */
  method FillProximity(count: Matrix, k: seq<Num>, p: Procedure, root: real -> real) returns (phi: Matrix)
    requires |count| == |k| && IsMatrix(count, |k|)
    ensures phi == PhiFrom(count, k, p, root)
  {
    var q := Quotient(count, k, p, root);
    var a := Frames.Copy(q, |k|);
    Frames.FillDiagonal(a);
    phi := Frames.Contents(a);
    var want := PhiFrom(count, k, p, root);
    forall i | 0 <= i < |k| ensures phi[i] == want[i] {
      assert forall j :: 0 <= j < |k| ==> phi[i][j] == want[i][j];
    }
  }

  /** Co-occurrence counts `mᵀ·m`. */
  function Gram(m: Matrix, cols: nat): (g: Matrix)
    requires IsMatrix(m, cols)
    ensures |g| == cols && IsMatrix(g, cols)
  {
    MatMul(Transpose(m, cols), m, cols)
  }

  /** pandas `m.sum(axis=0)`: prevalence of each activity, NaN skipped. */
  function Prevalence(m: Matrix, cols: nat): (k: seq<Num>)
    requires IsMatrix(m, cols)
    ensures |k| == cols && AllFin(k)
  {
    Lift(ColSkipSums(m, cols))
  }

  /** NumPy `m.sum(axis=0)`: NaN propagates. */
  function NumPyColSums(m: Matrix, cols: nat): (k: seq<Num>)
    requires IsMatrix(m, cols)
    ensures |k| == cols
  {
    seq(cols, j requires 0 <= j < cols => NumSum(Col(m, cols, j)))
  }

  predicate Symmetric(s: Matrix) {
    forall i, j :: 0 <= i < |s| && 0 <= j < |s| && j < |s[i]| && i < |s[j]| ==> s[i][j] == s[j][i]
  }

  // ---------------------------------------------------------- proximity

  /** Whatever the procedure, a symmetric count gives a symmetric proximity. */
  lemma PhiSymmetric(count: Matrix, k: seq<Num>, p: Procedure, root: real -> real)
    requires |count| == |k| && IsMatrix(count, |k|) && Symmetric(count)
    ensures Symmetric(PhiFrom(count, k, p, root))
  {
    var phi := PhiFrom(count, k, p, root);
    forall i, j | 0 <= i < |k| && 0 <= j < |k| ensures phi[i][j] == phi[j][i] {
      if i != j {
        assert Union(p, k[i], k[j], root) == Union(p, k[j], k[i], root) by {
          if p == GeometricMean && k[i].Fin? && k[j].Fin? {
            assert Mul(k[i], k[j]) == Mul(k[j], k[i]);
          }
        }
      }
    }
  }

  lemma GramIsSymmetric(m: Matrix, cols: nat)
    requires IsMatrix(m, cols)
    ensures Symmetric(Gram(m, cols))
  {
    forall i, j | 0 <= i < cols && 0 <= j < cols ensures Gram(m, cols)[i][j] == Gram(m, cols)[j][i] {
      GramSymmetric(m, cols, i, j);
    }
  }

  /** For a 0/1 frame, `count[i][j]` is the number of rows holding both i
      and j, `k[i]` the number of rows holding i, and the count is at most
      either prevalence. */
  lemma {:induction false} GramCounts(m: Matrix, cols: nat, i: nat, j: nat)
    requires IsBinary(m, cols) && i < cols && j < cols
    ensures Gram(m, cols)[i][j] == Fin(CountBoth(Vals(Col(m, cols, i)), Vals(Col(m, cols, j))) as real)
    ensures Prevalence(m, cols)[i] == Fin(CountOnes(Vals(Col(m, cols, i))) as real)
    ensures Prevalence(m, cols)[j] == Fin(CountOnes(Vals(Col(m, cols, j))) as real)
    ensures CountBoth(Vals(Col(m, cols, i)), Vals(Col(m, cols, j))) <= CountOnes(Vals(Col(m, cols, i)))
    ensures CountBoth(Vals(Col(m, cols, i)), Vals(Col(m, cols, j))) <= CountOnes(Vals(Col(m, cols, j)))
  {
    var ci, cj := Col(m, cols, i), Col(m, cols, j);
    ColOfBinary(m, cols, i);
    ColOfBinary(m, cols, j);
    assert Transpose(m, cols)[i] == ci;
    NumDotDefined(ci, cj);
    DotOfBits(Vals(ci), Vals(cj));
    SkipSumIsSumOfVals(ci);
    SkipSumIsSumOfVals(cj);
    SumOfBits(Vals(ci));
    SumOfBits(Vals(cj));
  }

  /** On a 0/1 frame NumPy's column sums and pandas' agree. */
  lemma BinaryColSumsAgree(m: Matrix, cols: nat)
    requires IsBinary(m, cols)
    ensures NumPyColSums(m, cols) == Prevalence(m, cols)
  {
    forall j | 0 <= j < cols ensures NumPyColSums(m, cols)[j] == Prevalence(m, cols)[j] {
      ColOfBinary(m, cols, j);
      NumSumDefined(Col(m, cols, j));
      SkipSumIsSumOfVals(Col(m, cols, j));
    }
  }

  /** On a 0/1 frame the co-occurrence count and both prevalences are the
      counts of `GramCounts`, as reals. */
  lemma CountsAsReals(m: Matrix, cols: nat, i: nat, j: nat) returns (c: real, ki: real, kj: real)
    requires IsBinary(m, cols) && i < cols && j < cols
    ensures Gram(m, cols)[i][j] == Fin(c)
    ensures Prevalence(m, cols)[i] == Fin(ki) && Prevalence(m, cols)[j] == Fin(kj)
    ensures 0.0 <= c <= ki && c <= kj
  {
    GramCounts(m, cols, i, j);
    var both := CountBoth(Vals(Col(m, cols, i)), Vals(Col(m, cols, j)));
    var oi := CountOnes(Vals(Col(m, cols, i)));
    var oj := CountOnes(Vals(Col(m, cols, j)));
    c, ki, kj := both as real, oi as real, oj as real;
  }

  /** The max procedure for a count bounded by both prevalences: undefined
      exactly when both prevalences are 0, and otherwise within [0, 1]. */
  lemma MaxQuotient(c: real, ki: real, kj: real, root: real -> real)
    requires 0.0 <= c <= ki && c <= kj
    ensures var q := ProximityCell(Fin(c), Fin(ki), Fin(kj), Maximum, root);
            && (q.NaN? <==> ki == 0.0 && kj == 0.0)
            && (q.Fin? ==> 0.0 <= q.v <= 1.0)
  {
    var mx := if ki >= kj then ki else kj;
    assert ProximityCell(Fin(c), Fin(ki), Fin(kj), Maximum, root) == Div(Fin(c), Fin(mx));
    if mx > 0.0 {
      RatioBetween(c, mx, 0.0, 1.0);
    }
  }

  /** The max procedure on a 0/1 frame: an off-diagonal proximity is
      undefined exactly when neither activity is held anywhere, and
      otherwise it lies in [0, 1]. */
  lemma MaxProximityCell(m: Matrix, cols: nat, root: real -> real, i: nat, j: nat)
    requires IsBinary(m, cols) && i < cols && j < cols && i != j
    ensures var phi := PhiFrom(Gram(m, cols), Prevalence(m, cols), Maximum, root);
            var k := Prevalence(m, cols);
            && (phi[i][j].NaN? <==> k[i] == Fin(0.0) && k[j] == Fin(0.0))
            && (phi[i][j].Fin? ==> 0.0 <= phi[i][j].v <= 1.0)
  {
    var g, k := Gram(m, cols), Prevalence(m, cols);
    var c, ki, kj := CountsAsReals(m, cols, i, j);
    assert PhiFrom(g, k, Maximum, root)[i][j] == ProximityCell(Fin(c), Fin(ki), Fin(kj), Maximum, root);
    MaxQuotient(c, ki, kj, root);
  }

  /** Under the max procedure every off-diagonal cell is undefined exactly
      when both prevalences are 0, and otherwise lies in [0, 1]. */
  predicate MaxBounded(phi: Matrix, k: seq<Num>)
    requires |phi| == |k| && IsMatrix(phi, |k|)
  {
    forall i, j :: 0 <= i < |k| && 0 <= j < |k| && i != j ==>
      && (phi[i][j].NaN? <==> k[i] == Fin(0.0) && k[j] == Fin(0.0))
      && (phi[i][j].Fin? ==> 0.0 <= phi[i][j].v <= 1.0)
  }

  /** Under the sqrt procedure every defined off-diagonal cell lies in
      [0, 1] wherever `root` is a true square root of `k_i·k_j`. */
  predicate SqrtBounded(phi: Matrix, k: seq<Num>, root: real -> real)
    requires |phi| == |k| && IsMatrix(phi, |k|)
  {
    forall i, j :: 0 <= i < |k| && 0 <= j < |k| && i != j ==>
      RootAt(root, Mul(k[i], k[j])) && phi[i][j].Fin? ==> 0.0 <= phi[i][j].v <= 1.0
  }

  /** What the library promises of a proximity matrix built from 0/1
      advantages with prevalences `k`. */
  predicate ProximityLaws(phi: Matrix, k: seq<Num>, p: Procedure, root: real -> real)
    requires |phi| == |k| && IsMatrix(phi, |k|)
  {
    && Symmetric(phi)
    && (forall i :: 0 <= i < |k| ==> phi[i][i] == Fin(0.0))
    && (p == Maximum ==> MaxBounded(phi, k))
    && (p == GeometricMean ==> SqrtBounded(phi, k, root))
  }

  /** The proximity of a 0/1 frame obeys the proximity laws. */
  lemma BinaryProximity(m: Matrix, cols: nat, p: Procedure, root: real -> real)
    requires IsBinary(m, cols)
    ensures ProximityLaws(PhiFrom(Gram(m, cols), Prevalence(m, cols), p, root), Prevalence(m, cols), p, root)
  {
    var phi: Matrix := PhiFrom(Gram(m, cols), Prevalence(m, cols), p, root);
    var k: seq<Num> := Prevalence(m, cols);
    GramIsSymmetric(m, cols);
    PhiSymmetric(Gram(m, cols), k, p, root);
    if p == Maximum {
      forall i, j | 0 <= i < cols && 0 <= j < cols && i != j
        ensures (phi[i][j].NaN? <==> k[i] == Fin(0.0) && k[j] == Fin(0.0))
        ensures (phi[i][j].Fin? ==> 0.0 <= phi[i][j].v <= 1.0)
      {
        MaxProximityCell(m, cols, root, i, j);
      }
    } else {
      forall i, j | 0 <= i < cols && 0 <= j < cols && i != j
        ensures RootAt(root, Mul(k[i], k[j])) && phi[i][j].Fin? ==> 0.0 <= phi[i][j].v <= 1.0
      {
        SqrtProximityCell(m, cols, root, i, j);
      }
    }
  }

  /** A root function that is a true square root at the defined value `x`. */
  predicate RootAt(root: real -> real, x: Num) {
    x.Fin? && root(x.v) >= 0.0 && root(x.v) * root(x.v) == x.v
  }

  /** The sqrt procedure on a 0/1 frame: for a `root` that is a true
      square root at `k_i·k_j` the proximity lies in [0, 1] where it is
      defined. */
  lemma SqrtProximityCell(m: Matrix, cols: nat, root: real -> real, i: nat, j: nat)
    requires IsBinary(m, cols) && i < cols && j < cols && i != j
    ensures RootAt(root, Mul(Prevalence(m, cols)[i], Prevalence(m, cols)[j])) ==>
            var phi := PhiFrom(Gram(m, cols), Prevalence(m, cols), GeometricMean, root);
            phi[i][j].Fin? ==> 0.0 <= phi[i][j].v <= 1.0
  {
    var g, k := Gram(m, cols), Prevalence(m, cols);
    var c, ki, kj := CountsAsReals(m, cols, i, j);
    assert PhiFrom(g, k, GeometricMean, root)[i][j] == ProximityCell(Fin(c), Fin(ki), Fin(kj), GeometricMean, root);
    SqrtQuotient(c, ki, kj, root);
  }

  /** The sqrt procedure for a count bounded by both prevalences: the
      count squared is at most `k_i·k_j`, so the quotient by a true square
      root of `k_i·k_j` lies in [0, 1] where it is defined. */
  lemma SqrtQuotient(c: real, ki: real, kj: real, root: real -> real)
    requires 0.0 <= c <= ki && c <= kj
    ensures c * c <= ki * kj
    ensures RootAt(root, Mul(Fin(ki), Fin(kj))) ==>
            var q := ProximityCell(Fin(c), Fin(ki), Fin(kj), GeometricMean, root);
            q.Fin? ==> 0.0 <= q.v <= 1.0
  {
    var prod := ki * kj;
    var r := root(prod);
    RootSquare(c, ki, kj);
    assert Mul(Fin(ki), Fin(kj)) == Fin(prod);
    assert ProximityCell(Fin(c), Fin(ki), Fin(kj), GeometricMean, root) == Div(Fin(c), Fin(r));
    if RootAt(root, Mul(Fin(ki), Fin(kj))) {
      RootBound(c, ki, kj, r);
      if r != 0.0 {
        RatioBetween(c, r, 0.0, 1.0);
        assert Div(Fin(c), Fin(r)) == Fin(c / r);
      }
    }
  }

  lemma RootSquare(c: real, ki: real, kj: real)
    requires 0.0 <= c <= ki && c <= kj
    ensures c * c <= ki * kj
  {
    assert c * c <= ki * c;
    assert ki * c <= ki * kj;
  }

  /** A count bounded by both prevalences is bounded by their geometric mean. */
  lemma RootBound(c: real, ki: real, kj: real, r: real)
    requires 0.0 <= c <= ki && c <= kj && r >= 0.0 && r * r == ki * kj
    ensures c <= r
  {
    RootSquare(c, ki, kj);
    if c > r {
      SquareGrows(r, c);
    }
  }

  lemma SquareGrows(y: real, x: real)
    requires 0.0 <= y < x
    ensures y * y < x * x
  {
    assert x * x - y * y == (x - y) * (x + y);
    assert x - y > 0.0 && x + y > 0.0;
  }

  // ------------------------------------------------------------ density

  /** `m*0 + 1`: all ones, except that a NaN cell of `m` stays NaN. */
  function OnesLike(m: Matrix, cols: nat): (o: Matrix)
    requires IsMatrix(m, cols)
    ensures |o| == |m| && IsMatrix(o, cols)
  {
    seq(|m|, i requires 0 <= i < |m| =>
      seq(cols, j requires 0 <= j < cols => Add(Mul(m[i][j], Fin(0.0)), Fin(1.0))))
  }

  /** Density `(m·Φ) / (ones·Φ)`, cell by cell. */
  function Density(m: Matrix, phi: Matrix, cols: nat, ones: Matrix): (d: Matrix)
    requires IsMatrix(m, |phi|) && IsMatrix(ones, |phi|) && |ones| == |m| && IsMatrix(phi, cols)
    ensures |d| == |m| && IsMatrix(d, cols)
  {
    var num := MatMul(m, phi, cols);
    var den := MatMul(ones, phi, cols);
    seq(|m|, l requires 0 <= l < |m| => seq(cols, a requires 0 <= a < cols => Div(num[l][a], den[l][a])))
  }

  lemma DensityAt(m: Matrix, phi: Matrix, cols: nat, ones: Matrix, l: nat, a: nat)
    requires IsMatrix(m, |phi|) && IsMatrix(ones, |phi|) && |ones| == |m| && IsMatrix(phi, cols)
    requires l < |m| && a < cols
    ensures Density(m, phi, cols, ones)[l][a] ==
      Div(NumDot(m[l], Col(phi, cols, a)), NumDot(ones[l], Col(phi, cols, a)))
  {
  }

  predicate AllOnes(s: seq<Num>) {
    forall i :: 0 <= i < |s| ==> s[i] == Fin(1.0)
  }

  lemma OnesLikeNoMissing(m: Matrix, cols: nat)
    requires NoMissing(m, cols)
    ensures OnesLike(m, cols) == Ones(|m|, cols)
  {
    var o := OnesLike(m, cols);
    forall i | 0 <= i < |m| ensures o[i] == Ones(|m|, cols)[i] {
      assert forall j :: 0 <= j < cols ==> o[i][j] == Fin(1.0);
    }
  }

  /** A row of `m*0 + 1` is all ones where the row of `m` is defined. */
  lemma OnesLikeRow(m: Matrix, cols: nat, l: nat)
    requires IsMatrix(m, cols) && l < |m| && AllFin(m[l])
    ensures AllOnes(OnesLike(m, cols)[l])
  {
  }

  /** The denominator row is `Σ_b Φ[b][a]`, the same for every location. */
  lemma {:induction false} NumDotOnes(o: seq<Num>, w: seq<Num>)
    requires |o| == |w| && AllOnes(o)
    ensures NumDot(o, w) == NumSum(w)
  {
    if |o| > 0 {
      NumDotOnes(o[1..], w[1..]);
      assert Mul(o[0], w[0]) == w[0] || w[0].NaN?;
    }
  }

  lemma DensityDenominator(m: Matrix, phi: Matrix, cols: nat, ones: Matrix, l: nat, a: nat)
    requires IsMatrix(m, |phi|) && IsMatrix(ones, |phi|) && |ones| == |m| && IsMatrix(phi, cols)
    requires l < |m| && a < cols && AllOnes(ones[l])
    ensures MatMul(ones, phi, cols)[l][a] == NumSum(Col(phi, cols, a))
  {
    NumDotOnes(ones[l], Col(phi, cols, a));
  }

  /** The density quotient for one 0/1 row against one proximity column
      `w` is undefined exactly when `w` has an undefined cell or sums to 0. */
  lemma ShareUndefined(row: seq<Num>, w: seq<Num>)
    requires |row| == |w| && AllBits(row)
    ensures Div(NumDot(row, w), NumSum(w)).NaN? <==> !AllFin(w) || Sum(Vals(w)) == 0.0
  {
    NumDotDefined(row, w);
    NumSumDefined(w);
    assert AllFin(row);
  }

  /** For a non-negative `w` with positive sum the quotient is the
      Φ-weighted share of held activities, within [0, 1]. */
  lemma {:induction false} ShareBounded(row: seq<Num>, w: seq<Num>)
    requires |row| == |w| && AllBits(row) && AllNonNeg(w) && Sum(Vals(w)) > 0.0
    ensures Div(NumDot(row, w), NumSum(w)).Fin?
    ensures 0.0 <= Div(NumDot(row, w), NumSum(w)).v <= 1.0
  {
    var num, total := NumDot(row, w), NumSum(w);
    NumDotDefined(row, w);
    NumSumDefined(w);
    var x, vw := Vals(row), Vals(w);
    assert AllFin(row) && Bits(x);
    SelectedWeight(x, vw);
    RatioBetween(num.v, total.v, 0.0, 1.0);
  }

  /** A density cell for a 0/1 row and an all-ones denominator row. */
  lemma DensityCell(m: Matrix, phi: Matrix, cols: nat, ones: Matrix, l: nat, a: nat)
    requires IsMatrix(m, |phi|) && IsMatrix(ones, |phi|) && |ones| == |m| && IsMatrix(phi, cols)
    requires l < |m| && a < cols && AllOnes(ones[l]) && AllBits(m[l])
    ensures var col := Col(phi, cols, a);
            var d := Density(m, phi, cols, ones)[l][a];
            && (d.NaN? <==> !AllFin(col) || Sum(Vals(col)) == 0.0)
            && (AllNonNeg(col) && Sum(Vals(col)) > 0.0 ==> d.Fin? && 0.0 <= d.v <= 1.0)
  {
    DensityAt(m, phi, cols, ones, l, a);
    NumDotOnes(ones[l], Col(phi, cols, a));
    ShareUndefined(m[l], Col(phi, cols, a));
    if AllNonNeg(Col(phi, cols, a)) && Sum(Vals(Col(phi, cols, a))) > 0.0 {
      ShareBounded(m[l], Col(phi, cols, a));
    }
  }

  /** The quotient for a row holding nothing is 0 and for a row holding
      everything is 1, when `w` is defined with a non-zero sum. */
  lemma ExtremeShares(row: seq<Num>, w: seq<Num>)
    requires |row| == |w| && AllFin(w) && Sum(Vals(w)) != 0.0
    ensures (forall b :: 0 <= b < |row| ==> row[b] == Fin(0.0)) ==> Div(NumDot(row, w), NumSum(w)) == Fin(0.0)
    ensures AllOnes(row) ==> Div(NumDot(row, w), NumSum(w)) == Fin(1.0)
  {
    var total := NumSum(w);
    NumSumDefined(w);
    assert total.Fin? && total.v != 0.0;
    if forall b :: 0 <= b < |row| ==> row[b] == Fin(0.0) {
      NumDotDefined(row, w);
      DotZeros(Vals(row), Vals(w));
      assert NumDot(row, w) == Fin(0.0);
      DivSelf(total.v);
    }
    if AllOnes(row) {
      NumDotOnes(row, w);
      assert NumDot(row, w) == total;
      DivSelf(total.v);
    }
  }

  /** A location holding no activity has density 0, and one holding every
      activity has density 1, in every column that is defined with a
      non-zero sum. */
  lemma DensityExtremeRows(m: Matrix, phi: Matrix, cols: nat, ones: Matrix, l: nat, a: nat)
    requires IsMatrix(m, |phi|) && IsMatrix(ones, |phi|) && |ones| == |m| && IsMatrix(phi, cols)
    requires l < |m| && a < cols && AllOnes(ones[l])
    requires AllFin(Col(phi, cols, a)) && Sum(Vals(Col(phi, cols, a))) != 0.0
    ensures (forall b :: 0 <= b < |phi| ==> m[l][b] == Fin(0.0)) ==> Density(m, phi, cols, ones)[l][a] == Fin(0.0)
    ensures AllOnes(m[l]) ==> Density(m, phi, cols, ones)[l][a] == Fin(1.0)
  {
    DensityAt(m, phi, cols, ones, l, a);
    NumDotOnes(ones[l], Col(phi, cols, a));
    ExtremeShares(m[l], Col(phi, cols, a));
  }

  /** An undefined cell in a row of `m` makes that row's density undefined
      in every column. */
  lemma DensityMissingRow(m: Matrix, phi: Matrix, cols: nat, ones: Matrix, l: nat, b: nat, a: nat)
    requires IsMatrix(m, |phi|) && IsMatrix(ones, |phi|) && |ones| == |m| && IsMatrix(phi, cols)
    requires l < |m| && b < |phi| && a < cols && m[l][b].NaN?
    ensures Density(m, phi, cols, ones)[l][a].NaN?
  {
    NumDotDefined(m[l], Col(phi, cols, a));
  }
}
