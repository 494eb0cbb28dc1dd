/** The shared dense-matrix algebra every engine is stated against.

    A frame is a row-major `seq<seq<Num>>`; its width is passed as `cols`
    wherever a frame with no rows would otherwise lose it. Two kinds of sum
    appear in the library and are kept apart here: pandas' `Series.sum()`
    skips NaN (SkipSum), while NumPy's `sum` and every matrix product
    (`DataFrame.dot`, `ndarray.dot`) propagate it (NumSum, NumDot). */
module Algebra {
  import opened Numeric

  type Matrix = seq<seq<Num>>

  // ---------------------------------------------------------------- reals

  function Sum(s: seq<real>): real {
    if |s| == 0 then 0.0 else s[0] + Sum(s[1..])
  }

  function Dot(u: seq<real>, v: seq<real>): real
    requires |u| == |v|
  {
    if |u| == 0 then 0.0 else u[0] * v[0] + Dot(u[1..], v[1..])
  }

  function Scale(s: seq<real>, k: real): seq<real> {
    seq(|s|, i requires 0 <= i < |s| => k * s[i])
  }

  predicate NonNegReals(w: seq<real>) {
    forall i :: 0 <= i < |w| ==> w[i] >= 0.0
  }

  /** Every value that carries a non-zero weight lies in [lo, hi]. */
  predicate WeightedWithin(x: seq<real>, w: seq<real>, lo: real, hi: real) {
    forall i :: 0 <= i < |x| && i < |w| && w[i] != 0.0 ==> lo <= x[i] <= hi
  }

  predicate Bits(u: seq<real>) {
    forall i :: 0 <= i < |u| ==> u[i] == 0.0 || u[i] == 1.0
  }

  /** Number of entries equal to 1. */
  function CountOnes(u: seq<real>): nat {
    if |u| == 0 then 0 else (if u[0] == 1.0 then 1 else 0) + CountOnes(u[1..])
  }

  /** Number of positions where both vectors hold a 1. */
  function CountBoth(u: seq<real>, v: seq<real>): nat
    requires |u| == |v|
  {
    if |u| == 0 then 0
    else (if u[0] == 1.0 && v[0] == 1.0 then 1 else 0) + CountBoth(u[1..], v[1..])
  }

  // ---------------------------------------------------------------- cells

  predicate AllFin(s: seq<Num>) {
    forall i :: 0 <= i < |s| ==> s[i].Fin?
  }

  predicate AllBits(s: seq<Num>) {
    forall i :: 0 <= i < |s| ==> IsBit(s[i])
  }

  predicate AllNonNeg(s: seq<Num>) {
    forall i :: 0 <= i < |s| ==> s[i].Fin? && s[i].v >= 0.0
  }

  /** The values of a cell vector, NaN read as 0 (`fillna(0)`). */
  function Vals(s: seq<Num>): seq<real> {
    seq(|s|, i requires 0 <= i < |s| => OrZero(s[i]))
  }

  function Lift(s: seq<real>): seq<Num> {
    seq(|s|, i requires 0 <= i < |s| => Fin(s[i]))
  }

  /** pandas `Series.sum()`: NaN cells are skipped. */
  function SkipSum(s: seq<Num>): real {
    if |s| == 0 then 0.0 else OrZero(s[0]) + SkipSum(s[1..])
  }

  /** NumPy `sum`: one NaN makes the total NaN. */
  function NumSum(s: seq<Num>): Num {
    if |s| == 0 then Fin(0.0) else Add(s[0], NumSum(s[1..]))
  }

  /** The dot product of a matrix product: NaN propagates (NaN * 0 is NaN). */
  function NumDot(u: seq<Num>, v: seq<Num>): Num
    requires |u| == |v|
  {
    if |u| == 0 then Fin(0.0) else Add(Mul(u[0], v[0]), NumDot(u[1..], v[1..]))
  }

  // ------------------------------------------------------------- matrices

  predicate IsMatrix(m: Matrix, cols: nat) {
    forall i :: 0 <= i < |m| ==> |m[i]| == cols
  }

  predicate IsBinary(m: Matrix, cols: nat) {
    IsMatrix(m, cols) && forall i, j :: 0 <= i < |m| && 0 <= j < cols ==> IsBit(m[i][j])
  }

  predicate NoMissing(m: Matrix, cols: nat) {
    IsMatrix(m, cols) && forall i, j :: 0 <= i < |m| && 0 <= j < cols ==> m[i][j].Fin?
  }

  function Col(m: Matrix, cols: nat, j: nat): seq<Num>
    requires IsMatrix(m, cols) && j < cols
  {
    seq(|m|, i requires 0 <= i < |m| => m[i][j])
  }

  function Transpose(m: Matrix, cols: nat): (t: Matrix)
    requires IsMatrix(m, cols)
    ensures |t| == cols && IsMatrix(t, |m|)
    ensures forall i, j :: 0 <= i < cols && 0 <= j < |m| ==> t[i][j] == m[j][i]
  {
    seq(cols, j requires 0 <= j < cols => Col(m, cols, j))
  }

  /** `a.dot(b)`, where `b` has `cols` columns. */
  function MatMul(a: Matrix, b: Matrix, cols: nat): (p: Matrix)
    requires IsMatrix(a, |b|) && IsMatrix(b, cols)
    ensures |p| == |a| && IsMatrix(p, cols)
  {
    seq(|a|, i requires 0 <= i < |a| =>
      seq(cols, j requires 0 <= j < cols => NumDot(a[i], Col(b, cols, j))))
  }

  /** pandas `DataFrame.sum(axis=0)`: per-column totals, NaN skipped. */
  function ColSkipSums(m: Matrix, cols: nat): (k: seq<real>)
    requires IsMatrix(m, cols)
    ensures |k| == cols
  {
    seq(cols, j requires 0 <= j < cols => SkipSum(Col(m, cols, j)))
  }

  /** The all-ones frame of the given shape (`np.ones`). */
  function Ones(rows: nat, cols: nat): (o: Matrix)
    ensures |o| == rows && IsMatrix(o, cols)
  {
    seq(rows, i => seq(cols, j => Fin(1.0)))
  }

  function LiftMatrix(m: seq<seq<real>>): Matrix {
    seq(|m|, i requires 0 <= i < |m| => Lift(m[i]))
  }

  // --------------------------------------------------------------- lemmas

  lemma {:induction false} SkipSumIsSumOfVals(s: seq<Num>)
    ensures SkipSum(s) == Sum(Vals(s))
  {
    if |s| > 0 {
      assert Vals(s)[1..] == Vals(s[1..]);
      SkipSumIsSumOfVals(s[1..]);
    }
  }

  /** NumPy's sum is defined exactly when every cell is, and then it is the
      plain sum of the values. */
  lemma {:induction false} NumSumDefined(s: seq<Num>)
    ensures NumSum(s).Fin? <==> AllFin(s)
    ensures NumSum(s).Fin? ==> NumSum(s).v == Sum(Vals(s))
  {
    if |s| > 0 {
      assert Vals(s)[1..] == Vals(s[1..]);
      NumSumDefined(s[1..]);
      if AllFin(s[1..]) && s[0].Fin? {
        assert AllFin(s);
      }
      if AllFin(s) {
        assert AllFin(s[1..]) by {
          forall i | 0 <= i < |s[1..]| ensures s[1..][i].Fin? { assert s[1..][i] == s[i + 1]; }
        }
      }
    }
  }

  /** A dot product is defined exactly when every cell of both vectors is,
      and then it is the plain dot product of the values. */
  lemma {:induction false} NumDotDefined(u: seq<Num>, v: seq<Num>)
    requires |u| == |v|
    ensures NumDot(u, v).Fin? <==> AllFin(u) && AllFin(v)
    ensures NumDot(u, v).Fin? ==> NumDot(u, v).v == Dot(Vals(u), Vals(v))
  {
    if |u| > 0 {
      assert Vals(u)[1..] == Vals(u[1..]);
      assert Vals(v)[1..] == Vals(v[1..]);
      NumDotDefined(u[1..], v[1..]);
      if AllFin(u) {
        assert AllFin(u[1..]) by {
          forall i | 0 <= i < |u[1..]| ensures u[1..][i].Fin? { assert u[1..][i] == u[i + 1]; }
        }
      }
      if AllFin(v) {
        assert AllFin(v[1..]) by {
          forall i | 0 <= i < |v[1..]| ensures v[1..][i].Fin? { assert v[1..][i] == v[i + 1]; }
        }
      }
      if AllFin(u[1..]) && u[0].Fin? {
        assert AllFin(u);
      }
      if AllFin(v[1..]) && v[0].Fin? {
        assert AllFin(v);
      }
    }
  }

  lemma {:induction false} NumDotComm(u: seq<Num>, v: seq<Num>)
    requires |u| == |v|
    ensures NumDot(u, v) == NumDot(v, u)
  {
    if |u| > 0 {
      NumDotComm(u[1..], v[1..]);
    }
  }

  lemma {:induction false} DotComm(u: seq<real>, v: seq<real>)
    requires |u| == |v|
    ensures Dot(u, v) == Dot(v, u)
  {
    if |u| > 0 {
      DotComm(u[1..], v[1..]);
    }
  }

  /** Dotting with a vector of ones sums the other vector. */
  lemma {:induction false} DotOnes(u: seq<real>, w: seq<real>)
    requires |u| == |w|
    requires forall i :: 0 <= i < |u| ==> u[i] == 1.0
    ensures Dot(u, w) == Sum(w)
  {
    if |u| > 0 {
      DotOnes(u[1..], w[1..]);
    }
  }

  /** A zero vector dots to zero. */
  lemma {:induction false} DotZeros(u: seq<real>, w: seq<real>)
    requires |u| == |w|
    requires forall i :: 0 <= i < |u| ==> u[i] == 0.0
    ensures Dot(u, w) == 0.0
  {
    if |u| > 0 {
      DotZeros(u[1..], w[1..]);
    }
  }

  lemma {:induction false} SumNonNeg(s: seq<real>)
    requires forall i :: 0 <= i < |s| ==> s[i] >= 0.0
    ensures Sum(s) >= 0.0
  {
    if |s| > 0 {
      SumNonNeg(s[1..]);
    }
  }

  /** A non-negative vector with zero sum is the zero vector. */
  lemma {:induction false} SumZeroNonNeg(s: seq<real>, k: nat)
    requires forall i :: 0 <= i < |s| ==> s[i] >= 0.0
    requires Sum(s) == 0.0 && k < |s|
    ensures s[k] == 0.0
  {
    SumNonNeg(s[1..]);
    if k > 0 {
      SumZeroNonNeg(s[1..], k - 1);
    }
  }

  /** One entry of a non-negative vector is at most its sum. */
  lemma {:induction false} EntryAtMostSum(s: seq<real>, k: nat)
    requires forall i :: 0 <= i < |s| ==> s[i] >= 0.0
    requires k < |s|
    ensures s[k] <= Sum(s)
  {
    SumNonNeg(s[1..]);
    if k > 0 {
      EntryAtMostSum(s[1..], k - 1);
    }
  }

  lemma {:induction false} SumScale(s: seq<real>, k: real)
    ensures Sum(Scale(s, k)) == k * Sum(s)
  {
    if |s| > 0 {
      forall i | 0 <= i < |s| - 1 ensures Scale(s, k)[1..][i] == Scale(s[1..], k)[i] {
        assert s[1..][i] == s[i + 1];
      }
      assert Scale(s, k)[1..] == Scale(s[1..], k);
      SumScale(s[1..], k);
    }
  }

  /** Values in [lo, hi] (wherever their weight is non-zero) weighted by
      non-negative weights: the weighted sum
      lies between lo and hi times the total weight. */
  lemma {:induction false} WeightedBounds(x: seq<real>, w: seq<real>, lo: real, hi: real)
    requires |x| == |w| && NonNegReals(w) && WeightedWithin(x, w, lo, hi)
    ensures lo * Sum(w) <= Dot(x, w) && Dot(x, w) <= hi * Sum(w)
  {
    var xw, low, high := Products(x, w), Scale(w, lo), Scale(w, hi);
    forall i | 0 <= i < |w| ensures low[i] <= xw[i] <= high[i] {
      TermBounds(x[i], w[i], lo, hi);
    }
    SumMono(low, xw);
    SumMono(xw, high);
    DotIsSumOfProducts(x, w);
    SumScale(w, lo);
    SumScale(w, hi);
  }

  /** One weighted term of WeightedBounds. */
  lemma {:induction false} TermBounds(x0: real, w0: real, lo: real, hi: real)
    requires w0 >= 0.0 && (w0 != 0.0 ==> lo <= x0 <= hi)
    ensures lo * w0 <= x0 * w0 <= hi * w0
  {
    if w0 != 0.0 {
      assert (x0 - lo) * w0 >= 0.0;
      assert (hi - x0) * w0 >= 0.0;
    }
  }

  function Products(u: seq<real>, v: seq<real>): (p: seq<real>)
    requires |u| == |v|
    ensures |p| == |u|
  {
    seq(|u|, i requires 0 <= i < |u| => u[i] * v[i])
  }

  lemma {:induction false} DotIsSumOfProducts(u: seq<real>, v: seq<real>)
    requires |u| == |v|
    ensures Dot(u, v) == Sum(Products(u, v))
  {
    if |u| > 0 {
      forall i | 0 <= i < |u| - 1 ensures Products(u, v)[1..][i] == Products(u[1..], v[1..])[i] {
        assert u[1..][i] == u[i + 1] && v[1..][i] == v[i + 1];
      }
      assert Products(u, v)[1..] == Products(u[1..], v[1..]);
      DotIsSumOfProducts(u[1..], v[1..]);
    }
  }

  /** Sums are monotone in every entry. */
  lemma {:induction false} SumMono(a: seq<real>, b: seq<real>)
    requires |a| == |b| && forall i :: 0 <= i < |a| ==> a[i] <= b[i]
    ensures Sum(a) <= Sum(b)
  {
    if |a| > 0 {
      SumMono(a[1..], b[1..]);
    }
  }

  /** A vector whose cells are all 0 or undefined has pandas sum 0. */
  lemma {:induction false} SkipSumOfZeros(s: seq<Num>)
    requires forall i :: 0 <= i < |s| ==> OrZero(s[i]) == 0.0
    ensures SkipSum(s) == 0.0
  {
    if |s| > 0 {
      SkipSumOfZeros(s[1..]);
    }
  }

  /** A 0/1 selection of non-negative weights sums to between 0 and the
      total weight. */
  lemma {:induction false} SelectedWeight(x: seq<real>, w: seq<real>)
    requires |x| == |w| && Bits(x)
    requires forall i :: 0 <= i < |w| ==> w[i] >= 0.0
    ensures 0.0 <= Dot(x, w) <= Sum(w)
  {
    if |x| > 0 {
      SelectedWeight(x[1..], w[1..]);
      assert x[0] * w[0] == (if x[0] == 1.0 then w[0] else 0.0);
    }
  }

  /** Dividing every entry by d divides the sum by d. */
  lemma {:induction false} SumDiv(s: seq<real>, e: seq<real>, d: real)
    requires |s| == |e| && d != 0.0
    requires forall i :: 0 <= i < |s| ==> e[i] == s[i] / d
    ensures Sum(e) == Sum(s) / d
  {
    if |s| > 0 {
      SumDiv(s[1..], e[1..], d);
    }
  }

  /** Dividing every weight by d divides the weighted sum by d. */
  lemma {:induction false} DotDiv(x: seq<real>, w: seq<real>, e: seq<real>, d: real)
    requires |x| == |w| == |e| && d != 0.0
    requires forall i :: 0 <= i < |w| ==> e[i] == w[i] / d
    ensures Dot(x, e) == Dot(x, w) / d
  {
    if |x| > 0 {
      DotDiv(x[1..], w[1..], e[1..], d);
      assert x[0] * (w[0] / d) == (x[0] * w[0]) / d;
    }
  }

  /** A ratio d / s with lo*s <= d <= hi*s and s > 0 lies in [lo, hi]. */
  lemma RatioBetween(d: real, s: real, lo: real, hi: real)
    requires s > 0.0 && lo * s <= d <= hi * s
    ensures lo <= d / s <= hi
  {
    assert d / s * s == d;
  }

  /** A weighted average of values in [lo, hi] (wherever their weight is
      non-zero) with non-negative weights of positive total lies in [lo, hi]. */
  lemma {:induction false} WeightedAverage(x: seq<real>, w: seq<real>, lo: real, hi: real)
    requires |x| == |w| && Sum(w) > 0.0
    requires NonNegReals(w) && WeightedWithin(x, w, lo, hi)
    ensures lo <= Dot(x, w) / Sum(w) <= hi
  {
    var d, s := Dot(x, w), Sum(w);
    assert lo * s <= d <= hi * s by {
      WeightedBounds(x, w, lo, hi);
    }
    RatioBetween(d, s, lo, hi);
  }

  /** For 0/1 vectors the sum counts the ones. */
  lemma {:induction false} SumOfBits(u: seq<real>)
    requires Bits(u)
    ensures Sum(u) == CountOnes(u) as real
  {
    if |u| > 0 {
      SumOfBits(u[1..]);
    }
  }

  /** For 0/1 vectors the dot product counts the common ones, and that count
      is bounded by the ones of either vector. */
  lemma {:induction false} DotOfBits(u: seq<real>, v: seq<real>)
    requires |u| == |v| && Bits(u) && Bits(v)
    ensures Dot(u, v) == CountBoth(u, v) as real
    ensures CountBoth(u, v) <= CountOnes(u) && CountBoth(u, v) <= CountOnes(v)
  {
    if |u| > 0 {
      DotOfBits(u[1..], v[1..]);
    }
  }

  lemma VectorVals(s: seq<Num>)
    requires AllFin(s)
    ensures Lift(Vals(s)) == s
  {
  }

  lemma ColOfBinary(m: Matrix, cols: nat, j: nat)
    requires IsBinary(m, cols) && j < cols
    ensures AllFin(Col(m, cols, j)) && Bits(Vals(Col(m, cols, j)))
  {
  }

  lemma RowOfBinary(m: Matrix, cols: nat, i: nat)
    requires IsBinary(m, cols) && i < |m|
    ensures AllFin(m[i]) && Bits(Vals(m[i]))
  {
  }

  /** Transposing twice gives the matrix back. */
  lemma TransposeTwice(m: Matrix, cols: nat)
    requires IsMatrix(m, cols)
    ensures Transpose(Transpose(m, cols), |m|) == m
  {
    var t := Transpose(Transpose(m, cols), |m|);
    forall i | 0 <= i < |m| ensures t[i] == m[i] {
      assert forall j :: 0 <= j < cols ==> t[i][j] == m[i][j];
    }
  }

  /** A 0/1 vector has no 1 exactly when it counts no 1. */
  lemma {:induction false} CountOnesZero(u: seq<real>)
    requires Bits(u)
    ensures CountOnes(u) == 0 <==> forall i :: 0 <= i < |u| ==> u[i] == 0.0
  {
    if |u| > 0 {
      CountOnesZero(u[1..]);
      assert forall i :: 1 <= i < |u| ==> u[i] == u[1..][i - 1];
    }
  }

  lemma GramSymmetric(m: Matrix, cols: nat, i: nat, j: nat)
    requires IsMatrix(m, cols) && i < cols && j < cols
    ensures MatMul(Transpose(m, cols), m, cols)[i][j] == MatMul(Transpose(m, cols), m, cols)[j][i]
  {
    var t := Transpose(m, cols);
    assert t[i] == Col(m, cols, i) && t[j] == Col(m, cols, j);
    NumDotComm(Col(m, cols, i), Col(m, cols, j));
  }
}
