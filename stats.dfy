/** pandas `Series.mean()`, `Series.std()` and the standardization
    `(x - x.mean()) / x.std()` used for every complexity index.

    Both statistics skip undefined cells. `std` has one degree of freedom
    removed (n - 1 in the divisor), so it is undefined for fewer than two
    defined cells; its square root is the caller-supplied `root`, left
    uninterpreted. */
module Stats {
  import opened Numeric
  import opened Algebra

  /** The defined values of `s`, in order. */
  function Defined(s: seq<Num>): (d: seq<real>)
    ensures |d| <= |s|
  {
    if |s| == 0 then []
    else (if s[0].Fin? then [s[0].v] else []) + Defined(s[1..])
  }

  function Mean(s: seq<Num>): Num {
    var d := Defined(s);
    if |d| == 0 then NaN else Fin(Sum(d) / |d| as real)
  }

  /** Σ (x - mu)² over `d`. */
  function SquaredDeviation(d: seq<real>, mu: real): real {
    if |d| == 0 then 0.0 else (d[0] - mu) * (d[0] - mu) + SquaredDeviation(d[1..], mu)
  }

  function Std(s: seq<Num>, root: real -> real): Num {
    var d := Defined(s);
    if |d| < 2 then NaN
    else Fin(root(SquaredDeviation(d, Sum(d) / |d| as real) / (|d| - 1) as real))
  }

  /** Each cell shifted by `mu` and divided by `sigma`. */
  function Affine(s: seq<Num>, mu: Num, sigma: Num): (z: seq<Num>)
    ensures |z| == |s|
  {
    seq(|s|, i requires 0 <= i < |s| => Div(Sub(s[i], mu), sigma))
  }

  /** `(x - x.mean()) / x.std()`. */
  function Standardize(s: seq<Num>, root: real -> real): (z: seq<Num>)
    ensures |z| == |s|
  {
    Affine(s, Mean(s), Std(s, root))
  }

  function ShiftScale(d: seq<real>, mu: real, sigma: real): (e: seq<real>)
    requires sigma != 0.0
    ensures |e| == |d|
  {
    seq(|d|, i requires 0 <= i < |d| => (d[i] - mu) / sigma)
  }

  /** Every defined cell of `s` lies in [lo, hi]. */
  predicate DefinedIn(s: seq<Num>, lo: real, hi: real) {
    forall i :: 0 <= i < |s| && s[i].Fin? ==> lo <= s[i].v <= hi
  }

  // --------------------------------------------------------------- lemmas

  /** The mean of defined values within [lo, hi] lies within [lo, hi]. */
  lemma {:induction false} MeanBetween(s: seq<Num>, lo: real, hi: real)
    requires |Defined(s)| > 0 && DefinedIn(s, lo, hi)
    ensures Mean(s).Fin? && lo <= Mean(s).v <= hi
  {
    var d := Defined(s);
    assert Mean(s) == Fin(Sum(d) / |d| as real);
    assert lo <= Sum(d) / |d| as real <= hi by {
      DefinedWithin(s, lo, hi);
      SumWithin(d, lo, hi);
      RatioBetween(Sum(d), |d| as real, lo, hi);
    }
  }

  lemma {:induction false} DefinedWithin(s: seq<Num>, lo: real, hi: real)
    requires forall i :: 0 <= i < |s| && s[i].Fin? ==> lo <= s[i].v <= hi
    ensures forall k :: 0 <= k < |Defined(s)| ==> lo <= Defined(s)[k] <= hi
  {
    if |s| > 0 {
      DefinedWithin(s[1..], lo, hi);
    }
  }

  lemma {:induction false} SumWithin(d: seq<real>, lo: real, hi: real)
    requires forall k :: 0 <= k < |d| ==> lo <= d[k] <= hi
    ensures lo * |d| as real <= Sum(d) <= hi * |d| as real
  {
    if |d| > 0 {
      SumWithin(d[1..], lo, hi);
    }
  }

  lemma {:induction false} DefinedAffine(s: seq<Num>, mu: real, sigma: real)
    requires sigma != 0.0
    ensures Defined(Affine(s, Fin(mu), Fin(sigma))) == ShiftScale(Defined(s), mu, sigma)
  {
    if |s| > 0 {
      assert Affine(s, Fin(mu), Fin(sigma))[1..] == Affine(s[1..], Fin(mu), Fin(sigma));
      DefinedAffine(s[1..], mu, sigma);
      var e := ShiftScale(Defined(s[1..]), mu, sigma);
      if s[0].Fin? {
        assert ShiftScale(Defined(s), mu, sigma) == [(s[0].v - mu) / sigma] + e;
      } else {
        assert ShiftScale(Defined(s), mu, sigma) == e;
      }
    }
  }

  lemma {:induction false} SumShiftScale(d: seq<real>, mu: real, sigma: real)
    requires sigma != 0.0
    ensures Sum(ShiftScale(d, mu, sigma)) == (Sum(d) - |d| as real * mu) / sigma
  {
    if |d| > 0 {
      assert ShiftScale(d, mu, sigma)[1..] == ShiftScale(d[1..], mu, sigma);
      SumShiftScale(d[1..], mu, sigma);
      ShiftScaleStep(d[0], Sum(d[1..]), (|d| - 1) as real, mu, sigma);
    }
  }

  lemma ShiftScaleStep(x: real, rest: real, n: real, mu: real, sigma: real)
    requires sigma != 0.0
    ensures (x - mu) / sigma + (rest - n * mu) / sigma == (x + rest - (n + 1.0) * mu) / sigma
  {
  }

  /** Wherever the standard deviation is defined and non-zero, the defined
      standardized values sum to 0 (the values are mean-centred). */
  lemma {:induction false} StandardizedSumsToZero(s: seq<Num>, root: real -> real)
    requires Std(s, root).Fin? && Std(s, root).v != 0.0
    ensures Sum(Defined(Standardize(s, root))) == 0.0
  {
    var d := Defined(s);
    var total, n := Sum(d), |d| as real;
    var mu, sigma := total / n, Std(s, root).v;
    assert Standardize(s, root) == Affine(s, Fin(mu), Fin(sigma));
    assert Sum(ShiftScale(d, mu, sigma)) == 0.0 by {
      SumShiftScale(d, mu, sigma);
      Centred(total, n, sigma);
    }
    DefinedAffine(s, mu, sigma);
  }

  /** Shifting `n` values by their mean `total / n` leaves a sum of 0. */
  lemma Centred(total: real, n: real, sigma: real)
    requires n > 0.0 && sigma != 0.0
    ensures (total - n * (total / n)) / sigma == 0.0
  {
    assert n * (total / n) == total;
  }

  /** An undefined cell stays undefined; a defined cell standardizes to a
      defined value exactly when the standard deviation is defined and
      non-zero. */
  lemma StandardizeCell(s: seq<Num>, root: real -> real, i: nat)
    requires i < |s|
    ensures Standardize(s, root)[i].Fin? <==>
      s[i].Fin? && Std(s, root).Fin? && Std(s, root).v != 0.0
  {
    var d := Defined(s);
    if s[i].Fin? {
      DefinedContains(s, i);
    }
  }

  lemma {:induction false} DefinedContains(s: seq<Num>, i: nat)
    requires i < |s| && s[i].Fin?
    ensures |Defined(s)| > 0
  {
    if i > 0 {
      DefinedContains(s[1..], i - 1);
    }
  }

  /** When every defined value is the same, the squared deviation is 0, so
      (for a root with root(0) = 0) every standardized cell is undefined. */
  lemma ConstantIsUndefined(s: seq<Num>, root: real -> real, c: real)
    requires forall i :: 0 <= i < |s| && s[i].Fin? ==> s[i].v == c
    requires root(0.0) == 0.0
    ensures forall i :: 0 <= i < |s| ==> Standardize(s, root)[i].NaN?
  {
    var d := Defined(s);
    DefinedWithin(s, c, c);
    if |d| >= 2 {
      SumWithin(d, c, c);
      assert Sum(d) / |d| as real == c;
      NoDeviation(d, c);
      assert Std(s, root) == Fin(root(0.0 / (|d| - 1) as real));
    }
  }

  lemma {:induction false} NoDeviation(d: seq<real>, c: real)
    requires forall k :: 0 <= k < |d| ==> d[k] == c
    ensures SquaredDeviation(d, c) == 0.0
  {
    if |d| > 0 {
      NoDeviation(d[1..], c);
    }
  }
}
