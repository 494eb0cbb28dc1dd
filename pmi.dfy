/** The product-measure index (PMI) shared by the pandas `pmi` and the
    NumPy-era `_pmi`: a per-activity average of a per-location measure
    (a Gini coefficient, an emissions intensity, ...), weighted by the
    export shares of the locations with an advantage in the activity.

    Both versions fill missing exports and missing measures with 0, keep
    only the locations present in both the export table and the measure
    (in ascending label order), divide every export by its location's
    total (`scp`), multiply by the advantage matrix M, and divide the
    measure-weighted column sums (`num`) by the plain column sums (`normp`).
    They differ only in how M is built; here M is a parameter whose rows are
    those of the export table. Location labels are integers. */
module MeasureIndex {
  import opened Numeric
  import opened Algebra
  import opened Advantage
  import opened PivotRca

  /** A frame whose rows are labelled by location. */
  datatype Table = Table(locations: seq<int>, cells: Matrix)

  /** A one-column frame labelled by location; `name` is its header. */
  datatype Column = Column(locations: seq<int>, name: string, values: seq<Num>)

  predicate Distinct(s: seq<int>) {
    forall i, j :: 0 <= i < j < |s| ==> s[i] != s[j]
  }

  predicate Increasing(s: seq<int>) {
    forall i, j :: 0 <= i < j < |s| ==> s[i] < s[j]
  }

  // ------------------------------------------------------------ labels

  /** `list(set(xs) & set(ys))`: every label of both, once. */
  function Common(xs: seq<int>, ys: seq<int>): (c: seq<int>)
    ensures Distinct(c)
    ensures forall x :: x in c <==> x in xs && x in ys
  {
    if |xs| == 0 then []
    else
      var rest := Common(xs[1..], ys);
      assert forall x :: x in xs <==> x == xs[0] || x in xs[1..];
      if xs[0] in ys && xs[0] !in rest then
        assert forall j :: 0 <= j < |rest| ==> ([xs[0]] + rest)[j + 1] == rest[j];
        [xs[0]] + rest
      else rest
  }

  /** Inserts a label into an ascending sequence. */
  function Insert(x: int, s: seq<int>): (r: seq<int>)
    ensures |r| == |s| + 1
    ensures forall y :: y in r <==> y == x || y in s
  {
    if |s| == 0 || x < s[0] then [x] + s
    else
      assert forall y :: y in s <==> y == s[0] || y in s[1..];
      [s[0]] + Insert(x, s[1..])
  }

  lemma {:induction false} InsertIncreasing(x: int, s: seq<int>)
    requires Increasing(s) && x !in s
    ensures Increasing(Insert(x, s))
  {
    if |s| > 0 && x >= s[0] {
      var rest := Insert(x, s[1..]);
      assert Increasing(s[1..]);
      InsertIncreasing(x, s[1..]);
      assert forall j :: 0 <= j < |rest| ==> s[0] < rest[j] by {
        forall j | 0 <= j < |rest| ensures s[0] < rest[j] {
          assert rest[j] in rest;
        }
      }
      assert forall j :: 0 < j < |rest| + 1 ==> ([s[0]] + rest)[j] == rest[j - 1];
    }
  }

  /** `sort_index(ascending=True)` on distinct labels. */
  function SortLabels(s: seq<int>): (r: seq<int>)
    ensures |r| == |s|
    ensures forall y :: y in r <==> y in s
    ensures Distinct(s) ==> Increasing(r)
  {
    if |s| == 0 then []
    else
      var rest := SortLabels(s[1..]);
      assert forall y :: y in s <==> y == s[0] || y in s[1..];
      if Distinct(s) then
        assert Distinct(s[1..]);
        assert s[0] !in s[1..];
        InsertIncreasing(s[0], rest);
        Insert(s[0], rest)
      else Insert(s[0], rest)
  }

  /** The locations every frame is cut down to: those of both the table and
      the measure, in ascending order. */
  function Kept(xs: seq<int>, ys: seq<int>): (k: seq<int>)
    ensures Increasing(k)
    ensures forall x :: x in k <==> x in xs && x in ys
  {
    SortLabels(Common(xs, ys))
  }

  /** The position of a label. */
  function IndexOf(s: seq<int>, x: int): (i: nat)
    requires x in s
    ensures i < |s| && s[i] == x
    ensures forall j :: 0 <= j < i ==> s[j] != x
  {
    if s[0] == x then 0 else 1 + IndexOf(s[1..], x)
  }

  /** `filter(items=keep, axis=0)` followed by `sort_index()` on rows
      labelled by `labels`, for an ascending `keep`. */
  function Pick<T>(labels: seq<int>, rows: seq<T>, keep: seq<int>): (p: seq<T>)
    requires |rows| == |labels| && forall k :: 0 <= k < |keep| ==> keep[k] in labels
    ensures |p| == |keep|
  {
    seq(|keep|, k requires 0 <= k < |keep| => rows[IndexOf(labels, keep[k])])
  }

  /** `fillna(value=0)` on the measure. */
  function FillValues(s: seq<Num>): (f: seq<Num>)
    ensures |f| == |s| && AllFin(f)
  {
    seq(|s|, i requires 0 <= i < |s| => FillZero(s[i]))
  }

  // ------------------------------------------------------------ the index

  /** `np.divide(tbl, col_sums)`: every export over its location's total. */
  function Shares(t: Matrix, cols: nat): (scp: Matrix)
    requires IsMatrix(t, cols)
    ensures |scp| == |t| && IsMatrix(scp, cols)
  {
    seq(|t|, l requires 0 <= l < |t| =>
      seq(cols, a requires 0 <= a < cols => Div(t[l][a], Fin(SkipSum(t[l])))))
  }

  /** `m.multiply(scp)`. */
  function Weights(m: Matrix, scp: Matrix, cols: nat): (w: Matrix)
    requires IsMatrix(m, cols) && IsMatrix(scp, cols) && |m| == |scp|
    ensures |w| == |m| && IsMatrix(w, cols)
  {
    seq(|m|, l requires 0 <= l < |m| =>
      seq(cols, a requires 0 <= a < cols => Mul(m[l][a], scp[l][a])))
  }

  /** `num / normp` on aligned frames: `num[a]` is the NumPy dot product of
      the weights of activity a with the measure, `normp[a]` the pandas
      (NaN-skipping) sum of those weights. */
  function PmiFrom(m: Matrix, t: Matrix, x: seq<Num>, cols: nat): (p: seq<Num>)
    requires IsMatrix(m, cols) && IsMatrix(t, cols) && |m| == |t| == |x|
    ensures |p| == cols
  {
    var w := Weights(m, Shares(t, cols), cols);
    seq(cols, a requires 0 <= a < cols =>
      Div(NumDot(Col(w, cols, a), x), Fin(SkipSum(Col(w, cols, a)))))
  }

  /** The shapes the index needs. The labels of each frame are distinct
      (pandas refuses to re-index an axis with repeated labels). */
  predicate Fits(tbl: Table, m: Matrix, measure: Column, cols: nat) {
    && |tbl.cells| == |tbl.locations| && IsMatrix(tbl.cells, cols)
    && |m| == |tbl.cells| && IsMatrix(m, cols)
    && |measure.values| == |measure.locations|
    && Distinct(tbl.locations) && Distinct(measure.locations)
  }

  function KeptLabels(tbl: Table, measure: Column): seq<int> {
    Kept(tbl.locations, measure.locations)
  }

  /** The kept, sorted, zero-filled export table. */
  function KeptTable(tbl: Table, measure: Column, cols: nat): (t: Matrix)
    requires |tbl.cells| == |tbl.locations| && IsMatrix(tbl.cells, cols)
    ensures |t| == |KeptLabels(tbl, measure)| && IsMatrix(t, cols)
  {
    Pick(tbl.locations, FillMissing(tbl.cells, cols), KeptLabels(tbl, measure))
  }

  /** The kept, sorted rows of the advantage matrix. */
  function KeptAdvantage(tbl: Table, m: Matrix, measure: Column, cols: nat): (mk: Matrix)
    requires |m| == |tbl.locations| && IsMatrix(m, cols)
    ensures |mk| == |KeptLabels(tbl, measure)| && IsMatrix(mk, cols)
  {
    Pick(tbl.locations, m, KeptLabels(tbl, measure))
  }

  /** The kept, sorted, zero-filled measure. */
  function KeptMeasure(tbl: Table, measure: Column): (x: seq<Num>)
    requires |measure.values| == |measure.locations|
    ensures |x| == |KeptLabels(tbl, measure)| && AllFin(x)
  {
    Pick(measure.locations, FillValues(measure.values), KeptLabels(tbl, measure))
  }

  /** The index for the advantage matrix `m`, one value per activity. */
  function PmiOf(tbl: Table, m: Matrix, measure: Column, cols: nat): (p: seq<Num>)
    requires Fits(tbl, m, measure, cols)
    ensures |p| == cols
  {
    PmiFrom(KeptAdvantage(tbl, m, measure, cols), KeptTable(tbl, measure, cols),
            KeptMeasure(tbl, measure), cols)
  }

  // ------------------------------------------------------------ conditions

  /** Row `l` of the table survives the location filter. */
  predicate KeptRow(tbl: Table, measure: Column, l: nat)
    requires l < |tbl.locations|
  {
    tbl.locations[l] in measure.locations
  }

  /** The zero-filled measure of a kept location. */
  function MeasureAt(measure: Column, x: int): real
    requires |measure.values| == |measure.locations| && x in measure.locations
  {
    OrZero(measure.values[IndexOf(measure.locations, x)])
  }

  /** Location `l` has an advantage in `a` and a non-zero export of it. */
  predicate Contributes(tbl: Table, m: Matrix, cols: nat, l: nat, a: nat)
    requires |m| == |tbl.cells| && IsMatrix(m, cols) && IsMatrix(tbl.cells, cols)
    requires l < |tbl.cells| && a < cols
  {
    m[l][a] == Fin(1.0) && OrZero(tbl.cells[l][a]) != 0.0
  }

  /** Every kept location has a positive export total. */
  predicate KeptTotalsPositive(tbl: Table, measure: Column, cols: nat)
    requires |tbl.cells| == |tbl.locations|
  {
    forall l :: 0 <= l < |tbl.cells| && KeptRow(tbl, measure, l) ==> SkipSum(tbl.cells[l]) > 0.0
  }

  /** Column `a` of M is 0/1 at every kept location. */
  predicate KeptBits(tbl: Table, m: Matrix, measure: Column, cols: nat, a: nat)
    requires Fits(tbl, m, measure, cols) && a < cols
  {
    forall l :: 0 <= l < |tbl.cells| && KeptRow(tbl, measure, l) ==> IsBit(m[l][a])
  }

  predicate SomeContributor(tbl: Table, m: Matrix, measure: Column, cols: nat, a: nat)
    requires Fits(tbl, m, measure, cols) && a < cols
  {
    exists l :: 0 <= l < |tbl.cells| && KeptRow(tbl, measure, l) && Contributes(tbl, m, cols, l, a)
  }

  /** The measure of every kept location contributing to `a` is in [lo, hi]. */
  predicate ContributorsWithin(tbl: Table, m: Matrix, measure: Column, cols: nat, a: nat, lo: real, hi: real)
    requires Fits(tbl, m, measure, cols) && a < cols
  {
    forall l :: 0 <= l < |tbl.cells| && KeptRow(tbl, measure, l) && Contributes(tbl, m, cols, l, a) ==>
      lo <= MeasureAt(measure, tbl.locations[l]) <= hi
  }

  // --------------------------------------------------------------- lemmas

  /** Each kept location's shares sum to 1 when its total is non-zero; a
      location with a zero total has only undefined shares. */
  lemma {:induction false} SharesSumToOne(t: Matrix, cols: nat, l: nat)
    requires IsMatrix(t, cols) && l < |t| && AllFin(t[l])
    ensures SkipSum(t[l]) != 0.0 ==> AllFin(Shares(t, cols)[l]) && Sum(Vals(Shares(t, cols)[l])) == 1.0
    ensures SkipSum(t[l]) == 0.0 ==> forall a :: 0 <= a < cols ==> Shares(t, cols)[l][a].NaN?
  {
    var total := SkipSum(t[l]);
    var e := Shares(t, cols)[l];
    if total != 0.0 {
      SkipSumIsSumOfVals(t[l]);
      assert forall a :: 0 <= a < cols ==> Vals(e)[a] == Vals(t[l])[a] / total;
      SumDiv(Vals(t[l]), Vals(e), total);
      DivSelf(total);
    }
  }

  lemma {:induction false} SkipSumFilled(s: seq<Num>, f: seq<Num>)
    requires |f| == |s| && forall i :: 0 <= i < |s| ==> f[i] == FillZero(s[i])
    ensures SkipSum(f) == SkipSum(s)
  {
    if |s| > 0 {
      SkipSumFilled(s[1..], f[1..]);
    }
  }

  /** Distinct labels: the position of `s[i]` is `i`. */
  lemma {:induction false} IndexOfDistinct(s: seq<int>, i: nat)
    requires Distinct(s) && i < |s|
    ensures IndexOf(s, s[i]) == i
  {
  }

  /** The weight of kept position `k` in activity `a`, in terms of the
      table row it comes from. */
  lemma {:induction false} WeightAt(tbl: Table, m: Matrix, measure: Column, cols: nat, a: nat, k: nat)
    requires Fits(tbl, m, measure, cols) && a < cols && k < |KeptLabels(tbl, measure)|
    ensures var keep := KeptLabels(tbl, measure);
            var l := IndexOf(tbl.locations, keep[k]);
            var w := Weights(KeptAdvantage(tbl, m, measure, cols), Shares(KeptTable(tbl, measure, cols), cols), cols);
            && KeptRow(tbl, measure, l)
            && w[k][a] == Mul(m[l][a], Div(FillZero(tbl.cells[l][a]), Fin(SkipSum(tbl.cells[l]))))
            && KeptMeasure(tbl, measure)[k] == FillZero(measure.values[IndexOf(measure.locations, keep[k])])
  {
    var keep := KeptLabels(tbl, measure);
    var l := IndexOf(tbl.locations, keep[k]);
    var t := KeptTable(tbl, measure, cols);
    assert t[k] == FillMissing(tbl.cells, cols)[l];
    SkipSumFilled(tbl.cells[l], t[k]);
  }

  /** A weight `b · v / total` whose bit is 0 or missing, or whose value
      is 0, reads as 0. */
  lemma NoShare(b: Num, v: real, total: real)
    requires IsBit(b) || b.NaN?
    requires !(b == Fin(1.0) && v != 0.0)
    ensures OrZero(Mul(b, Div(Fin(v), Fin(total)))) == 0.0
  {
  }

  /** One weight `b · v / total` for a bit b, v >= 0 and total > 0. */
  lemma {:induction false} ShareWeight(b: Num, v: real, total: real)
    requires IsBit(b) && v >= 0.0 && total > 0.0
    ensures var c := Mul(b, Div(Fin(v), Fin(total)));
            && c.Fin? && c.v >= 0.0
            && (c.v != 0.0 <==> b == Fin(1.0) && v != 0.0)
  {
    assert v / total >= 0.0;
    assert v != 0.0 ==> v / total != 0.0;
  }

  /** The weighted average of `x` by non-negative weights `w` with a
      positive total lies in [lo, hi] when every weighted value does. */
  lemma {:induction false} WeightedMeasure(w: seq<Num>, x: seq<Num>, lo: real, hi: real)
    requires |w| == |x| && AllNonNeg(w) && AllFin(x) && Sum(Vals(w)) > 0.0
    requires WeightedWithin(Vals(x), Vals(w), lo, hi)
    ensures var p := Div(NumDot(w, x), Fin(SkipSum(w)));
            p.Fin? && lo <= p.v <= hi
  {
    NumDotDefined(w, x);
    SkipSumIsSumOfVals(w);
    DotComm(Vals(w), Vals(x));
    assert NonNegReals(Vals(w));
    WeightedAverage(Vals(x), Vals(w), lo, hi);
  }

  /** The weights of activity `a` at the kept locations, in kept order. */
  function WeightColumn(tbl: Table, m: Matrix, measure: Column, cols: nat, a: nat): (c: seq<Num>)
    requires Fits(tbl, m, measure, cols) && a < cols
    ensures |c| == |KeptLabels(tbl, measure)|
  {
    Col(Weights(KeptAdvantage(tbl, m, measure, cols), Shares(KeptTable(tbl, measure, cols), cols), cols), cols, a)
  }

  /** With non-negative exports, positive totals at every kept location and
      at least one kept location contributing to `a`, the index of `a` is
      defined and lies between the lowest and the highest measure of the
      contributing locations. */
  lemma {:induction false} PmiBetween(tbl: Table, m: Matrix, measure: Column, cols: nat, a: nat, lo: real, hi: real)
    requires Fits(tbl, m, measure, cols) && a < cols
    requires NonNegCells(tbl.cells, cols) && KeptTotalsPositive(tbl, measure, cols)
    requires KeptBits(tbl, m, measure, cols, a)
    requires SomeContributor(tbl, m, measure, cols, a)
    requires ContributorsWithin(tbl, m, measure, cols, a, lo, hi)
    ensures PmiOf(tbl, m, measure, cols)[a].Fin?
    ensures lo <= PmiOf(tbl, m, measure, cols)[a].v <= hi
  {
    var c := WeightColumn(tbl, m, measure, cols, a);
    var x := KeptMeasure(tbl, measure);
    KeptWeights(tbl, m, measure, cols, a, lo, hi);
    PositiveNorm(tbl, m, measure, cols, a);
    WeightedMeasure(c, x, lo, hi);
    assert PmiOf(tbl, m, measure, cols)[a] == Div(NumDot(c, x), Fin(SkipSum(c)));
  }

  lemma {:induction false} KeptWeights(tbl: Table, m: Matrix, measure: Column, cols: nat, a: nat, lo: real, hi: real)
    requires Fits(tbl, m, measure, cols) && a < cols
    requires NonNegCells(tbl.cells, cols) && KeptTotalsPositive(tbl, measure, cols)
    requires KeptBits(tbl, m, measure, cols, a)
    requires ContributorsWithin(tbl, m, measure, cols, a, lo, hi)
    ensures var c := WeightColumn(tbl, m, measure, cols, a);
            AllNonNeg(c) && WeightedWithin(Vals(KeptMeasure(tbl, measure)), Vals(c), lo, hi)
  {
    var keep := KeptLabels(tbl, measure);
    var c := WeightColumn(tbl, m, measure, cols, a);
    var x := KeptMeasure(tbl, measure);
    forall k | 0 <= k < |keep|
      ensures c[k].Fin? && c[k].v >= 0.0
      ensures c[k].v != 0.0 ==> lo <= x[k].v <= hi
    {
      WeightAt(tbl, m, measure, cols, a, k);
      var l := IndexOf(tbl.locations, keep[k]);
      assert IsBit(m[l][a]) && SkipSum(tbl.cells[l]) > 0.0;
      ShareWeight(m[l][a], OrZero(tbl.cells[l][a]), SkipSum(tbl.cells[l]));
      if c[k].v != 0.0 {
        assert Contributes(tbl, m, cols, l, a);
      }
    }
  }

  lemma {:induction false} PositiveNorm(tbl: Table, m: Matrix, measure: Column, cols: nat, a: nat)
    requires Fits(tbl, m, measure, cols) && a < cols
    requires NonNegCells(tbl.cells, cols) && KeptTotalsPositive(tbl, measure, cols)
    requires SomeContributor(tbl, m, measure, cols, a)
    requires AllNonNeg(WeightColumn(tbl, m, measure, cols, a))
    ensures Sum(Vals(WeightColumn(tbl, m, measure, cols, a))) > 0.0
  {
    var vc := Vals(WeightColumn(tbl, m, measure, cols, a));
    var l0 :| 0 <= l0 < |tbl.cells| && KeptRow(tbl, measure, l0) && Contributes(tbl, m, cols, l0, a);
    assert OrZero(tbl.cells[l0][a]) >= 0.0 && SkipSum(tbl.cells[l0]) > 0.0;
    var k0 := ContributorWeight(tbl, m, measure, cols, a, l0);
    assert forall i :: 0 <= i < |vc| ==> vc[i] >= 0.0;
    EntryAtMostSum(vc, k0);
  }

  /** A contributing kept location has a positive weight at its kept position. */
  lemma {:induction false} ContributorWeight(tbl: Table, m: Matrix, measure: Column, cols: nat, a: nat, l0: nat) returns (k0: nat)
    requires Fits(tbl, m, measure, cols) && a < cols && l0 < |tbl.cells|
    requires KeptRow(tbl, measure, l0) && Contributes(tbl, m, cols, l0, a)
    requires OrZero(tbl.cells[l0][a]) >= 0.0 && SkipSum(tbl.cells[l0]) > 0.0
    ensures k0 < |KeptLabels(tbl, measure)|
    ensures WeightColumn(tbl, m, measure, cols, a)[k0].Fin?
    ensures WeightColumn(tbl, m, measure, cols, a)[k0].v > 0.0
  {
    k0 := IndexOf(KeptLabels(tbl, measure), tbl.locations[l0]);
    IndexOfDistinct(tbl.locations, l0);
    WeightAt(tbl, m, measure, cols, a, k0);
    ShareWeight(m[l0][a], OrZero(tbl.cells[l0][a]), SkipSum(tbl.cells[l0]));
  }

  /** A constant measure c over the kept locations gives index c wherever
      some kept location contributes. */
  lemma {:induction false} ConstantMeasure(tbl: Table, m: Matrix, measure: Column, cols: nat, a: nat, c: real)
    requires Fits(tbl, m, measure, cols) && a < cols
    requires NonNegCells(tbl.cells, cols) && KeptTotalsPositive(tbl, measure, cols)
    requires KeptBits(tbl, m, measure, cols, a)
    requires SomeContributor(tbl, m, measure, cols, a)
    requires forall l :: 0 <= l < |tbl.cells| && KeptRow(tbl, measure, l) ==>
               MeasureAt(measure, tbl.locations[l]) == c
    ensures PmiOf(tbl, m, measure, cols)[a] == Fin(c)
  {
    assert ContributorsWithin(tbl, m, measure, cols, a, c, c);
    PmiBetween(tbl, m, measure, cols, a, c, c);
  }

  /** `normp[a] = 0` makes the index undefined: so it is whenever no kept
      location both has an advantage in `a` and exports it (M being 0, 1 or
      undefined). */
  lemma {:induction false} NoContributorUndefined(tbl: Table, m: Matrix, measure: Column, cols: nat, a: nat)
    requires Fits(tbl, m, measure, cols) && a < cols
    requires forall l :: 0 <= l < |tbl.cells| && KeptRow(tbl, measure, l) ==>
               (IsBit(m[l][a]) || m[l][a].NaN?) && !Contributes(tbl, m, cols, l, a)
    ensures SkipSum(WeightColumn(tbl, m, measure, cols, a)) == 0.0
    ensures PmiOf(tbl, m, measure, cols)[a].NaN?
  {
    var keep := KeptLabels(tbl, measure);
    var c := WeightColumn(tbl, m, measure, cols, a);
    forall k | 0 <= k < |keep| ensures OrZero(c[k]) == 0.0 {
      WeightAt(tbl, m, measure, cols, a, k);
      var l := IndexOf(tbl.locations, keep[k]);
      assert !Contributes(tbl, m, cols, l, a);
      NoShare(m[l][a], OrZero(tbl.cells[l][a]), SkipSum(tbl.cells[l]));
    }
    SkipSumOfZeros(c);
    assert PmiOf(tbl, m, measure, cols)[a] == Div(NumDot(c, KeptMeasure(tbl, measure)), Fin(SkipSum(c)));
  }

  /** A kept location with zero exports has undefined shares, and the
      NumPy dot product carries them into every activity's index. */
  lemma {:induction false} ZeroTotalUndefined(tbl: Table, m: Matrix, measure: Column, cols: nat, l: nat, a: nat)
    requires Fits(tbl, m, measure, cols) && l < |tbl.cells| && a < cols
    requires KeptRow(tbl, measure, l) && SkipSum(tbl.cells[l]) == 0.0
    ensures PmiOf(tbl, m, measure, cols)[a].NaN?
  {
    var keep := KeptLabels(tbl, measure);
    var c := WeightColumn(tbl, m, measure, cols, a);
    var x := KeptMeasure(tbl, measure);
    var k := IndexOf(keep, tbl.locations[l]);
    IndexOfDistinct(tbl.locations, l);
    WeightAt(tbl, m, measure, cols, a, k);
    assert c[k].NaN?;
    NumDotDefined(c, x);
    assert PmiOf(tbl, m, measure, cols)[a] == Div(NumDot(c, x), Fin(SkipSum(c)));
  }

  /** An undefined advantage cell at a kept location makes that location's
      weight undefined, and the NumPy dot product carries it into the
      activity's index. */
  lemma {:induction false} MissingAdvantageUndefined(tbl: Table, m: Matrix, measure: Column, cols: nat, l: nat, a: nat)
    requires Fits(tbl, m, measure, cols) && l < |tbl.cells| && a < cols
    requires KeptRow(tbl, measure, l) && m[l][a].NaN?
    ensures PmiOf(tbl, m, measure, cols)[a].NaN?
  {
    var keep := KeptLabels(tbl, measure);
    var c := WeightColumn(tbl, m, measure, cols, a);
    var x := KeptMeasure(tbl, measure);
    var k := IndexOf(keep, tbl.locations[l]);
    IndexOfDistinct(tbl.locations, l);
    WeightAt(tbl, m, measure, cols, a, k);
    assert c[k].NaN?;
    NumDotDefined(c, x);
    assert PmiOf(tbl, m, measure, cols)[a] == Div(NumDot(c, x), Fin(SkipSum(c)));
  }

  /** Missing measures are read as 0: filling them first changes nothing. */
  lemma {:induction false} MissingMeasureAsZero(tbl: Table, m: Matrix, measure: Column, cols: nat)
    requires Fits(tbl, m, measure, cols)
    ensures PmiOf(tbl, m, measure.(values := FillValues(measure.values)), cols) == PmiOf(tbl, m, measure, cols)
  {
    var filled := measure.(values := FillValues(measure.values));
    assert FillValues(filled.values) == FillValues(measure.values);
    assert KeptMeasure(tbl, filled) == KeptMeasure(tbl, measure);
  }

  /** Missing exports are read as 0: filling them first changes nothing. */
  lemma {:induction false} MissingExportAsZero(tbl: Table, m: Matrix, measure: Column, cols: nat)
    requires Fits(tbl, m, measure, cols)
    ensures PmiOf(tbl.(cells := FillMissing(tbl.cells, cols)), m, measure, cols) == PmiOf(tbl, m, measure, cols)
  {
    var filled := tbl.(cells := FillMissing(tbl.cells, cols));
    var f, ff := FillMissing(tbl.cells, cols), FillMissing(filled.cells, cols);
    forall i | 0 <= i < |f| ensures ff[i] == f[i] {
      assert forall j :: 0 <= j < cols ==> ff[i][j] == f[i][j];
    }
    assert ff == f;
    assert KeptTable(filled, measure, cols) == KeptTable(tbl, measure, cols);
  }

  // ------------------------------------------------------------ result

  /** A one-column result frame; its header is renamed in place. */
  class IndexFrame {
    var column: string
    var values: seq<Num>

    constructor (column: string, values: seq<Num>)
      ensures this.column == column && this.values == values
    {
      this.column := column;
      this.values := values;
    }

    /** `rename(columns={columns[0]: name}, inplace=True)`. */
    method Rename(name: string)
      modifies this
      ensures column == name && values == old(values)
    {
      column := name;
    }
  }
}
