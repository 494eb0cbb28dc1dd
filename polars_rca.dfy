/** Revealed comparative advantage of a tidy table (one record per
    location and activity), as the Polars pipeline computes it.

    Null and NaN measures become 0; the measure is summed per activity,
    per location and over the whole table; each record gets
    `(value / location total) / (activity total / grand total)` in a new
    column, and the two helper sums are dropped again. With `binary` the
    new column is thresholded at `cutoff`. Polars orders NaN above every
    number, so an undefined RCA compares as at least any cutoff. */
module PolarsRca {
  import opened Numeric
  import opened Algebra
  import opened PivotRca

  datatype Record = Record(location: string, activity: string, value: Num)

  /** An input record with its `<measure> RCA` column added. */
  datatype RcaRecord = RcaRecord(location: string, activity: string, value: Num, rca: Num)

  /** The records a `group_by` key (or the whole-table `pl.sum`) covers. */
  datatype Group = ByLocation(location: string) | ByActivity(activity: string) | Everything

  predicate InGroup(r: Record, g: Group) {
    match g
    case ByLocation(l) => r.location == l
    case ByActivity(a) => r.activity == a
    case Everything => true
  }

  /** The zero-filled measure summed over the records of a group. */
  function Total(df: seq<Record>, g: Group): real {
    if |df| == 0 then 0.0
    else (if InGroup(df[0], g) then OrZero(df[0].value) else 0.0) + Total(df[1..], g)
  }

  /** The RCA of record `i` before any thresholding. */
  function RowRca(df: seq<Record>, i: nat): Num
    requires i < |df|
  {
    RcaCell(FillZero(df[i].value), Total(df, ByLocation(df[i].location)),
            Total(df, ByActivity(df[i].activity)), Total(df, Everything))
  }

  /** `when(col >= cutoff).then(1.0).otherwise(0.0)`; NaN ranks above every number. */
  function Threshold(x: Num, cutoff: real): (b: Num)
    ensures IsBit(b)
    ensures b == Fin(1.0) <==> x.NaN? || x.v >= cutoff
  {
    if x.NaN? || x.v >= cutoff then Fin(1.0) else Fin(0.0)
  }

  function Rca(df: seq<Record>, binary: bool, cutoff: real): (out: seq<RcaRecord>)
    ensures |out| == |df|
    ensures forall i :: 0 <= i < |df| ==>
      && out[i].location == df[i].location
      && out[i].activity == df[i].activity
      && out[i].value == FillZero(df[i].value)
  {
    seq(|df|, i requires 0 <= i < |df| =>
      var raw := RowRca(df, i);
      RcaRecord(df[i].location, df[i].activity, FillZero(df[i].value),
                if binary then Threshold(raw, cutoff) else raw))
  }

  predicate NonNegValues(df: seq<Record>) {
    forall i :: 0 <= i < |df| && df[i].value.Fin? ==> df[i].value.v >= 0.0
  }

  function Filled(df: seq<Record>): (f: seq<Record>)
    ensures |f| == |df|
  {
    seq(|df|, i requires 0 <= i < |df| => df[i].(value := FillZero(df[i].value)))
  }

  function Scaled(df: seq<Record>, k: real): (f: seq<Record>)
    ensures |f| == |df|
  {
    seq(|df|, i requires 0 <= i < |df| => df[i].(value := Mul(df[i].value, Fin(k))))
  }

  // --------------------------------------------------------------- lemmas

  /** Missing measures are replaced by 0 before any aggregation: the table
      and its zero-filled copy give the same result. */
  lemma MissingAsZero(df: seq<Record>, binary: bool, cutoff: real)
    ensures Rca(Filled(df), binary, cutoff) == Rca(df, binary, cutoff)
  {
    var f := Filled(df);
    forall g ensures Total(f, g) == Total(df, g) {
      FilledTotal(df, g);
    }
    assert forall i :: 0 <= i < |df| ==> FillZero(f[i].value) == FillZero(df[i].value);
  }

  lemma {:induction false} FilledTotal(df: seq<Record>, g: Group)
    ensures Total(Filled(df), g) == Total(df, g)
  {
    if |df| > 0 {
      assert Filled(df)[1..] == Filled(df[1..]);
      FilledTotal(df[1..], g);
    }
  }

  /** Without `binary` the new column is the RCA itself; with it, every
      value is exactly 1.0 or 0.0, and 1.0 exactly where the RCA is at
      least the cutoff (or undefined). */
  lemma Binarized(df: seq<Record>, cutoff: real, i: nat)
    requires i < |df|
    ensures Rca(df, false, cutoff)[i].rca == RowRca(df, i)
    ensures IsBit(Rca(df, true, cutoff)[i].rca)
    ensures Rca(df, true, cutoff)[i].rca == Fin(1.0) <==>
      RowRca(df, i).NaN? || RowRca(df, i).v >= cutoff
  {
  }

  /** On non-negative measures a record's RCA is defined exactly when its
      location and its activity have positive totals, and then it is
      `value·grand / (location total·activity total)`. */
  lemma RowValue(df: seq<Record>, i: nat)
    requires i < |df| && NonNegValues(df)
    ensures var r := RowRca(df, i);
            var lt, at := Total(df, ByLocation(df[i].location)), Total(df, ByActivity(df[i].activity));
            && (r.Fin? <==> lt > 0.0 && at > 0.0)
            && (r.Fin? ==> r == Div(Mul(FillZero(df[i].value), Fin(Total(df, Everything))), Mul(Fin(lt), Fin(at))))
  {
    var lt, at := Total(df, ByLocation(df[i].location)), Total(df, ByActivity(df[i].activity));
    TotalNonNeg(df, ByLocation(df[i].location));
    TotalNonNeg(df, ByActivity(df[i].activity));
    GroupAtMostEverything(df, ByActivity(df[i].activity));
    CellDefined(OrZero(df[i].value), lt, at, Total(df, Everything));
  }

  lemma {:induction false} TotalNonNeg(df: seq<Record>, g: Group)
    requires NonNegValues(df)
    ensures Total(df, g) >= 0.0
  {
    if |df| > 0 {
      TotalNonNeg(df[1..], g);
    }
  }

  lemma {:induction false} GroupAtMostEverything(df: seq<Record>, g: Group)
    requires NonNegValues(df)
    ensures Total(df, g) <= Total(df, Everything)
  {
    if |df| > 0 {
      GroupAtMostEverything(df[1..], g);
    }
  }

  /** Scaling every measure by the same non-zero constant leaves every RCA
      value unchanged. */
  lemma ScaleInvariant(df: seq<Record>, k: real, binary: bool, cutoff: real, i: nat)
    requires k != 0.0 && i < |df|
    ensures Rca(Scaled(df, k), binary, cutoff)[i].rca == Rca(df, binary, cutoff)[i].rca
  {
    var s := Scaled(df, k);
    ScaledTotal(df, k, ByLocation(df[i].location));
    ScaledTotal(df, k, ByActivity(df[i].activity));
    ScaledTotal(df, k, Everything);
    CellScaled(FillZero(df[i].value), Total(df, ByLocation(df[i].location)),
      Total(df, ByActivity(df[i].activity)), Total(df, Everything), k,
      FillZero(s[i].value), Total(s, ByLocation(df[i].location)),
      Total(s, ByActivity(df[i].activity)), Total(s, Everything));
  }

  lemma {:induction false} ScaledTotal(df: seq<Record>, k: real, g: Group)
    ensures Fin(Total(Scaled(df, k), g)) == Mul(Fin(k), Fin(Total(df, g)))
  {
    if |df| > 0 {
      assert Scaled(df, k)[1..] == Scaled(df[1..], k);
      ScaledTotal(df[1..], k, g);
    }
  }
}
