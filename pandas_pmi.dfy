/** `pmi`, `pgi` and `peii` of the pandas engine.

    The advantage matrix is `rcas.ge(cutoff).astype(int)`, so an undefined
    RCA counts as no advantage. `pgi` and `peii` call `pmi` with the same
    cutoff and rename the single result column in place. */
module PandasPmi {
  import opened Numeric
  import opened Algebra
  import opened Advantage
  import opened PivotRca
  import opened MeasureIndex

  /** The default result headers of `pgi` and `peii`. */
  const PgiName := "pgi"
  const PeiiName := "peii"

  /** `pmi(tbl, rcas, measure, cutoff=cutoff)`; `rcas` has the rows of `tbl`. */
  function Pmi(tbl: Table, rcas: Matrix, measure: Column, cols: nat, cutoff: real): (p: seq<Num>)
    requires Fits(tbl, rcas, measure, cols)
    ensures |p| == cols
  {
    PmiOf(tbl, GeBinarize(rcas, cols, cutoff), measure, cols)
  }

  /** With non-negative exports and positive totals at every kept location,
      the index of an activity some kept location exports with an advantage
      is defined and lies between the lowest and highest measure of those
      locations. */
  lemma {:induction false} PmiBounds(tbl: Table, rcas: Matrix, measure: Column, cols: nat, cutoff: real, a: nat, lo: real, hi: real)
    requires Fits(tbl, rcas, measure, cols) && a < cols
    requires NonNegCells(tbl.cells, cols) && KeptTotalsPositive(tbl, measure, cols)
    requires SomeContributor(tbl, GeBinarize(rcas, cols, cutoff), measure, cols, a)
    requires ContributorsWithin(tbl, GeBinarize(rcas, cols, cutoff), measure, cols, a, lo, hi)
    ensures Pmi(tbl, rcas, measure, cols, cutoff)[a].Fin?
    ensures lo <= Pmi(tbl, rcas, measure, cols, cutoff)[a].v <= hi
  {
    var m := GeBinarize(rcas, cols, cutoff);
    assert KeptBits(tbl, m, measure, cols, a);
    PmiBetween(tbl, m, measure, cols, a, lo, hi);
  }

  /** A measure that is the same constant at every kept location yields that
      constant for every activity some kept location exports with an
      advantage. */
  lemma {:induction false} ConstantPmi(tbl: Table, rcas: Matrix, measure: Column, cols: nat, cutoff: real, a: nat, c: real)
    requires Fits(tbl, rcas, measure, cols) && a < cols
    requires NonNegCells(tbl.cells, cols) && KeptTotalsPositive(tbl, measure, cols)
    requires SomeContributor(tbl, GeBinarize(rcas, cols, cutoff), measure, cols, a)
    requires forall l :: 0 <= l < |tbl.cells| && KeptRow(tbl, measure, l) ==>
               MeasureAt(measure, tbl.locations[l]) == c
    ensures Pmi(tbl, rcas, measure, cols, cutoff)[a] == Fin(c)
  {
    var m := GeBinarize(rcas, cols, cutoff);
    assert KeptBits(tbl, m, measure, cols, a);
    ConstantMeasure(tbl, m, measure, cols, a, c);
  }

  /** An activity in which no kept location reaches the cutoff has
      `normp = 0` and an undefined index. */
  lemma {:induction false} NoAdvantageUndefined(tbl: Table, rcas: Matrix, measure: Column, cols: nat, cutoff: real, a: nat)
    requires Fits(tbl, rcas, measure, cols) && a < cols
    requires forall l :: 0 <= l < |tbl.cells| && KeptRow(tbl, measure, l) ==> !AtLeast(rcas[l][a], cutoff)
    ensures Pmi(tbl, rcas, measure, cols, cutoff)[a].NaN?
  {
    var m := GeBinarize(rcas, cols, cutoff);
    assert forall l :: 0 <= l < |tbl.cells| && KeptRow(tbl, measure, l) ==>
             IsBit(m[l][a]) && !Contributes(tbl, m, cols, l, a);
    NoContributorUndefined(tbl, m, measure, cols, a);
  }

  /** `pgi` and `peii`: the index of `measure`, with its column renamed. */
  method RenamedPmi(tbl: Table, rcas: Matrix, measure: Column, cols: nat, cutoff: real, name: string)
    returns (f: IndexFrame)
    requires Fits(tbl, rcas, measure, cols)
    ensures fresh(f)
    ensures f.column == name && f.values == Pmi(tbl, rcas, measure, cols, cutoff)
  {
    f := new IndexFrame(measure.name, Pmi(tbl, rcas, measure, cols, cutoff));
    f.Rename(name);
  }
}
