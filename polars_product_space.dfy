/** `calculate_proximity` and `calculate_relatedness` of the Polars engine.

    A Polars frame is a sequence of named columns of one common height with
    distinct names. Both functions convert the numeric columns to a NumPy
    array row by row and apply the NumPy formulas of the package root.
    `calculate_relatedness` takes the location column out first, builds the
    result frame with the headers `rca.columns[1:]` and then puts the
    location column back under its own name. */
module PolarsProductSpace {
  import opened Numeric
  import opened Algebra
  import opened Space
  import NumpyProductSpace

  /** The cells of one column: location labels or numeric values. */
  datatype Data = Labels(labels: seq<int>) | Values(values: seq<Num>)

  datatype Named = Named(name: string, data: Data)

  function Names(f: seq<Named>): (n: seq<string>)
    ensures |n| == |f|
    ensures forall k :: 0 <= k < |f| ==> n[k] == f[k].name
  {
    seq(|f|, k requires 0 <= k < |f| => f[k].name)
  }

  function Height(d: Data): nat {
    match d
    case Labels(labels) => |labels|
    case Values(values) => |values|
  }

  /** What Polars guarantees of every frame: distinct names, one height. */
  predicate IsFrame(f: seq<Named>, height: nat) {
    && (forall i, j :: 0 <= i < j < |f| ==> f[i].name != f[j].name)
    && (forall k :: 0 <= k < |f| ==> Height(f[k].data) == height)
  }

  /** Every column is numeric. */
  predicate AllValues(f: seq<Named>, height: nat) {
    forall k :: 0 <= k < |f| ==> f[k].data.Values? && |f[k].data.values| == height
  }

  /** Every column other than `location` is numeric. */
  predicate ValuesBesides(f: seq<Named>, height: nat, location: string) {
    forall k :: 0 <= k < |f| && f[k].name != location ==> f[k].data.Values? && |f[k].data.values| == height
  }

  /** `frame.to_numpy()` of a numeric frame: row `l` holds the `l`-th cell
      of every column, in column order. */
  function ToMatrix(f: seq<Named>, height: nat): (m: Matrix)
    requires AllValues(f, height)
    ensures |m| == height && IsMatrix(m, |f|)
    ensures forall l, j :: 0 <= l < height && 0 <= j < |f| ==> m[l][j] == f[j].data.values[l]
  {
    seq(height, l requires 0 <= l < height => seq(|f|, j requires 0 <= j < |f| => f[j].data.values[l]))
  }

  // ------------------------------------------------------------ proximity

  /** `calculate_proximity(rca, procedure=...)` on a collected frame: the
      NumPy proximity of all of its columns, with the same `kp0_trans.dot(kp0)`
      that raises for "sqrt" on more than one activity. */
  method CalculateProximity(rca: seq<Named>, height: nat, procedure: string, root: real -> real) returns (r: Result<Matrix>)
    requires AllValues(rca, height)
    ensures r == NumpyProductSpace.ProximityAsWritten(ToMatrix(rca, height), |rca|, procedure, root)
    ensures r.Err? <==> ProcedureOf(procedure) == GeometricMean && |rca| != 1
    ensures r.Ok? ==> |r.value| == |rca| && Symmetric(r.value)
    ensures r.Ok? ==> forall i :: 0 <= i < |rca| ==> r.value[i][i] == Fin(0.0)
  {
    var rcas := ToMatrix(rca, height);
    r := NumpyProductSpace.Proximity(rcas, |rca|, procedure, root);
  }

  /** "sqrt" on a collected frame of two or more activities raises. */
  lemma SqrtShapeFails(rca: seq<Named>, height: nat, root: real -> real)
    requires AllValues(rca, height) && |rca| >= 2
    ensures NumpyProductSpace.ProximityAsWritten(ToMatrix(rca, height), |rca|, "sqrt", root).Err?
  {
    NumpyProductSpace.SqrtShapeFails(ToMatrix(rca, height), |rca|, "sqrt", root);
  }

  /** On a 0/1 frame every proximity returned obeys the proximity laws, and
      "max" always returns one. */
  lemma BinaryProximity(rca: seq<Named>, height: nat, procedure: string, root: real -> real)
    requires AllValues(rca, height) && IsBinary(ToMatrix(rca, height), |rca|)
    ensures procedure != "sqrt" ==> NumpyProductSpace.ProximityAsWritten(ToMatrix(rca, height), |rca|, procedure, root).Ok?
    ensures var r := NumpyProductSpace.ProximityAsWritten(ToMatrix(rca, height), |rca|, procedure, root);
            r.Ok? ==> ProximityLaws(r.value, Prevalence(ToMatrix(rca, height), |rca|), ProcedureOf(procedure), root)
  {
    NumpyProductSpace.BinaryProximityAgrees(ToMatrix(rca, height), |rca|, procedure, root);
  }

  // ---------------------------------------------------------- relatedness

  /** The position of the column called `name`. */
  function IndexOfName(f: seq<Named>, name: string): (k: nat)
    requires name in Names(f)
    ensures k < |f| && f[k].name == name
    ensures forall j :: 0 <= j < k ==> f[j].name != name
  {
    if f[0].name == name then 0
    else
      assert name in Names(f[1..]) by {
        var k :| 0 <= k < |f| && Names(f)[k] == name;
        assert Names(f[1..])[k - 1] == name;
      }
      1 + IndexOfName(f[1..], name)
  }

  /** `frame.drop(name)` for the column at position `k`. */
  function Without(f: seq<Named>, k: nat): (g: seq<Named>)
    requires k < |f|
    ensures |g| == |f| - 1
  {
    f[..k] + f[k + 1..]
  }

  /** `pl.DataFrame(d, schema=headers)` for a row-major array: column `j`
      is column `j` of `d`, named `headers[j]`. */
  function FromArray(d: Matrix, cols: nat, headers: seq<string>): (f: seq<Named>)
    requires IsMatrix(d, cols) && |headers| == cols
    ensures Names(f) == headers
  {
    seq(cols, j requires 0 <= j < cols => Named(headers[j], Values(Col(d, cols, j))))
  }

  /** `frame.with_columns(series)`: a column with the series' name is
      replaced where it stands; otherwise the series is appended. */
  function WithColumn(f: seq<Named>, s: Named): (g: seq<Named>)
  {
    if s.name in Names(f) then f[IndexOfName(f, s.name) := s] else f + [s]
  }

  /** The arguments `calculate_relatedness` accepts: a frame whose columns
      besides `location` are numeric, and a square proximity matrix over
      those columns. */
  predicate Accepts(rca: seq<Named>, height: nat, phi: Matrix, location: string) {
    && IsFrame(rca, height) && ValuesBesides(rca, height, location)
    && |phi| + 1 == |rca| && IsMatrix(phi, |phi|)
  }

  /** The activity columns once the location column is taken out, with
      their relatedness values. */
  function Densities(rca: seq<Named>, height: nat, phi: Matrix, location: string): (d: Matrix)
    requires Accepts(rca, height, phi, location) && location in Names(rca)
    ensures |d| == height && IsMatrix(d, |phi|)
  {
    var k := IndexOfName(rca, location);
    var rest := Without(rca, k);
    RestValues(rca, height, location, k);
    NumpyProductSpace.Relatedness(ToMatrix(rest, height), |phi|, phi)
  }

  /** Without the location column every column is numeric. */
  lemma RestValues(rca: seq<Named>, height: nat, location: string, k: nat)
    requires IsFrame(rca, height) && ValuesBesides(rca, height, location)
    requires k < |rca| && rca[k].name == location
    ensures AllValues(Without(rca, k), height)
  {
    var rest := Without(rca, k);
    forall j | 0 <= j < |rest| ensures rest[j].data.Values? && |rest[j].data.values| == height {
      var i := if j < k then j else j + 1;
      assert rest[j] == rca[i];
    }
  }

  /** `calculate_relatedness(rca, proximities, location=location)` as
      written; a missing location column raises. */
  function CalculateRelatedness(rca: seq<Named>, height: nat, phi: Matrix, location: string): (r: Result<seq<Named>>)
    requires Accepts(rca, height, phi, location)
  {
    if location !in Names(rca) then Err(ColumnNotFoundError(location))
    else
      var k := IndexOfName(rca, location);
      var headers := Names(rca)[1..];
      Ok(WithColumn(FromArray(Densities(rca, height, phi, location), |phi|, headers), Named(location, rca[k].data)))
  }

  /** The evidently intended result: each activity column keeps its own
      name, and the location column is appended after them. */
  function CorrectedRelatedness(rca: seq<Named>, height: nat, phi: Matrix, location: string): (r: Result<seq<Named>>)
    requires Accepts(rca, height, phi, location)
  {
    if location !in Names(rca) then Err(ColumnNotFoundError(location))
    else
      var k := IndexOfName(rca, location);
      var headers := Names(Without(rca, k));
      Ok(FromArray(Densities(rca, height, phi, location), |phi|, headers) + [Named(location, rca[k].data)])
  }

  /** The corrected frame: an error exactly when the location column is
      missing; otherwise the activity columns in their original order, each
      under its own name and holding its relatedness, and then the location
      column unchanged. */
  lemma {:induction false} CorrectedLayout(rca: seq<Named>, height: nat, phi: Matrix, location: string)
    requires Accepts(rca, height, phi, location)
    ensures CorrectedRelatedness(rca, height, phi, location).Err? <==> location !in Names(rca)
    ensures location in Names(rca) ==>
              var k := IndexOfName(rca, location);
              var out := CorrectedRelatedness(rca, height, phi, location).value;
              && Names(out) == Names(Without(rca, k)) + [location]
              && out[|phi|] == rca[k]
    ensures location in Names(rca) ==>
              var k := IndexOfName(rca, location);
              var rest := Without(rca, k);
              var out := CorrectedRelatedness(rca, height, phi, location).value;
              forall j, l :: 0 <= j < |phi| && 0 <= l < height ==>
                AllValues(rest, height) &&
                out[j].data == Values(Col(Densities(rca, height, phi, location), |phi|, j)) &&
                Col(Densities(rca, height, phi, location), |phi|, j)[l] ==
                  Div(NumDot(ToMatrix(rest, height)[l], Col(phi, |phi|, j)), NumSum(Col(phi, |phi|, j)))
  {
    if location in Names(rca) {
      var k := IndexOfName(rca, location);
      var rest := Without(rca, k);
      RestValues(rca, height, location, k);
      var d := Densities(rca, height, phi, location);
      var out := CorrectedRelatedness(rca, height, phi, location).value;
      var front := FromArray(d, |phi|, Names(rest));
      assert out == front + [Named(location, rca[k].data)];
      assert Names(out) == Names(front) + [location];
      forall j, l | 0 <= j < |phi| && 0 <= l < height
        ensures Col(d, |phi|, j)[l] ==
                Div(NumDot(ToMatrix(rest, height)[l], Col(phi, |phi|, j)), NumSum(Col(phi, |phi|, j)))
      {
        NumpyProductSpace.RelatednessCell(ToMatrix(rest, height), |phi|, phi, l, j);
      }
    }
  }

  /** When the location column comes first, as the pivot the package
      builds puts it, the function as written gives the corrected frame. */
  lemma {:induction false} AgreesWhenLocationFirst(rca: seq<Named>, height: nat, phi: Matrix, location: string)
    requires Accepts(rca, height, phi, location) && |rca| > 0 && rca[0].name == location
    ensures CalculateRelatedness(rca, height, phi, location) == CorrectedRelatedness(rca, height, phi, location)
  {
    assert Names(rca)[0] == location;
    var headers := Names(rca)[1..];
    assert Without(rca, 0) == rca[1..];
    assert headers == Names(Without(rca, 0));
    forall j | 0 <= j < |headers| ensures headers[j] != location {
      assert headers[j] == rca[j + 1].name;
    }
  }

  /** When the location column is not first, the result carries the names
      `rca.columns[1:]`: the first activity's name is lost, the location
      labels overwrite one density column, and the frame has one column
      fewer than the corrected one. */
  lemma {:induction false} LocationNotFirst(rca: seq<Named>, height: nat, phi: Matrix, location: string)
    requires Accepts(rca, height, phi, location) && location in Names(rca)
    requires IndexOfName(rca, location) > 0
    ensures CalculateRelatedness(rca, height, phi, location).Ok?
    ensures Names(CalculateRelatedness(rca, height, phi, location).value) == Names(rca)[1..]
    ensures rca[0].name !in Names(CalculateRelatedness(rca, height, phi, location).value)
    ensures |CalculateRelatedness(rca, height, phi, location).value| + 1 ==
            |CorrectedRelatedness(rca, height, phi, location).value|
  {
    var k := IndexOfName(rca, location);
    var headers := Names(rca)[1..];
    var front := FromArray(Densities(rca, height, phi, location), |phi|, headers);
    var s := Named(location, rca[k].data);
    assert headers[k - 1] == location;
    assert location in Names(front);
    var i := IndexOfName(front, location);
    var out := front[i := s];
    assert Names(out) == Names(front) by {
      forall j | 0 <= j < |out| ensures Names(out)[j] == Names(front)[j] {
      }
    }
    forall j | 0 <= j < |headers| ensures headers[j] != rca[0].name {
      assert headers[j] == rca[j + 1].name;
    }
    CorrectedLayout(rca, height, phi, location);
  }
}
