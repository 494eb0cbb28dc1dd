/** The method of reflections shared by the three `complexity` functions:
    the all-missing drop step, the kc/kp loop with fixed normalisers and a
    simultaneous update, and the final standardization.

    kc0 (diversity) is the row sum of the advantage matrix M and kp0
    (ubiquity) its column sum, both with missing cells skipped. Each step
    divides a matrix product by them: `kp = Mᵀ·kc / kp0`, `kc = M·kp / kc0`.
    The products propagate undefined cells. */
module Reflections {
  import opened Numeric
  import opened Algebra
  import opened Stats
  import opened Space

  // ------------------------------------------------------------ drop step

  predicate AllMissing(s: seq<Num>) {
    forall i :: 0 <= i < |s| ==> s[i].NaN?
  }

  /** `dropna(how="all")`: the rows that are not entirely missing, in order. */
  function KeepRows(m: Matrix): (k: Matrix)
    ensures |k| <= |m|
    ensures forall r :: r in k <==> r in m && !AllMissing(r)
  {
    if |m| == 0 then []
    else
      var rest := KeepRows(m[1..]);
      assert forall r :: r in m <==> r == m[0] || r in m[1..];
      (if AllMissing(m[0]) then [] else [m[0]]) + rest
  }

  /** The indices, from `j` on, of the columns that are not entirely missing. */
  function KeptCols(m: Matrix, cols: nat, j: nat): (ks: seq<nat>)
    requires IsMatrix(m, cols) && j <= cols
    ensures |ks| <= cols - j
    ensures forall t :: 0 <= t < |ks| ==> j <= ks[t] < cols
    ensures forall t, u :: 0 <= t < u < |ks| ==> ks[t] < ks[u]
    ensures forall c :: j <= c < cols ==> (c in ks <==> !AllMissing(Col(m, cols, c)))
    decreases cols - j
  {
    if j == cols then []
    else (if AllMissing(Col(m, cols, j)) then [] else [j]) + KeptCols(m, cols, j + 1)
  }

  function SelectCols(m: Matrix, cols: nat, ks: seq<nat>): (s: Matrix)
    requires IsMatrix(m, cols) && forall t :: 0 <= t < |ks| ==> ks[t] < cols
    ensures |s| == |m| && IsMatrix(s, |ks|)
  {
    seq(|m|, i requires 0 <= i < |m| => seq(|ks|, t requires 0 <= t < |ks| => m[i][ks[t]]))
  }

  datatype Frame = Frame(cells: Matrix, cols: nat)

  /** `dropna(how="all")` then `dropna(how="all", axis=1)`; the flag is the
      warning condition `rcas_clone.shape != rcas.shape`. */
  function DropAllMissing(m: Matrix, cols: nat): (r: (Frame, bool))
    requires IsMatrix(m, cols)
    ensures IsMatrix(r.0.cells, r.0.cols)
    ensures r.1 <==> |r.0.cells| != |m| || r.0.cols != cols
  {
    var rows := KeepRows(m);
    assert IsMatrix(rows, cols) by {
      forall i | 0 <= i < |rows| ensures |rows[i]| == cols {
        assert rows[i] in rows;
      }
    }
    var ks := KeptCols(rows, cols, 0);
    var f := Frame(SelectCols(rows, cols, ks), |ks|);
    (f, |rows| != |m| || |ks| != cols)
  }

  /** After the drop step no row and no column is entirely missing. */
  lemma DropLeavesNoMissingLine(m: Matrix, cols: nat)
    requires IsMatrix(m, cols)
    ensures var f := DropAllMissing(m, cols).0;
            && (forall i :: 0 <= i < |f.cells| ==> !AllMissing(f.cells[i]))
            && (forall t :: 0 <= t < f.cols ==> !AllMissing(Col(f.cells, f.cols, t)))
  {
    var rows := KeepRows(m);
    assert IsMatrix(rows, cols) by {
      forall i | 0 <= i < |rows| ensures |rows[i]| == cols {
        assert rows[i] in rows;
      }
    }
    var ks := KeptCols(rows, cols, 0);
    var f := DropAllMissing(m, cols).0;
    forall i | 0 <= i < |f.cells| ensures !AllMissing(f.cells[i]) {
      assert rows[i] in rows;
      var c :| 0 <= c < cols && rows[i][c].Fin?;
      assert Col(rows, cols, c)[i].Fin?;
      var t :| 0 <= t < |ks| && ks[t] == c;
      assert f.cells[i][t].Fin?;
    }
    forall t | 0 <= t < f.cols ensures !AllMissing(Col(f.cells, f.cols, t)) {
      assert ks[t] in ks;
      var i :| 0 <= i < |rows| && Col(rows, cols, ks[t])[i].Fin?;
      assert Col(f.cells, f.cols, t)[i].Fin?;
    }
  }

  lemma {:induction false} KeepRowsOfComplete(m: Matrix, cols: nat)
    requires NoMissing(m, cols) && cols > 0
    ensures KeepRows(m) == m
  {
    forall i | 0 <= i < |m| ensures !AllMissing(m[i]) {
      assert m[i][0].Fin?;
    }
    KeepRowsAll(m);
  }

  lemma ColPresent(m: Matrix, cols: nat, j: nat)
    requires NoMissing(m, cols) && |m| > 0 && j < cols
    ensures !AllMissing(Col(m, cols, j))
  {
    assert Col(m, cols, j)[0] == m[0][j];
  }

  /** A frame with at least one row and column and no missing cell passes
      the drop step unchanged and without the warning. */
  lemma {:induction false} DropKeepsComplete(m: Matrix, cols: nat)
    requires NoMissing(m, cols) && |m| > 0 && cols > 0
    ensures DropAllMissing(m, cols) == (Frame(m, cols), false)
  {
    KeepRowsOfComplete(m, cols);
    forall c | 0 <= c < cols ensures !AllMissing(Col(m, cols, c)) {
      ColPresent(m, cols, c);
    }
    KeptColsAll(m, cols, 0);
    SelectEveryCol(m, cols, KeptCols(m, cols, 0));
  }

  lemma SelectEveryCol(m: Matrix, cols: nat, ks: seq<nat>)
    requires IsMatrix(m, cols) && |ks| == cols
    requires forall t :: 0 <= t < cols ==> ks[t] == t
    ensures SelectCols(m, cols, ks) == m
  {
    var s := SelectCols(m, cols, ks);
    forall i | 0 <= i < |m| ensures s[i] == m[i] {
      assert forall t :: 0 <= t < cols ==> s[i][t] == m[i][t];
    }
  }

  /** The warning condition holds exactly when the frame has a row or a
      column that is entirely missing. */
  lemma {:induction false} DropWarnsIff(m: Matrix, cols: nat)
    requires IsMatrix(m, cols)
    ensures DropAllMissing(m, cols).1 <==>
            (exists i :: 0 <= i < |m| && AllMissing(m[i])) ||
            (exists c :: 0 <= c < cols && AllMissing(Col(m, cols, c)))
  {
    var rows := KeepRows(m);
    KeepRowsFull(m);
    if forall i :: 0 <= i < |m| ==> !AllMissing(m[i]) {
      KeepRowsAll(m);
      assert rows == m;
      var ks := KeptCols(m, cols, 0);
      assert DropAllMissing(m, cols).1 <==> |ks| != cols;
      KeptColsFull(m, cols, 0);
      if forall c :: 0 <= c < cols ==> !AllMissing(Col(m, cols, c)) {
        KeptColsAll(m, cols, 0);
      }
    }
  }

  lemma {:induction false} KeepRowsAll(m: Matrix)
    requires forall i :: 0 <= i < |m| ==> !AllMissing(m[i])
    ensures KeepRows(m) == m
  {
    if |m| > 0 {
      assert !AllMissing(m[0]);
      KeepRowsAll(m[1..]);
      assert [m[0]] + m[1..] == m;
    }
  }

  /** Keeping every row means no row is entirely missing. */
  lemma {:induction false} KeepRowsFull(m: Matrix)
    ensures |KeepRows(m)| == |m| ==> forall i :: 0 <= i < |m| ==> !AllMissing(m[i])
  {
    if |m| > 0 {
      KeepRowsFull(m[1..]);
      assert forall i :: 1 <= i < |m| ==> m[i] == m[1..][i - 1];
    }
  }

  lemma {:induction false} KeptColsAll(m: Matrix, cols: nat, j: nat)
    requires IsMatrix(m, cols) && j <= cols
    requires forall c :: j <= c < cols ==> !AllMissing(Col(m, cols, c))
    ensures |KeptCols(m, cols, j)| == cols - j
    ensures forall t :: 0 <= t < cols - j ==> KeptCols(m, cols, j)[t] == j + t
    decreases cols - j
  {
    if j < cols {
      KeptColsAll(m, cols, j + 1);
      var ks, rest := KeptCols(m, cols, j), KeptCols(m, cols, j + 1);
      assert ks == [j] + rest;
      forall t | 0 <= t < cols - j ensures ks[t] == j + t {
        if t > 0 {
          assert ks[t] == rest[t - 1];
        }
      }
    }
  }

  /** Keeping every column means no column is entirely missing. */
  lemma {:induction false} KeptColsFull(m: Matrix, cols: nat, j: nat)
    requires IsMatrix(m, cols) && j <= cols
    ensures |KeptCols(m, cols, j)| == cols - j ==> forall c :: j <= c < cols ==> !AllMissing(Col(m, cols, c))
    decreases cols - j
  {
    if j < cols {
      KeptColsFull(m, cols, j + 1);
    }
  }

  // --------------------------------------------------------- reflections

  /** kc0: the number of activities each location holds. */
  function Diversity(m: Matrix, cols: nat): (kc: seq<Num>)
    requires IsMatrix(m, cols)
    ensures |kc| == |m| && AllFin(kc)
  {
    seq(|m|, c requires 0 <= c < |m| => Fin(SkipSum(m[c])))
  }

  /** `M·kp / kc0`. */
  function KcStep(m: Matrix, cols: nat, kp: seq<Num>, kc0: seq<Num>): (kc: seq<Num>)
    requires IsMatrix(m, cols) && |kp| == cols && |kc0| == |m|
    ensures |kc| == |m|
  {
    seq(|m|, c requires 0 <= c < |m| => Div(NumDot(m[c], kp), kc0[c]))
  }

  /** `Mᵀ·kc / kp0`. */
  function KpStep(m: Matrix, cols: nat, kc: seq<Num>, kp0: seq<Num>): (kp: seq<Num>)
    requires IsMatrix(m, cols) && |kc| == |m| && |kp0| == cols
    ensures |kp| == cols
  {
    seq(cols, p requires 0 <= p < cols => Div(NumDot(Col(m, cols, p), kc), kp0[p]))
  }

  datatype Pair = Pair(kc: seq<Num>, kp: seq<Num>)

  /** The reference sequence: `n` simultaneous updates of both vectors. */
  function Iterates(m: Matrix, cols: nat, n: nat): (r: Pair)
    requires IsMatrix(m, cols)
    ensures |r.kc| == |m| && |r.kp| == cols
  {
    if n == 0 then Pair(Diversity(m, cols), Prevalence(m, cols))
    else
      var prev := Iterates(m, cols, n - 1);
      Pair(KcStep(m, cols, prev.kp, Diversity(m, cols)), KpStep(m, cols, prev.kc, Prevalence(m, cols)))
  }

  /** The loop `for i in range(1, iterations)`: kp is updated on every pass
      and kc on every pass but the last, each from a snapshot of the other.
      So kp ends after `iterations - 1` updates and kc after
      `iterations - 2`, and neither moves when `iterations <= 1`. */
  method Reflect(m: Matrix, cols: nat, iterations: int) returns (kc: seq<Num>, kp: seq<Num>)
    requires IsMatrix(m, cols)
    ensures kc == Iterates(m, cols, if iterations >= 2 then iterations - 2 else 0).kc
    ensures kp == Iterates(m, cols, if iterations >= 1 then iterations - 1 else 0).kp
  {
    var kp0 := Prevalence(m, cols);
    var kc0 := Diversity(m, cols);
    kp, kc := kp0, kc0;
    var i := 1;
    while i < iterations
      invariant 1 <= i <= (if iterations >= 1 then iterations else 1)
      invariant kp == Iterates(m, cols, i - 1).kp
      invariant kc == Iterates(m, cols, if i < iterations then i - 1 else if iterations >= 2 then iterations - 2 else 0).kc
    {
      var kcTemp, kpTemp := kc, kp;
      kp := KpStep(m, cols, kcTemp, kp0);
      if i < iterations - 1 {
        kc := KcStep(m, cols, kpTemp, kc0);
      }
      i := i + 1;
    }
  }

  /** `(kc - kc.mean()) / kc.std()` and `(kp - kp.mean()) / kp.std()`
      after the loop, for an already binarized and dropped matrix. */
  method Indices(m: Matrix, cols: nat, iterations: int, root: real -> real) returns (eci: seq<Num>, pci: seq<Num>)
    requires IsMatrix(m, cols)
    ensures eci == Standardize(Iterates(m, cols, if iterations >= 2 then iterations - 2 else 0).kc, root)
    ensures pci == Standardize(Iterates(m, cols, if iterations >= 1 then iterations - 1 else 0).kp, root)
  {
    var kc, kp := Reflect(m, cols, iterations);
    eci := Standardize(kc, root);
    pci := Standardize(kp, root);
  }

  // -------------------------------------------------------------- bounds

  /** One kc update is the mean of kp over the activities the location
      holds, so it stays within any bounds of kp. */
  lemma KcStepWithin(m: Matrix, cols: nat, kp: seq<Num>, c: nat, lo: real, hi: real)
    requires IsBinary(m, cols) && |kp| == cols && c < |m|
    requires SkipSum(m[c]) > 0.0
    requires Within(kp, lo, hi)
    ensures var k := KcStep(m, cols, kp, Diversity(m, cols))[c];
            k.Fin? && lo <= k.v <= hi
  {
    RowOfBinary(m, cols, c);
    MeanOver(m[c], kp, lo, hi);
  }

  /** One kp update is the mean of kc over the locations that hold the
      activity, so it stays within any bounds of kc. */
  lemma KpStepWithin(m: Matrix, cols: nat, kc: seq<Num>, p: nat, lo: real, hi: real)
    requires IsBinary(m, cols) && |kc| == |m| && p < cols
    requires SkipSum(Col(m, cols, p)) > 0.0
    requires Within(kc, lo, hi)
    ensures var k := KpStep(m, cols, kc, Prevalence(m, cols))[p];
            k.Fin? && lo <= k.v <= hi
  {
    ColOfBinary(m, cols, p);
    MeanOver(Col(m, cols, p), kc, lo, hi);
  }

  /** The 0/1-weighted mean `w·x / Σw` of values within [lo, hi]. */
  lemma MeanOver(w: seq<Num>, x: seq<Num>, lo: real, hi: real)
    requires |w| == |x| && AllBits(w) && SkipSum(w) > 0.0
    requires Within(x, lo, hi)
    ensures var k := Div(NumDot(w, x), Fin(SkipSum(w)));
            k.Fin? && lo <= k.v <= hi
  {
    var vw, vx := Vals(w), Vals(x);
    assert AllFin(w) && AllFin(x);
    NumDotDefined(w, x);
    SkipSumIsSumOfVals(w);
    WeightedMean(vx, vw, lo, hi);
  }

  lemma WeightedMean(vx: seq<real>, vw: seq<real>, lo: real, hi: real)
    requires |vx| == |vw| && Bits(vw) && Sum(vw) > 0.0
    requires forall i :: 0 <= i < |vx| ==> lo <= vx[i] <= hi
    ensures lo <= Dot(vw, vx) / Sum(vw) <= hi
  {
    assert NonNegReals(vw) && WeightedWithin(vx, vw, lo, hi);
    DotComm(vw, vx);
    WeightedAverage(vx, vw, lo, hi);
  }

  /** Every location and every activity is present at least once. */
  predicate Connected(m: Matrix, cols: nat)
    requires IsMatrix(m, cols)
  {
    && (forall c :: 0 <= c < |m| ==> SkipSum(m[c]) > 0.0)
    && (forall p :: 0 <= p < cols ==> SkipSum(Col(m, cols, p)) > 0.0)
  }

  predicate Within(v: seq<Num>, lo: real, hi: real) {
    forall i :: 0 <= i < |v| ==> v[i].Fin? && lo <= v[i].v <= hi
  }

  /** The larger dimension of the matrix. */
  function Larger(m: Matrix, cols: nat): real {
    if |m| >= cols then |m| as real else cols as real
  }

  /** On a 0/1 matrix in which every location and activity is present,
      every iterate of both vectors is defined and lies in [1, B], where B
      is the larger dimension. */
  lemma {:induction false} IteratesBounded(m: Matrix, cols: nat, n: nat)
    requires IsBinary(m, cols) && Connected(m, cols)
    ensures Within(Iterates(m, cols, n).kc, 1.0, Larger(m, cols))
    ensures Within(Iterates(m, cols, n).kp, 1.0, Larger(m, cols))
  {
    var b := Larger(m, cols);
    var r := Iterates(m, cols, n);
    if n == 0 {
      forall c | 0 <= c < |m| ensures r.kc[c].Fin? && 1.0 <= r.kc[c].v <= b {
        RowOfBinary(m, cols, c);
        BitsSum(m[c]);
      }
      forall p | 0 <= p < cols ensures r.kp[p].Fin? && 1.0 <= r.kp[p].v <= b {
        ColOfBinary(m, cols, p);
        BitsSum(Col(m, cols, p));
      }
    } else {
      var prev := Iterates(m, cols, n - 1);
      IteratesBounded(m, cols, n - 1);
      forall c | 0 <= c < |m| ensures r.kc[c].Fin? && 1.0 <= r.kc[c].v <= b {
        KcStepWithin(m, cols, prev.kp, c, 1.0, b);
      }
      forall p | 0 <= p < cols ensures r.kp[p].Fin? && 1.0 <= r.kp[p].v <= b {
        KpStepWithin(m, cols, prev.kc, p, 1.0, b);
      }
    }
  }

  /** A positive sum of 0/1 cells is at least 1 and at most their number. */
  lemma BitsSum(w: seq<Num>)
    requires AllBits(w) && SkipSum(w) > 0.0
    ensures 1.0 <= SkipSum(w) <= |w| as real
  {
    SkipSumIsSumOfVals(w);
    SumOfBits(Vals(w));
    CountOnesAtMost(Vals(w));
  }

  lemma {:induction false} CountOnesAtMost(u: seq<real>)
    ensures CountOnes(u) <= |u|
  {
    if |u| > 0 {
      CountOnesAtMost(u[1..]);
    }
  }

  // ------------------------------------------------------------- cascade

  /** An activity that no location holds has kp0 = 0, so every kp update
      divides by zero at that activity; the undefined value then reaches
      every kc through the next product, and every kp through the one
      after. */
  lemma {:induction false} UnheldActivityCascade(m: Matrix, cols: nat, p: nat, n: nat)
    requires IsMatrix(m, cols) && p < cols && SkipSum(Col(m, cols, p)) == 0.0
    ensures n >= 1 ==> Iterates(m, cols, n).kp[p].NaN?
    ensures n >= 2 ==> forall c :: 0 <= c < |m| ==> Iterates(m, cols, n).kc[c].NaN?
    ensures n >= 3 && |m| > 0 ==> forall q :: 0 <= q < cols ==> Iterates(m, cols, n).kp[q].NaN?
  {
    if n >= 1 {
      var prev := Iterates(m, cols, n - 1);
      UnheldActivityCascade(m, cols, p, n - 1);
      assert Iterates(m, cols, n).kp[p] == Div(NumDot(Col(m, cols, p), prev.kc), Fin(0.0));
      if n >= 2 {
        forall c | 0 <= c < |m| ensures Iterates(m, cols, n).kc[c].NaN? {
          NumDotDefined(m[c], prev.kp);
        }
      }
      if n >= 3 && |m| > 0 {
        forall q | 0 <= q < cols ensures Iterates(m, cols, n).kp[q].NaN? {
          assert prev.kc[0].NaN?;
          NumDotDefined(Col(m, cols, q), prev.kc);
        }
      }
    }
  }

  /** A missing cell at (l, p) makes the first update of kc[l] and kp[p]
      undefined, since the products propagate it; from the second update on
      every kc and every kp is undefined. */
  lemma {:induction false} MissingCellCascade(m: Matrix, cols: nat, l: nat, p: nat, n: nat)
    requires IsMatrix(m, cols) && l < |m| && p < cols && m[l][p].NaN?
    ensures n >= 1 ==> Iterates(m, cols, n).kc[l].NaN? && Iterates(m, cols, n).kp[p].NaN?
    ensures n >= 2 ==> forall c :: 0 <= c < |m| ==> Iterates(m, cols, n).kc[c].NaN?
    ensures n >= 2 ==> forall q :: 0 <= q < cols ==> Iterates(m, cols, n).kp[q].NaN?
  {
    if n >= 1 {
      var prev := Iterates(m, cols, n - 1);
      MissingCellCascade(m, cols, l, p, n - 1);
      NumDotDefined(m[l], prev.kp);
      assert Col(m, cols, p)[l].NaN?;
      NumDotDefined(Col(m, cols, p), prev.kc);
      if n >= 2 {
        forall c | 0 <= c < |m| ensures Iterates(m, cols, n).kc[c].NaN? {
          NumDotDefined(m[c], prev.kp);
        }
        forall q | 0 <= q < cols ensures Iterates(m, cols, n).kp[q].NaN? {
          NumDotDefined(Col(m, cols, q), prev.kc);
        }
      }
    }
  }

  /** So with four or more iterations a single missing cell leaves every
      complexity value on both sides undefined. */
  lemma {:induction false} MissingCellUndefinesAll(m: Matrix, cols: nat, l: nat, p: nat, iterations: int, root: real -> real)
    requires IsMatrix(m, cols) && l < |m| && p < cols && m[l][p].NaN? && iterations >= 4
    ensures var eci := Standardize(Iterates(m, cols, iterations - 2).kc, root);
            forall c :: 0 <= c < |m| ==> eci[c].NaN?
    ensures var pci := Standardize(Iterates(m, cols, iterations - 1).kp, root);
            forall q :: 0 <= q < cols ==> pci[q].NaN?
  {
    var kc, kp := Iterates(m, cols, iterations - 2).kc, Iterates(m, cols, iterations - 1).kp;
    MissingCellCascade(m, cols, l, p, iterations - 2);
    MissingCellCascade(m, cols, l, p, iterations - 1);
    forall c | 0 <= c < |m| ensures Standardize(kc, root)[c].NaN? {
      StandardizeCell(kc, root, c);
    }
    forall q | 0 <= q < cols ensures Standardize(kp, root)[q].NaN? {
      StandardizeCell(kp, root, q);
    }
  }

  /** So with four or more iterations and an activity nobody holds, every
      complexity value on both sides is undefined. */
  lemma UnheldActivityUndefinesAll(m: Matrix, cols: nat, p: nat, iterations: int, root: real -> real)
    requires IsMatrix(m, cols) && p < cols && SkipSum(Col(m, cols, p)) == 0.0
    requires iterations >= 4 && |m| > 0
    ensures var eci := Standardize(Iterates(m, cols, iterations - 2).kc, root);
            forall c :: 0 <= c < |m| ==> eci[c].NaN?
    ensures var pci := Standardize(Iterates(m, cols, iterations - 1).kp, root);
            forall q :: 0 <= q < cols ==> pci[q].NaN?
  {
    var kc, kp := Iterates(m, cols, iterations - 2).kc, Iterates(m, cols, iterations - 1).kp;
    UnheldActivityCascade(m, cols, p, iterations - 2);
    UnheldActivityCascade(m, cols, p, iterations - 1);
    forall c | 0 <= c < |m| ensures Standardize(kc, root)[c].NaN? {
      StandardizeCell(kc, root, c);
    }
    forall q | 0 <= q < cols ensures Standardize(kp, root)[q].NaN? {
      StandardizeCell(kp, root, q);
    }
  }
}
