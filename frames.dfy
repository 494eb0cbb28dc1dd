/** In-place operations on frame buffers.

    The library overwrites frames in place in two ways: masked assignment
    (`df[mask] = value`), and `np.fill_diagonal`, which overwrites the
    diagonal of a result's buffer. Both are modelled on an `array2<Num>`;
    `Contents` reads a buffer back as a frame value. */
module Frames {
  import opened Numeric
  import opened Algebra
  import opened Advantage

  function Contents(a: array2<Num>): (m: Matrix)
    reads a
    ensures |m| == a.Length0 && IsMatrix(m, a.Length1)
    ensures forall i, j :: 0 <= i < a.Length0 && 0 <= j < a.Length1 ==> m[i][j] == a[i, j]
  {
    seq(a.Length0, i requires 0 <= i < a.Length0 reads a =>
      seq(a.Length1, j requires 0 <= j < a.Length1 reads a => a[i, j]))
  }

  /** A fresh buffer holding a copy of `m` (`df.copy()`). */
  method Copy(m: Matrix, cols: nat) returns (a: array2<Num>)
    requires IsMatrix(m, cols)
    ensures fresh(a) && a.Length0 == |m| && a.Length1 == cols
    ensures Contents(a) == m
  {
    a := new Num[|m|, cols]((i, j) requires 0 <= i < |m| && 0 <= j < cols => m[i][j]);
    assert forall i :: 0 <= i < |m| ==> Contents(a)[i] == m[i];
  }

  /** `a[p(a)] = v`: every cell satisfying `p` is overwritten with `v`. */
  method Where(a: array2<Num>, p: Num -> bool, v: Num)
    modifies a
    ensures forall i, j :: 0 <= i < a.Length0 && 0 <= j < a.Length1 ==>
      a[i, j] == (if p(old(a[i, j])) then v else old(a[i, j]))
  {
    var i := 0;
    while i < a.Length0
      invariant 0 <= i <= a.Length0
      invariant forall r, c :: 0 <= r < i && 0 <= c < a.Length1 ==>
        a[r, c] == (if p(old(a[r, c])) then v else old(a[r, c]))
      invariant forall r, c :: i <= r < a.Length0 && 0 <= c < a.Length1 ==> a[r, c] == old(a[r, c])
    {
      var j := 0;
      while j < a.Length1
        invariant 0 <= j <= a.Length1
        invariant forall r, c :: 0 <= r < i && 0 <= c < a.Length1 ==>
          a[r, c] == (if p(old(a[r, c])) then v else old(a[r, c]))
        invariant forall c :: 0 <= c < j ==> a[i, c] == (if p(old(a[i, c])) then v else old(a[i, c]))
        invariant forall r, c :: i <= r < a.Length0 && 0 <= c < a.Length1 && (r > i || c >= j) ==>
          a[r, c] == old(a[r, c])
      {
        if p(a[i, j]) {
          a[i, j] := v;
        }
        j := j + 1;
      }
      i := i + 1;
    }
  }

  /** `np.fill_diagonal(a, 0)`. */
  method FillDiagonal(a: array2<Num>)
    modifies a
    ensures forall i, j :: 0 <= i < a.Length0 && 0 <= j < a.Length1 ==>
      a[i, j] == (if i == j then Fin(0.0) else old(a[i, j]))
  {
    var k := 0;
    while k < a.Length0 && k < a.Length1
      invariant 0 <= k <= a.Length0 && k <= a.Length1
      invariant forall i, j :: 0 <= i < a.Length0 && 0 <= j < a.Length1 ==>
        a[i, j] == (if i == j && i < k then Fin(0.0) else old(a[i, j]))
    {
      a[k, k] := Fin(0.0);
      k := k + 1;
    }
  }

  /** `m[m >= 1] = 1; m[m < 1] = 0` on a buffer: cells at least 1 become 1,
      cells below 1 become 0, missing cells stay missing. */
  method MaskInPlace(a: array2<Num>)
    modifies a
    ensures Contents(a) == MaskBinarize(old(Contents(a)), a.Length1)
  {
    ghost var before := Contents(a);
    Where(a, x => AtLeast(x, 1.0), Fin(1.0));
    Where(a, x => Below(x, 1.0), Fin(0.0));
    var now, want := Contents(a), MaskBinarize(before, a.Length1);
    forall i | 0 <= i < a.Length0 ensures now[i] == want[i] {
      assert forall j :: 0 <= j < a.Length1 ==> now[i][j] == want[i][j];
    }
  }

  /** `m = r.copy(); m[m >= 1] = 1; m[m < 1] = 0`: the caller's frame is a
      value and stays as it was; the copy ends up masked. */
  method MaskBinarizeCopy(r: Matrix, cols: nat) returns (m: Matrix)
    requires IsMatrix(r, cols)
    ensures m == MaskBinarize(r, cols)
  {
    var a := Copy(r, cols);
    MaskInPlace(a);
    m := Contents(a);
  }
}
