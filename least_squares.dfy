/**
  generate_least_squares: form the normal equations XᵀX c = Xᵀy as one
  augmented matrix, run the forward Gaussian-elimination loop (pivot
  search on the augmented column, swap, scale, forced unit diagonal,
  eliminate), back-substitute, and read the coefficients c0, c1 out of the
  last column.

  `ForwardStep`, `Forward` and `LeastSquaresFit` state on values what the
  driver does to its buffer; `GenerateLeastSquares` runs the driver on a
  `Matrix` object and is proved to agree with `LeastSquaresFit`.
 */
module LeastSquares {
  import opened Errors
  import opened MatrixMultiplication

  /** The shape the forward loop keeps: a rectangular matrix with at least
      one column and no more rows than columns (the diagonal write
      `result[row][row]` needs a column for every row). */
  predicate Workable(m: Mat) {
    |m| >= 1 && Rectangular(m, |m[0]|) && |m[0]| <= |m|
  }

  /** Every column keeps its length, so the shape is kept too. */
  lemma SameShape(m: Mat, r: Mat)
    requires Workable(m) && |r| == |m| && forall c | 0 <= c < |m| :: |r[c]| == |m[c]|
    ensures Workable(r) && |r[0]| == |m[0]|
  {
  }

  /** Steps 1 and 2 of a pass: unless `row` is the last row, the row found
      by the pivot search on the augmented column is swapped up to `row`. */
  function Pivot(m: Mat, row: nat): (r: Result<Mat>)
    requires Workable(m) && row < |m[0]|
    ensures r.Ok? ==> Workable(r.value) && |r.value| == |m| && |r.value[0]| == |m[0]|
    ensures r.Raise? <==> row != |m[0]| - 1 && LargestRowByCol(m, |m| - 1, |m[0]|, row).Raise?
  {
    if row == |m[0]| - 1 then Ok(m)
    else
      var index :- LargestRowByCol(m, |m| - 1, |m[0]|, row);
      var s := Swapped(m, row, index);
      SameShape(m, s);
      Ok(s)
  }

  /** Steps 3 to 5 of a pass: scale the row, store 1 on its diagonal and
      eliminate below it. */
  function ScaleAndEliminate(m: Mat, row: nat): (r: Result<Mat>)
    requires Workable(m) && row < |m[0]|
    ensures r.Ok? ==> Workable(r.value) && |r.value| == |m| && |r.value[0]| == |m[0]|
    ensures r.Ok? ==> r.value[row][row] == 1.0
    ensures r.Raise? <==> ScaledRow(m, row, |m|).Raise?
  {
    var m2 :- ScaledRow(m, row, |m|);
    SameShape(m, m2);
    var m3 := m2[row := m2[row][row := 1.0]];
    SameShape(m, m3);
    var e := Eliminated(m3, row, |m3|);
    SameShape(m, e);
    Ok(e)
  }

  /** One pass of the forward loop on `row`. */
  function ForwardStep(m: Mat, row: nat): (r: Result<Mat>)
    requires Workable(m) && row < |m[0]|
    ensures r.Ok? ==> Workable(r.value) && |r.value| == |m| && |r.value[0]| == |m[0]|
    ensures r.Ok? ==> r.value[row][row] == 1.0
  {
    var m1 :- Pivot(m, row);
    ScaleAndEliminate(m1, row)
  }

  /** The forward loop from `row` to the last row. */
  function Forward(m: Mat, row: nat): (r: Result<Mat>)
    requires Workable(m) && row <= |m[0]|
    ensures r.Ok? ==> Workable(r.value) && |r.value| == |m| && |r.value[0]| == |m[0]|
    decreases |m[0]| - row
  {
    if row == |m[0]| then Ok(m)
    else
      var m1 :- ForwardStep(m, row);
      Forward(m1, row + 1)
  }

  /** The forward loop from `row` is one pass followed by the loop from
      `row + 1`, and the pass's exception ends it. */
  lemma ForwardUnrolls(m: Mat, row: nat)
    requires Workable(m) && row < |m[0]|
    ensures ForwardStep(m, row).Raise? ==> Forward(m, row) == Raise(ForwardStep(m, row).error)
    ensures ForwardStep(m, row).Ok? ==> Forward(m, row) == Forward(ForwardStep(m, row).value, row + 1)
  {
  }

  /** After the passes before `row`, the buffer `m` still has the shape of
      the starting matrix `a`, and the rest of the loop ends as the whole
      loop from `a` does. */
  predicate OnTrack(a: Mat, m: Mat, row: nat) {
    && Workable(a) && Workable(m) && |m| == |a| && |m[0]| == |a[0]| && row <= |m[0]|
    && Forward(m, row) == Forward(a, 0)
  }

  /** What generate_least_squares needs of its operands: both products can
      be formed, the augmented matrix has a column, and it has a column for
      every row. */
  predicate CanFit(x: Mat, xt: Mat, y: Mat) {
    && CanMultiply(xt, x) && CanMultiply(xt, y)
    && 1 <= |x| + |y| && |xt[0]| <= |x| + |y|
  }

  /** The normal equations `[XᵀX | Xᵀy]` as one augmented matrix. */
  function NormalEquations(x: Mat, xt: Mat, y: Mat): (a: Mat)
    requires CanFit(x, xt, y)
    ensures Workable(a) && |a| == |x| + |y| && |a[0]| == |xt[0]|
    ensures a[..|x|] == Product(xt, x) && a[|x|..] == Product(xt, y)
  {
    var a := AugmentMatrices(Product(xt, x), Product(xt, y));
    assert forall c | 0 <= c < |a| :: a[c] in Product(xt, x) || a[c] in Product(xt, y);
    a
  }

  /** generate_least_squares as a value: the coefficients it extracts, or
      the exception that ends it. */
  function LeastSquaresFit(x: Mat, xt: Mat, y: Mat): (r: Result<PhiHat>)
    requires CanFit(x, xt, y)
    ensures r.Raise? <==> Forward(NormalEquations(x, xt, y), 0).Raise?
  {
    var f :- Forward(NormalEquations(x, xt, y), 0);
    Ok(GetPhiHat(BackSolved(f)))
  }

  /** generate_least_squares: the elimination driver on one shared buffer. */
  method GenerateLeastSquares(x: Mat, xt: Mat, y: Mat) returns (phi: Result<PhiHat>)
    requires CanFit(x, xt, y)
    ensures phi == LeastSquaresFit(x, xt, y)
  {
    var xtx := Multiply(xt, x);
    var xty := Multiply(xt, y);
    var result := new Matrix(AugmentMatrices(xtx, xty));
    assert result.cols == NormalEquations(x, xt, y);
    :- ForwardElimination(result);
    result.BackSolve();
    phi := Ok(GetPhiHat(result.cols));
  }

  /** The driver's `for row` loop over every row of the buffer; the first
      exception ends it. */
  method ForwardElimination(result: Matrix) returns (outcome: Outcome)
    requires Workable(result.cols)
    modifies result
    ensures match Forward(old(result.cols), 0)
            case Ok(r) => outcome == Done && result.cols == r
            case Raise(e) => outcome == Raised(e)
  {
    ghost var a := result.cols;
    var numRows := |result.cols[0]|;
    for row := 0 to numRows
      invariant OnTrack(a, result.cols, row)
    {
      outcome := ForwardPass(result, row);
      if outcome.Raised? {
        return;
      }
    }
    outcome := Done;
  }

  /** The body of the driver's `for row` loop on the shared buffer. When it
      raises, the driver stops with the buffer as it is. */
  method ForwardPass(result: Matrix, row: nat) returns (outcome: Outcome)
    requires Workable(result.cols) && row < |result.cols[0]|
    modifies result
    ensures outcome.Done? ==> ForwardStep(old(result.cols), row) == Ok(result.cols)
    ensures outcome.Raised? ==> ForwardStep(old(result.cols), row) == Raise(outcome.error)
    ensures outcome.Done? ==>
      && Workable(result.cols) && |result.cols| == |old(result.cols)| && |result.cols[0]| == |old(result.cols)[0]|
      && Forward(old(result.cols), row) == Forward(result.cols, row + 1)
    ensures outcome.Raised? ==> Forward(old(result.cols), row) == Raise(outcome.error)
  {
    ForwardUnrolls(result.cols, row);
    outcome := PivotPass(result, row);
    if outcome.Raised? {
      return;
    }
    outcome := ScaleAndEliminatePass(result, row);
  }

  /** Pivot search on the augmented column and swap, skipped on the last row. */
  method PivotPass(result: Matrix, row: nat) returns (outcome: Outcome)
    requires Workable(result.cols) && row < |result.cols[0]|
    modifies result
    ensures match Pivot(old(result.cols), row)
            case Ok(r) => outcome == Done && result.cols == r
            case Raise(e) => outcome == Raised(e)
  {
    var numRows := |result.cols[0]|;
    if row != numRows - 1 {
      var index := FindLargestRowByCol(result.cols, |result.cols| - 1, numRows, row);
      if index.Raise? {
        return Raised(index.error);
      }
      result.SwapRow(row, index.value);
    }
    outcome := Done;
  }

  /** scale_row, the store of 1 on the diagonal, and eliminate. */
  method ScaleAndEliminatePass(result: Matrix, row: nat) returns (outcome: Outcome)
    requires Workable(result.cols) && row < |result.cols[0]|
    modifies result
    ensures match ScaleAndEliminate(old(result.cols), row)
            case Ok(r) => outcome == Done && result.cols == r
            case Raise(e) => outcome == Raised(e)
  {
    outcome := result.ScaleRow(row, |result.cols|);
    if outcome.Raised? {
      return;
    }
    result.SetEntry(row, row, 1.0);
    result.Eliminate(row, |result.cols|);
  }
}
