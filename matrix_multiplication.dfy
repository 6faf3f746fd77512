/**
  The dense linear-algebra engine of the temperature fitter.

  Every matrix is a list of COLUMNS: `m[col][row]`. The builders and
  `Multiply` return fresh matrices; the row operations used by Gaussian
  elimination (`SwapRow`, `ScaleRow`, `Eliminate`, `BackSolve`) update the
  `cols` buffer of a `Matrix` object in place. Each in-place operation is
  specified by a function on the old columns, and the properties of the
  operation are proved about that function.

  Arithmetic is exact (`real`).
 */
module MatrixMultiplication {
  import opened Errors

  /** A matrix stored column by column: `m[col][row]`. */
  type Mat = seq<seq<real>>

  /** Every column holds exactly `rows` entries. */
  predicate Rectangular(m: Mat, rows: nat) {
    forall c | 0 <= c < |m| :: |m[c]| == rows
  }

  // ---------------------------------------------------------------------
  // create_matrix and create_transpose
  // ---------------------------------------------------------------------

  /** The design matrix X with `numRows` samples and `numCols` basis terms:
      column 0 is all ones, every other column holds `i * 30` in row i. */
  function Design(numRows: nat, numCols: nat): Mat {
    seq(numCols, j requires 0 <= j < numCols =>
      seq(numRows, i requires 0 <= i < numRows => if j == 0 then 1.0 else (i * 30) as real))
  }

  /** Xᵀ as create_transpose builds it: `numRows` columns of `numCols`
      entries, where entry j of column i is 1 for j = 0 and `i * 30` otherwise. */
  function DesignTranspose(numRows: nat, numCols: nat): Mat {
    seq(numRows, i requires 0 <= i < numRows =>
      seq(numCols, j requires 0 <= j < numCols => if j == 0 then 1.0 else (i * 30) as real))
  }

  /** The two builders agree: `XT[i][j] == X[j][i]` for every sample i and term j. */
  lemma TransposeAgreement(numRows: nat, numCols: nat)
    ensures var x, xt := Design(numRows, numCols), DesignTranspose(numRows, numCols);
      && |x| == numCols && Rectangular(x, numRows)
      && |xt| == numRows && Rectangular(xt, numCols)
      && forall i, j | 0 <= i < numRows && 0 <= j < numCols :: xt[i][j] == x[j][i]
  {
  }

  /** create_matrix: fills a zero matrix of `numCols` columns, row by row. */
  method CreateMatrix(numRows: nat, numCols: nat) returns (x: Mat)
    ensures |x| == numCols && Rectangular(x, numRows)
    ensures forall i | 0 <= i < numRows :: 0 < numCols ==> x[0][i] == 1.0
    ensures forall j, i | 1 <= j < numCols && 0 <= i < numRows :: x[j][i] == (i * 30) as real
    ensures x == Design(numRows, numCols)
  {
    x := seq(numCols, j => seq(numRows, i => 0.0));
    var i := 0;
    while i < numRows
      invariant 0 <= i <= numRows
      invariant |x| == numCols && Rectangular(x, numRows)
      invariant forall j, k | 0 <= j < numCols && 0 <= k < numRows ::
        x[j][k] == if k < i then Design(numRows, numCols)[j][k] else 0.0
    {
      var j := 0;
      while j < numCols
        invariant 0 <= j <= numCols
        invariant |x| == numCols && Rectangular(x, numRows)
        invariant forall jj, k | 0 <= jj < numCols && 0 <= k < numRows ::
          x[jj][k] == if k < i || (k == i && jj < j) then Design(numRows, numCols)[jj][k] else 0.0
      {
        if j == 0 {
          x := x[j := x[j][i := 1.0]];
        } else {
          x := x[j := x[j][i := (i * 30) as real]];
        }
        j := j + 1;
      }
      i := i + 1;
    }
    assert forall j | 0 <= j < numCols :: x[j] == Design(numRows, numCols)[j];
  }

  /** create_transpose: fills a zero matrix of `numRows` columns, column by column. */
  method CreateTranspose(numRows: nat, numCols: nat) returns (xt: Mat)
    ensures |xt| == numRows && Rectangular(xt, numCols)
    ensures forall i | 0 <= i < numRows :: 0 < numCols ==> xt[i][0] == 1.0
    ensures forall i, j | 0 <= i < numRows && 1 <= j < numCols :: xt[i][j] == (i * 30) as real
    ensures xt == DesignTranspose(numRows, numCols)
  {
    xt := seq(numRows, i => seq(numCols, j => 0.0));
    var i := 0;
    while i < numRows
      invariant 0 <= i <= numRows
      invariant |xt| == numRows && Rectangular(xt, numCols)
      invariant forall ii | 0 <= ii < numRows ::
        xt[ii] == if ii < i then DesignTranspose(numRows, numCols)[ii] else seq(numCols, j => 0.0)
    {
      var j := 0;
      while j < numCols
        invariant 0 <= j <= numCols
        invariant |xt| == numRows && Rectangular(xt, numCols)
        invariant forall ii | 0 <= ii < numRows && ii != i ::
          xt[ii] == if ii < i then DesignTranspose(numRows, numCols)[ii] else seq(numCols, j => 0.0)
        invariant forall jj | 0 <= jj < numCols ::
          xt[i][jj] == if jj < j then DesignTranspose(numRows, numCols)[i][jj] else 0.0
      {
        if j == 0 {
          xt := xt[i := xt[i][j := 1.0]];
        } else {
          xt := xt[i := xt[i][j := (i * 30) as real]];
        }
        j := j + 1;
      }
      assert xt[i] == DesignTranspose(numRows, numCols)[i];
      i := i + 1;
    }
  }

  // ---------------------------------------------------------------------
  // multiply
  // ---------------------------------------------------------------------

  /** What multiply's preconditions are in Python: `lhs[0]` exists, every
      lhs column reaches row `len(lhs[0]) - 1`, and (when there are rows to
      fill) every rhs column has an entry for each lhs column. */
  predicate CanMultiply(lhs: Mat, rhs: Mat) {
    && |lhs| >= 1
    && (forall j | 0 <= j < |lhs| :: |lhs[j]| >= |lhs[0]|)
    && (|lhs[0]| > 0 ==> forall k | 0 <= k < |rhs| :: |rhs[k]| >= |lhs|)
  }

  /** The sum `Σ_{j < n} lhs[j][i] * rhs[k][j]`, added term by term in the
      order multiply accumulates it. */
  function Dot(lhs: Mat, rhs: Mat, k: nat, i: nat, n: nat): real
    requires n <= |lhs| && k < |rhs| && n <= |rhs[k]|
    requires forall j | 0 <= j < n :: i < |lhs[j]|
  {
    if n == 0 then 0.0 else Dot(lhs, rhs, k, i, n - 1) + lhs[n - 1][i] * rhs[k][n - 1]
  }

  /** The matrix product: `len(rhs)` columns of `len(lhs[0])` entries. */
  function Product(lhs: Mat, rhs: Mat): (r: Mat)
    requires CanMultiply(lhs, rhs)
    ensures |r| == |rhs| && Rectangular(r, |lhs[0]|)
    ensures forall k, i | 0 <= k < |rhs| && 0 <= i < |lhs[0]| :: r[k][i] == Dot(lhs, rhs, k, i, |lhs|)
  {
    seq(|rhs|, k requires 0 <= k < |rhs| =>
      seq(|lhs[0]|, i requires 0 <= i < |lhs[0]| => Dot(lhs, rhs, k, i, |lhs|)))
  }

  /** multiply: a zero result, then `result[k][i] += lhs[j][i] * rhs[k][j]`. */
  method Multiply(lhs: Mat, rhs: Mat) returns (result: Mat)
    requires CanMultiply(lhs, rhs)
    ensures |result| == |rhs| && Rectangular(result, |lhs[0]|)
    ensures forall k, i | 0 <= k < |rhs| && 0 <= i < |lhs[0]| :: result[k][i] == Dot(lhs, rhs, k, i, |lhs|)
    ensures result == Product(lhs, rhs)
  {
    var lhsRows, lhsColumns, rhsColumns := |lhs[0]|, |lhs|, |rhs|;
    result := seq(rhsColumns, j => seq(lhsRows, i => 0.0));
    var k := 0;
    while k < |result|
      invariant 0 <= k <= rhsColumns
      invariant |result| == rhsColumns && Rectangular(result, lhsRows)
      invariant forall kk | 0 <= kk < rhsColumns ::
        result[kk] == if kk < k then Product(lhs, rhs)[kk] else seq(lhsRows, i => 0.0)
    {
      var i := 0;
      while i < lhsRows
        invariant 0 <= i <= lhsRows
        invariant |result| == rhsColumns && Rectangular(result, lhsRows)
        invariant forall kk | 0 <= kk < rhsColumns && kk != k ::
          result[kk] == if kk < k then Product(lhs, rhs)[kk] else seq(lhsRows, i => 0.0)
        invariant forall ii | 0 <= ii < lhsRows ::
          result[k][ii] == if ii < i then Dot(lhs, rhs, k, ii, lhsColumns) else 0.0
      {
        var j := 0;
        while j < lhsColumns
          invariant 0 <= j <= lhsColumns
          invariant |result| == rhsColumns && Rectangular(result, lhsRows)
          invariant forall kk | 0 <= kk < rhsColumns && kk != k ::
            result[kk] == if kk < k then Product(lhs, rhs)[kk] else seq(lhsRows, i => 0.0)
          invariant forall ii | 0 <= ii < lhsRows && ii != i ::
            result[k][ii] == if ii < i then Dot(lhs, rhs, k, ii, lhsColumns) else 0.0
          invariant result[k][i] == Dot(lhs, rhs, k, i, j)
        {
          result := result[k := result[k][i := result[k][i] + lhs[j][i] * rhs[k][j]]];
          j := j + 1;
        }
        i := i + 1;
      }
      assert result[k] == Product(lhs, rhs)[k];
      k := k + 1;
    }
  }

  /** The n-by-n identity matrix. */
  function Identity(n: nat): (id: Mat)
    ensures |id| == n && Rectangular(id, n)
  {
    seq(n, j requires 0 <= j < n => seq(n, i requires 0 <= i < n => if i == j then 1.0 else 0.0))
  }

  /** The first t terms of `Identity(n) · a` in row i pick out `a[k][i]`
      exactly when i < t. */
  lemma {:induction false} IdentityDot(a: Mat, n: nat, k: nat, i: nat, t: nat)
    requires 1 <= n && Rectangular(a, n) && k < |a| && i < n && t <= n
    ensures Dot(Identity(n), a, k, i, t) == if i < t then a[k][i] else 0.0
  {
    if t > 0 {
      IdentityDot(a, n, k, i, t - 1);
    }
  }

  /** Multiplying by the identity on the left returns the right operand. */
  lemma MultiplyByIdentity(a: Mat, n: nat)
    requires 1 <= n && Rectangular(a, n)
    ensures CanMultiply(Identity(n), a) && Product(Identity(n), a) == a
  {
    var p := Product(Identity(n), a);
    forall k | 0 <= k < |a|
      ensures p[k] == a[k]
    {
      forall i | 0 <= i < n
        ensures p[k][i] == a[k][i]
      {
        IdentityDot(a, n, k, i, n);
      }
    }
  }

  // ---------------------------------------------------------------------
  // augment_matrices
  // ---------------------------------------------------------------------

  /** augment_matrices: matrix1's columns followed by matrix2's columns;
      splitting at `|matrix1|` gives both operands back. */
  function AugmentMatrices(matrix1: Mat, matrix2: Mat): (r: Mat)
    ensures |r| == |matrix1| + |matrix2|
    ensures r[..|matrix1|] == matrix1 && r[|matrix1|..] == matrix2
  {
    matrix1 + matrix2
  }
  // ---------------------------------------------------------------------
  // find_largest_row_by_col
  // ---------------------------------------------------------------------

  /** Python's `max(a, b)`: `b` only when it is strictly larger. */
  function Max(a: real, b: real): (r: real)
    ensures r >= a && r >= b && (r == a || r == b)
    ensures b > a ==> r == b
    ensures b <= a ==> r == a
  {
    if b > a then b else a
  }

  /** The running maximum of `s[lo..hi]`, started from 0 as the source does. */
  function RunningMax(s: seq<real>, lo: nat, hi: nat): (r: real)
    requires hi <= |s|
    ensures r >= 0.0
    ensures forall k | lo <= k < hi :: s[k] <= r
    ensures r == 0.0 || exists k | lo <= k < hi :: s[k] == r
    decreases hi
  {
    if hi <= lo then 0.0 else Max(RunningMax(s, lo, hi - 1), s[hi - 1])
  }

  /** `list.index(v)` searched from position `from`: the first position of `v`. */
  function IndexFrom(s: seq<real>, v: real, from: nat): (r: Option<nat>)
    requires from <= |s|
    ensures r.Some? ==> from <= r.value < |s| && s[r.value] == v
                        && forall k | from <= k < r.value :: s[k] != v
    ensures r.None? ==> forall k | from <= k < |s| :: s[k] != v
    decreases |s| - from
  {
    if from == |s| then None
    else if s[from] == v then Some(from)
    else IndexFrom(s, v, from + 1)
  }

  /** find_largest_row_by_col, as a value: the first row of the WHOLE column
      holding `max(0, column[start..numRows])`. With no row to scan the
      result variable is never bound; a maximum of 0 that does not occur in
      the column makes `list.index` raise. */
  function LargestRowByCol(m: Mat, colIndex: nat, numRows: nat, startRowIndex: nat): (r: Result<nat>)
    requires colIndex < |m| && numRows <= |m[colIndex]|
    ensures r == Raise(UnboundLocalError) <==> startRowIndex >= numRows
    ensures r == Raise(ValueError) <==>
      startRowIndex < numRows && RunningMax(m[colIndex], startRowIndex, numRows) !in m[colIndex]
    ensures r.Ok? ==> r.value < |m[colIndex]|
    ensures r.Ok? ==> var col, best := m[colIndex], m[colIndex][r.value];
      && best >= 0.0
      && (forall k | startRowIndex <= k < numRows :: col[k] <= best)
      && (best == 0.0 || exists k | startRowIndex <= k < numRows :: col[k] == best)
      && (forall k | 0 <= k < r.value :: col[k] != best)
  {
    if startRowIndex >= numRows then Raise(UnboundLocalError)
    else
      var maxValue := RunningMax(m[colIndex], startRowIndex, numRows);
      match IndexFrom(m[colIndex], maxValue, 0)
      case None => Raise(ValueError)
      case Some(index) => Ok(index)
  }

  /** find_largest_row_by_col: a running maximum over rows start..numRows-1,
      then `index = column.index(max_value)` once per row of the same range. */
  method FindLargestRowByCol(m: Mat, colIndex: nat, numRows: nat, startRowIndex: nat) returns (r: Result<nat>)
    requires colIndex < |m| && numRows <= |m[colIndex]|
    ensures r == LargestRowByCol(m, colIndex, numRows, startRowIndex)
  {
    var maxValue := 0.0;
    var row := startRowIndex;
    while row < numRows
      invariant startRowIndex <= row || numRows <= startRowIndex
      invariant row < numRows ==> maxValue == RunningMax(m[colIndex], startRowIndex, row)
      invariant row >= numRows ==> maxValue == RunningMax(m[colIndex], startRowIndex, numRows)
    {
      maxValue := Max(maxValue, m[colIndex][row]);
      row := row + 1;
    }
    var index: Option<nat> := None;   // unbound until the second loop runs
    var i := startRowIndex;
    while i < numRows
      invariant startRowIndex <= i
      invariant i > startRowIndex ==> index == IndexFrom(m[colIndex], maxValue, 0) && index.Some?
      invariant i <= startRowIndex ==> index == None
      invariant i > startRowIndex ==> startRowIndex < numRows
    {
      index := IndexFrom(m[colIndex], maxValue, 0);
      if index.None? {
        return Raise(ValueError);
      }
      i := i + 1;
    }
    if index.None? {
      return Raise(UnboundLocalError);
    }
    r := Ok(index.value);
  }

  // ---------------------------------------------------------------------
  // swap_row
  // ---------------------------------------------------------------------

  /** Both rows exist in every column (swap_row touches every column). */
  predicate HasRows(m: Mat, a: nat, b: nat) {
    forall c | 0 <= c < |m| :: a < |m[c]| && b < |m[c]|
  }

  /** One column of swap_row: entries a and b exchanged through a temporary. */
  function SwapEntries(col: seq<real>, a: nat, b: nat): (r: seq<real>)
    requires a < |col| && b < |col|
    ensures |r| == |col| && r[a] == col[b] && r[b] == col[a]
    ensures forall k | 0 <= k < |col| && k != a && k != b :: r[k] == col[k]
  {
    col[a := col[b]][b := col[a]]
  }

  /** The matrix with rows a and b exchanged in every column. */
  function Swapped(m: Mat, a: nat, b: nat): (r: Mat)
    requires HasRows(m, a, b)
    ensures |r| == |m| && forall c | 0 <= c < |m| :: |r[c]| == |m[c]|
    ensures forall c | 0 <= c < |m| :: r[c][a] == m[c][b] && r[c][b] == m[c][a]
    ensures forall c, k | 0 <= c < |m| && 0 <= k < |m[c]| && k != a && k != b :: r[c][k] == m[c][k]
  {
    seq(|m|, c requires 0 <= c < |m| => SwapEntries(m[c], a, b))
  }

  /** Swapping the same two rows twice restores the matrix. */
  lemma SwapTwiceRestores(m: Mat, a: nat, b: nat)
    requires HasRows(m, a, b)
    ensures HasRows(Swapped(m, a, b), a, b) && Swapped(Swapped(m, a, b), a, b) == m
  {
    var once := Swapped(m, a, b);
    var twice := Swapped(once, a, b);
    forall c | 0 <= c < |m|
      ensures twice[c] == m[c]
    {
      assert forall k | 0 <= k < |m[c]| :: twice[c][k] == m[c][k];
    }
  }

  /** Swapping a row with itself changes nothing. */
  lemma SwapSameRowIsNoOp(m: Mat, a: nat)
    requires HasRows(m, a, a)
    ensures Swapped(m, a, a) == m
  {
    var r := Swapped(m, a, a);
    forall c | 0 <= c < |m|
      ensures r[c] == m[c]
    {
      assert forall k | 0 <= k < |m[c]| :: r[c][k] == m[c][k];
    }
  }

  // ---------------------------------------------------------------------
  // scale_row
  // ---------------------------------------------------------------------

  /** Columns 0..numColumns-1 exist and reach `row`. */
  predicate HasRow(m: Mat, row: nat, numColumns: nat) {
    numColumns <= |m| && forall c | 0 <= c < numColumns :: row < |m[c]|
  }

  /** The first column, scanning from `from`, whose entry in `row` is not 0. */
  function FirstNonZero(m: Mat, row: nat, numColumns: nat, from: nat): (r: Option<nat>)
    requires HasRow(m, row, numColumns) && from <= numColumns
    ensures r.Some? ==> from <= r.value < numColumns && m[r.value][row] != 0.0
                        && forall c | from <= c < r.value :: m[c][row] == 0.0
    ensures r.None? ==> forall c | from <= c < numColumns :: m[c][row] == 0.0
    decreases numColumns - from
  {
    if from == numColumns then None
    else if m[from][row] != 0.0 then Some(from)
    else FirstNonZero(m, row, numColumns, from + 1)
  }

  /** `q` is `x` divided by `d`, stated without division. */
  predicate IsQuotient(q: real, x: real, d: real) {
    q * d == x
  }

  /** One column of scale_row: `col[row] *= 1 / scale`, which divides the
      entry by `scale` and leaves the others alone. */
  function DivideEntry(col: seq<real>, row: nat, scale: real): (r: seq<real>)
    requires row < |col| && scale != 0.0
    ensures |r| == |col| && IsQuotient(r[row], col[row], scale)
    ensures forall k | 0 <= k < |col| && k != row :: r[k] == col[k]
  {
    assert col[row] * (1.0 / scale) * scale == col[row] * ((1.0 / scale) * scale);
    col[row := col[row] * (1.0 / scale)]
  }

  /** Row `row` of columns 0..numColumns-1 multiplied by `1 / scale`. */
  function Scaled(m: Mat, row: nat, numColumns: nat, scale: real): (r: Mat)
    requires HasRow(m, row, numColumns) && scale != 0.0
    ensures |r| == |m| && forall c | 0 <= c < |m| :: |r[c]| == |m[c]|
    ensures forall c | 0 <= c < numColumns :: IsQuotient(r[c][row], m[c][row], scale)
    ensures forall c, k | 0 <= c < |m| && 0 <= k < |m[c]| && (c >= numColumns || k != row) :: r[c][k] == m[c][k]
  {
    seq(|m|, c requires 0 <= c < |m| =>
      if c < numColumns then DivideEntry(m[c], row, scale) else m[c])
  }

  /** scale_row, as a value: the row divided by its first non-zero entry, or
      the unbound-`scale` error when the row is zero in every scanned column.
      With no column to scan neither loop runs, `scale` is never read, and
      the matrix is left as it is. */
  function ScaledRow(m: Mat, row: nat, numColumns: nat): (r: Result<Mat>)
    requires HasRow(m, row, numColumns)
    ensures r.Raise? <==> numColumns > 0 && forall c | 0 <= c < numColumns :: m[c][row] == 0.0
    ensures r.Raise? ==> r.error == UnboundLocalError
    ensures numColumns == 0 ==> r == Ok(m)
  {
    match FirstNonZero(m, row, numColumns, 0)
    case None => if numColumns == 0 then Ok(m) else Raise(UnboundLocalError)
    case Some(lead) => Ok(Scaled(m, row, numColumns, m[lead][row]))
  }

  /** A successful scale_row divides the row by its first non-zero entry
      `lead`: that entry becomes 1, the entries before it stay 0, every
      scanned entry is the old one over the divisor, and nothing else moves. */
  lemma ScaledRowEffect(m: Mat, row: nat, numColumns: nat)
    requires HasRow(m, row, numColumns) && ScaledRow(m, row, numColumns).Ok?
    ensures numColumns == 0 ==> ScaledRow(m, row, numColumns).value == m
    ensures numColumns > 0 ==> FirstNonZero(m, row, numColumns, 0).Some?
    ensures numColumns > 0 ==>
      var s, lead := ScaledRow(m, row, numColumns).value, FirstNonZero(m, row, numColumns, 0).value;
      && |s| == |m| && (forall c | 0 <= c < |m| :: |s[c]| == |m[c]|)
      && m[lead][row] != 0.0
      && s[lead][row] == 1.0
      && (forall c | 0 <= c < lead :: s[c][row] == 0.0)
      && (forall c | 0 <= c < numColumns :: s[c][row] * m[lead][row] == m[c][row])
      && (forall c, k | 0 <= c < |m| && 0 <= k < |m[c]| && (c >= numColumns || k != row) :: s[c][k] == m[c][k])
  {
    if numColumns == 0 {
      return;
    }
    var lead := FirstNonZero(m, row, numColumns, 0).value;
    var d := m[lead][row];
    var s := ScaledRow(m, row, numColumns).value;
    assert s == Scaled(m, row, numColumns, d);
    assert s[lead][row] * d == d;
    forall c | 0 <= c < lead
      ensures s[c][row] == 0.0
    {
      assert s[c][row] * d == 0.0;
    }
  }

  // ---------------------------------------------------------------------
  // eliminate
  // ---------------------------------------------------------------------

  /** What eliminate needs: `matrix[0][src]` exists and, when there are rows
      below `src`, columns 0..numCols-1 reach every row of column 0. */
  predicate CanEliminate(m: Mat, src: nat, numCols: nat) {
    && |m| >= 1 && src < |m[0]|
    && (src + 1 < |m[0]| ==> numCols <= |m| && forall c | 0 <= c < numCols :: |m[c]| >= |m[0]|)
  }

  /** One column of eliminate's inner loop: `col[row] -= value * col[src]`. */
  function SubtractMultiple(col: seq<real>, row: nat, src: nat, value: real): (r: seq<real>)
    requires row < |col| && src < |col|
    ensures |r| == |col| && r[row] == col[row] - value * col[src]
    ensures forall k | 0 <= k < |col| && k != row :: r[k] == col[k]
  {
    col[row := col[row] - value * col[src]]
  }

  /** One pass of eliminate's outer loop on row `row`: subtract
      `m[0][row]` times the source row, then force column 0 to 0. */
  function EliminateRow(m: Mat, src: nat, numCols: nat, row: nat): (r: Mat)
    requires CanEliminate(m, src, numCols) && src < row < |m[0]|
    ensures |r| == |m| && forall c | 0 <= c < |m| :: |r[c]| == |m[c]|
    ensures CanEliminate(r, src, numCols)
  {
    var value := m[0][row];
    var m1 := seq(|m|, c requires 0 <= c < |m| =>
      if c < numCols then SubtractMultiple(m[c], row, src, value) else m[c]);
    m1[0 := m1[0][row := 0.0]]
  }

  /** The entries of one pass: only row `row` changes; its column 0 becomes
      0 and its columns 1..numCols-1 lose `m[0][row]` times the source row. */
  lemma EliminateRowEntries(m: Mat, src: nat, numCols: nat, row: nat)
    requires CanEliminate(m, src, numCols) && src < row < |m[0]|
    ensures forall c, k {:trigger EliminateRow(m, src, numCols, row)[c][k]} | 0 <= c < |m| && 0 <= k < |m[c]| ::
        EliminateRow(m, src, numCols, row)[c][k] == if k != row then m[c][k]
                   else if c == 0 then 0.0
                   else if c < numCols then m[c][k] - m[0][k] * m[c][src]
                   else m[c][k]
  {
    var value := m[0][row];
    var m1 := seq(|m|, c requires 0 <= c < |m| =>
      if c < numCols then SubtractMultiple(m[c], row, src, value) else m[c]);
    assert EliminateRow(m, src, numCols, row) == m1[0 := m1[0][row := 0.0]];
  }

  /** eliminate's outer loop from `row` to the last row. */
  function EliminateFrom(m: Mat, src: nat, numCols: nat, row: nat): (r: Mat)
    requires CanEliminate(m, src, numCols) && src < row <= |m[0]|
    ensures |r| == |m| && forall c | 0 <= c < |m| :: |r[c]| == |m[c]|
    decreases |m[0]| - row
  {
    if row == |m[0]| then m else EliminateFrom(EliminateRow(m, src, numCols, row), src, numCols, row + 1)
  }

  /** The entries after the outer loop from `row`: rows before `row` keep
      their values, every later row has had its pass. */
  lemma {:induction false} EliminateFromEntries(m: Mat, src: nat, numCols: nat, row: nat)
    requires CanEliminate(m, src, numCols) && src < row <= |m[0]|
    ensures forall c, k {:trigger EliminateFrom(m, src, numCols, row)[c][k]} | 0 <= c < |m| && 0 <= k < |m[c]| ::
        EliminateFrom(m, src, numCols, row)[c][k] == if k < row || k >= |m[0]| then m[c][k]
                   else if c == 0 then 0.0
                   else if c < numCols then m[c][k] - m[0][k] * m[c][src]
                   else m[c][k]
    decreases |m[0]| - row
  {
    if row < |m[0]| {
      var m1 := EliminateRow(m, src, numCols, row);
      EliminateRowEntries(m, src, numCols, row);
      EliminateFromEntries(m1, src, numCols, row + 1);
      var r := EliminateFrom(m1, src, numCols, row + 1);
      assert EliminateFrom(m, src, numCols, row) == r;
      assert |m1[0]| == |m[0]|;
      forall c, k {:trigger r[c][k]} | 0 <= c < |m| && 0 <= k < |m[c]|
        ensures r[c][k] == if k < row || k >= |m[0]| then m[c][k]
                           else if c == 0 then 0.0
                           else if c < numCols then m[c][k] - m[0][k] * m[c][src]
                           else m[c][k]
      {
        assert |m1[c]| == |m[c]|;
        if k <= row || k >= |m[0]| {
          assert r[c][k] == m1[c][k];
        } else {
          assert m1[c][k] == m[c][k] && m1[0][k] == m[0][k];
          if 1 <= c < numCols {
            assert m1[c][src] == m[c][src];
          }
        }
      }
    } else {
      assert EliminateFrom(m, src, numCols, row) == m;
    }
  }

  /** eliminate(matrix, src, numCols): rows up to `src` keep their values;
      each later row r becomes `old_r[c] - old_r[0] * m[c][src]` for
      c < numCols and then gets 0 in column 0. */
  function Eliminated(m: Mat, src: nat, numCols: nat): (r: Mat)
    requires CanEliminate(m, src, numCols)
    ensures |r| == |m| && forall c | 0 <= c < |m| :: |r[c]| == |m[c]|
    ensures forall c, k {:trigger r[c][k]} | 0 <= c < |m| && 0 <= k < |m[c]| && (k <= src || k >= |m[0]|) :: r[c][k] == m[c][k]
    ensures forall k | src < k < |m[0]| :: r[0][k] == 0.0
    ensures forall c, k {:trigger r[c][k]} | 1 <= c < numCols && c < |m| && src < k < |m[0]| :: r[c][k] == m[c][k] - m[0][k] * m[c][src]
    ensures forall c, k {:trigger r[c][k]} | 1 <= c && numCols <= c < |m| && 0 <= k < |m[c]| :: r[c][k] == m[c][k]
  {
    EliminateFromEntries(m, src, numCols, src + 1);
    EliminateFrom(m, src, numCols, src + 1)
  }

  // ---------------------------------------------------------------------
  // back_solve
  // ---------------------------------------------------------------------

  /** What back_solve needs: a rectangular matrix with at least one column
      and, when there are two rows or more, a column for every row. */
  predicate CanBackSolve(m: Mat) {
    |m| >= 1 && Rectangular(m, |m[0]|) && (|m[0]| >= 2 ==> |m| >= |m[0]|)
  }

  /** One inner step of back_solve: `s = m[i][j]`, `m[i][j] -= s * m[i][i]`,
      then `m[aug][j] -= s * m[aug][i]` with `aug` the last column. */
  function BackStep(m: Mat, i: nat, j: nat): (r: Mat)
    requires CanBackSolve(m) && j < i < |m[0]| && i < |m|
    ensures |r| == |m| && Rectangular(r, |m[0]|) && CanBackSolve(r)
    ensures i < |m| - 1 ==>
      && r[i][j] == m[i][j] - m[i][j] * m[i][i]
      && r[|m| - 1][j] == m[|m| - 1][j] - m[i][j] * m[|m| - 1][i]
      && forall c, k {:trigger r[c][k]} | 0 <= c < |m| && 0 <= k < |m[0]| && (k != j || (c != i && c != |m| - 1)) ::
           r[c][k] == m[c][k]
  {
    var aug := |m| - 1;
    var s := m[i][j];
    var m1 := m[i := SubtractMultiple(m[i], j, i, s)];
    m1[aug := SubtractMultiple(m1[aug], j, i, s)]
  }

  /** back_solve's inner loop for column i over rows j-1 down to 0. */
  function BackSolveColumn(m: Mat, i: nat, j: nat): (r: Mat)
    requires CanBackSolve(m) && j <= i < |m[0]| && i < |m|
    ensures |r| == |m| && Rectangular(r, |m[0]|) && CanBackSolve(r)
    decreases j
  {
    if j == 0 then m else BackSolveColumn(BackStep(m, i, j - 1), i, j - 1)
  }

  /** back_solve's outer loop over columns i down to 1. */
  function BackSolveFrom(m: Mat, i: nat): (r: Mat)
    requires CanBackSolve(m) && i < |m[0]| && i < |m|
    ensures |r| == |m| && Rectangular(r, |m[0]|) && CanBackSolve(r)
    decreases i
  {
    if i == 0 then m else BackSolveFrom(BackSolveColumn(m, i, i), i - 1)
  }

  /** back_solve on the whole matrix: columns last_row down to 1. */
  function BackSolved(m: Mat): (r: Mat)
    requires CanBackSolve(m)
    ensures |r| == |m| && Rectangular(r, |m[0]|)
  {
    if |m[0]| == 0 then m else BackSolveFrom(m, |m[0]| - 1)
  }

  /** The last column: the right-hand side of an augmented matrix. */
  function AugmentedColumn(m: Mat): seq<real>
    requires |m| >= 1
  {
    m[|m| - 1]
  }

  /** The strictly upper part of row k applied to x: `Σ_{k < c <= i} m[c][k] * x[c]`. */
  function UpperSum(m: Mat, x: seq<real>, k: nat, i: nat): real
    requires i < |m| && i < |x| && forall c | k < c <= i :: k < |m[c]|
    decreases i
  {
    if i <= k then 0.0 else UpperSum(m, x, k, i - 1) + m[i][k] * x[i]
  }

  /** UpperSum reads only the entries of row k in columns k+1..i. */
  lemma {:induction false} UpperSumFrame(m: Mat, m': Mat, x: seq<real>, k: nat, i: nat)
    requires i < |m| && i < |m'| && i < |x|
    requires forall c | k < c <= i :: k < |m[c]| && k < |m'[c]| && m[c][k] == m'[c][k]
    ensures UpperSum(m, x, k, i) == UpperSum(m', x, k, i)
    decreases i
  {
    if i > k {
      UpperSumFrame(m, m', x, k, i - 1);
    }
  }

  /** With `m[i][i] == 1` the inner loop for column i over rows j-1..0
      clears those rows of column i and subtracts `m[i][k] * m[aug][i]`
      from the augmented column; nothing else changes. */
  lemma {:induction false} BackSolveColumnEffect(m: Mat, i: nat, j: nat)
    requires CanBackSolve(m) && j <= i < |m[0]| && i < |m| - 1 && m[i][i] == 1.0
    ensures forall k | 0 <= k < j :: BackSolveColumn(m, i, j)[i][k] == 0.0
    ensures forall k {:trigger AugmentedColumn(BackSolveColumn(m, i, j))[k]} | 0 <= k < j ::
      AugmentedColumn(BackSolveColumn(m, i, j))[k] == AugmentedColumn(m)[k] - m[i][k] * AugmentedColumn(m)[i]
    ensures forall c, k {:trigger BackSolveColumn(m, i, j)[c][k]} | 0 <= c < |m| && 0 <= k < |m[0]| && ((c != i && c != |m| - 1) || k >= j) ::
      BackSolveColumn(m, i, j)[c][k] == m[c][k]
    decreases j
  {
    if j > 0 {
      var m' := BackStep(m, i, j - 1);
      BackSolveColumnEffect(m', i, j - 1);
    }
  }

  /** The coefficient columns after the outer loop from column i down to 1,
      when the diagonal is 1 in columns 1..i and the augmented column lies
      past the square part: the entries above those diagonals are 0 and
      every other coefficient entry keeps its value. */
  lemma {:induction false} BackSolveFromCoefficients(m: Mat, i: nat)
    requires CanBackSolve(m) && i < |m[0]| < |m|
    requires forall c | 1 <= c <= i :: m[c][c] == 1.0
    ensures forall c, k | 1 <= c <= i && 0 <= k < c :: BackSolveFrom(m, i)[c][k] == 0.0
    ensures forall c, k {:trigger BackSolveFrom(m, i)[c][k]} | 0 <= c < |m| - 1 && 0 <= k < |m[0]| && !(1 <= c <= i && k < c) ::
      BackSolveFrom(m, i)[c][k] == m[c][k]
    decreases i
  {
    if i > 0 {
      var m' := BackSolveColumn(m, i, i);
      BackSolveColumnEffect(m, i, i);
      assert |m'[0]| == |m[0]|;
      assert forall c | 1 <= c <= i - 1 :: m'[c][c] == m[c][c];
      BackSolveFromCoefficients(m', i - 1);
      assert BackSolveFrom(m, i) == BackSolveFrom(m', i - 1);
    }
  }

  /** The augmented column after the outer loop from column i down to 1:
      rows i.. keep their values, and the new column x satisfies the
      back-substitution identity `b[k] == x[k] + Σ_{k < c <= i} m[c][k] * x[c]`. */
  lemma {:induction false} BackSolveFromAugmented(m: Mat, i: nat)
    requires CanBackSolve(m) && i < |m[0]| < |m|
    requires forall c | 1 <= c <= i :: m[c][c] == 1.0
    ensures forall k {:trigger AugmentedColumn(BackSolveFrom(m, i))[k]} | i <= k < |m[0]| :: AugmentedColumn(BackSolveFrom(m, i))[k] == AugmentedColumn(m)[k]
    ensures forall k {:trigger AugmentedColumn(BackSolveFrom(m, i))[k]} | 0 <= k < |m[0]| ::
      AugmentedColumn(m)[k] == AugmentedColumn(BackSolveFrom(m, i))[k] + UpperSum(m, AugmentedColumn(BackSolveFrom(m, i)), k, i)
    decreases i
  {
    if i > 0 {
      var m' := BackSolveColumn(m, i, i);
      BackSolveColumnEffect(m, i, i);
      assert |m'[0]| == |m[0]|;
      assert forall c | 1 <= c <= i - 1 :: m'[c][c] == m[c][c];
      BackSolveFromAugmented(m', i - 1);
      assert BackSolveFrom(m, i) == BackSolveFrom(m', i - 1);
      var x := AugmentedColumn(BackSolveFrom(m, i));
      forall k | i <= k < |m[0]|
        ensures x[k] == AugmentedColumn(m)[k]
      {
        assert x[k] == AugmentedColumn(m')[k];
        assert m'[|m| - 1][k] == m[|m| - 1][k];
      }
      forall k | 0 <= k < |m[0]|
        ensures AugmentedColumn(m)[k] == x[k] + UpperSum(m, x, k, i)
      {
        if k < i {
          UpperSumFrame(m, m', x, k, i - 1);
          SubstitutionRow(m, x, k, i, AugmentedColumn(m')[k], UpperSum(m', x, k, i - 1));
        } else {
          assert UpperSum(m, x, k, i) == 0.0;
        }
      }
    } else {
      assert BackSolveFrom(m, i) == m;
    }
  }

  /** Row k of the back-substitution identity over columns k+1..i follows
      from the one over columns k+1..i-1 once row k has had `m[i][k] * x[i]`
      subtracted. */
  lemma SubstitutionRow(m: Mat, x: seq<real>, k: nat, i: nat, b: real, upper: real)
    requires k < i < |m| && i < |x| && |m| >= 1 && k < |m[|m| - 1]|
    requires forall c | k < c <= i :: k < |m[c]|
    requires b == x[k] + upper && upper == UpperSum(m, x, k, i - 1)
    requires b == AugmentedColumn(m)[k] - m[i][k] * x[i]
    ensures AugmentedColumn(m)[k] == x[k] + UpperSum(m, x, k, i)
  {
  }

  /** back_solve on an augmented matrix whose diagonal is 1 in columns
      1..last_row zeroes every coefficient entry above those diagonals and
      keeps the diagonals, the entries below them and column 0. */
  lemma BackSolveClearsAbove(m: Mat)
    requires CanBackSolve(m) && 1 <= |m[0]| < |m|
    requires forall c | 1 <= c < |m[0]| :: m[c][c] == 1.0
    ensures forall c, k | 1 <= c < |m[0]| && 0 <= k < c :: BackSolved(m)[c][k] == 0.0
    ensures forall c, k {:trigger BackSolved(m)[c][k]} | 0 <= c < |m| - 1 && 0 <= k < |m[0]| && (c == 0 || k >= c || c >= |m[0]|) ::
      BackSolved(m)[c][k] == m[c][k]
  {
    var last := |m[0]| - 1;
    assert BackSolved(m) == BackSolveFrom(m, last);
    BackSolveFromCoefficients(m, last);
  }

  /** The coefficient columns 0..p-1 form a unit upper-triangular block. */
  predicate UnitUpperTriangular(m: Mat, p: nat)
    requires p <= |m| && Rectangular(m, p)
  {
    forall c | 0 <= c < p :: m[c][c] == 1.0 && forall k | c < k < p :: m[c][k] == 0.0
  }

  /** In a unit upper-triangular block the first t terms of row k of
      `m · x` vanish for t <= k. */
  lemma {:induction false} LowerTermsVanish(m: Mat, x: seq<real>, p: nat, k: nat, t: nat)
    requires p <= |m| && Rectangular(m, p) && UnitUpperTriangular(m, p)
    requires |x| >= p && t <= k < p
    ensures Dot(m, [x], 0, k, t) == 0.0
  {
    if t > 0 {
      LowerTermsVanish(m, x, p, k, t - 1);
    }
  }

  /** Row k of `m · x` over the first n columns of a unit upper-triangular
      block is `x[k]` plus the strictly upper part. */
  lemma {:induction false} UnitUpperRow(m: Mat, x: seq<real>, p: nat, k: nat, n: nat)
    requires p <= |m| && Rectangular(m, p) && UnitUpperTriangular(m, p)
    requires |x| >= p && k < n <= p
    ensures Dot(m, [x], 0, k, n) == x[k] + UpperSum(m, x, k, n - 1)
  {
    if n == k + 1 {
      LowerTermsVanish(m, x, p, k, k);
    } else {
      UnitUpperRow(m, x, p, k, n - 1);
    }
  }

  /** back_solve solves a unit upper-triangular system: when the
      coefficient columns of the augmented matrix are unit upper
      triangular, the augmented column x it leaves satisfies `M · x == b`,
      row by row, with M and b the coefficient and augmented columns it was
      given. */
  lemma BackSolveSolvesUnitUpper(m: Mat)
    requires CanBackSolve(m) && 1 <= |m[0]| < |m|
    requires UnitUpperTriangular(m, |m[0]|)
    ensures forall k | 0 <= k < |m[0]| ::
      Dot(m, [AugmentedColumn(BackSolved(m))], 0, k, |m[0]|) == AugmentedColumn(m)[k]
  {
    var p := |m[0]|;
    var r := BackSolveFrom(m, p - 1);
    assert BackSolved(m) == r;
    BackSolveFromAugmented(m, p - 1);
    var x := AugmentedColumn(r);
    forall k | 0 <= k < p
      ensures Dot(m, [x], 0, k, p) == AugmentedColumn(m)[k]
    {
      UnitUpperRow(m, x, p, k, p);
    }
  }

  // ---------------------------------------------------------------------
  // get_phi_hat (coefficient selection)
  // ---------------------------------------------------------------------

  /** The coefficients of the least-squares formula `c0 + c1 x`. */
  datatype PhiHat = PhiHat(c0: real, c1: real)

  /** get_phi_hat reads the last column: with 1, 2 or 3 rows it reads rows
      0.., any other row count gives zero coefficients. */
  predicate CanGetPhiHat(m: Mat) {
    |m| >= 1 && (1 <= |m[0]| <= 3 ==> |m[|m| - 1]| >= |m[0]|)
  }

  /** get_phi_hat: c0 and c1 come from rows 0 and 1 of the last column; a
      missing row gives 0, and more than three rows (or none) give zeros. */
  function GetPhiHat(m: Mat): (phi: PhiHat)
    requires CanGetPhiHat(m)
    ensures 1 <= |m[0]| <= 3 ==> phi.c0 == m[|m| - 1][0]
    ensures 2 <= |m[0]| <= 3 ==> phi.c1 == m[|m| - 1][1]
    ensures |m[0]| == 1 ==> phi.c1 == 0.0
    ensures |m[0]| == 0 || |m[0]| > 3 ==> phi == PhiHat(0.0, 0.0)
  {
    var lastRow := |m[0]| - 1;
    var aug := m[|m| - 1];
    if lastRow == 2 then PhiHat(aug[0], aug[1])
    else if lastRow == 1 then PhiHat(aug[0], aug[1])
    else if lastRow == 0 then PhiHat(aug[0], 0.0)
    else PhiHat(0.0, 0.0)
  }

  // ---------------------------------------------------------------------
  // The buffer that swap_row, scale_row, eliminate and back_solve mutate
  // ---------------------------------------------------------------------

  /** A matrix whose entries the row operations update in place. */
  class Matrix {
    var cols: Mat

    constructor (m: Mat)
      ensures cols == m
    {
      cols := m;
    }

    /** swap_row: exchange rows `initialRow` and `largestRowIndex` column by column. */
    method SwapRow(initialRow: nat, largestRowIndex: nat)
      requires HasRows(cols, initialRow, largestRowIndex)
      modifies this
      ensures cols == Swapped(old(cols), initialRow, largestRowIndex)
    {
      ghost var m := cols;
      var column := 0;
      while column < |cols|
        invariant 0 <= column <= |cols| == |m|
        invariant forall c | 0 <= c < |m| ::
          cols[c] == if c < column then SwapEntries(m[c], initialRow, largestRowIndex) else m[c]
      {
        var temp := cols[column][initialRow];
        cols := cols[column := cols[column][initialRow := cols[column][largestRowIndex]]];
        cols := cols[column := cols[column][largestRowIndex := temp]];
        column := column + 1;
      }
    }

    /** scale_row: find the first non-zero entry of the row among columns
        0..numColumns-1, then multiply those entries by `1 / scale`. When the
        row is zero there, `scale` is read unbound and nothing has changed;
        with no column at all the second loop never reads it either. */
    method ScaleRow(rowIndex: nat, numColumns: nat) returns (outcome: Outcome)
      requires HasRow(cols, rowIndex, numColumns)
      modifies this
      ensures match ScaledRow(old(cols), rowIndex, numColumns)
              case Ok(s) => outcome == Done && cols == s
              case Raise(e) => outcome == Raised(e) && cols == old(cols)
    {
      ghost var m := cols;
      var scale: Option<real> := None;   // unbound until a non-zero entry is met
      var column := 0;
      while column < numColumns
        invariant column <= numColumns
        invariant scale.None? && cols == m
        invariant FirstNonZero(m, rowIndex, numColumns, column) == FirstNonZero(m, rowIndex, numColumns, 0)
      {
        if cols[column][rowIndex] != 0.0 {
          scale := Some(cols[column][rowIndex]);
          break;
        }
        column := column + 1;
      }
      if scale.None? && numColumns == 0 {
        return Done;
      }
      if scale.None? {
        assert FirstNonZero(m, rowIndex, numColumns, 0).None?;
        assert ScaledRow(m, rowIndex, numColumns) == Raise(UnboundLocalError);
        return Raised(UnboundLocalError);
      }
      var divisor := scale.value;
      assert FirstNonZero(m, rowIndex, numColumns, 0) == Some(column);
      assert ScaledRow(m, rowIndex, numColumns) == Ok(Scaled(m, rowIndex, numColumns, divisor));
      column := 0;
      while column < numColumns
        invariant column <= numColumns && |cols| == |m| && divisor != 0.0
        invariant forall c | 0 <= c < |m| ::
          cols[c] == if c < column then DivideEntry(m[c], rowIndex, divisor) else m[c]
      {
        cols := cols[column := DivideEntry(cols[column], rowIndex, divisor)];
        column := column + 1;
      }
      assert forall c | 0 <= c < |m| :: cols[c] == Scaled(m, rowIndex, numColumns, divisor)[c];
      outcome := Done;
    }

    /** A direct store `matrix[col][row] = value`. */
    method SetEntry(col: nat, row: nat, value: real)
      requires col < |cols| && row < |cols[col]|
      modifies this
      ensures cols == old(cols)[col := old(cols)[col][row := value]]
    {
      cols := cols[col := cols[col][row := value]];
    }

    /** eliminate: for every row below `srcRowIndex`, subtract its column-0
        entry times the source row from it (columns 0..numCols-1), then store 0
        in its column 0. */
    method Eliminate(srcRowIndex: nat, numCols: nat)
      requires CanEliminate(cols, srcRowIndex, numCols)
      modifies this
      ensures cols == Eliminated(old(cols), srcRowIndex, numCols)
    {
      ghost var m := cols;
      var row := srcRowIndex + 1;
      while row < |cols[0]|
        invariant CanEliminate(cols, srcRowIndex, numCols)
        invariant srcRowIndex < row <= |m[0]| == |cols[0]|
        invariant EliminateFrom(cols, srcRowIndex, numCols, row) == Eliminated(m, srcRowIndex, numCols)
      {
        ghost var prev := cols;
        EliminateOneRow(srcRowIndex, numCols, row);
        assert EliminateFrom(prev, srcRowIndex, numCols, row) == EliminateFrom(cols, srcRowIndex, numCols, row + 1);
        row := row + 1;
      }
    }

    /** One pass of eliminate's outer loop: the inner loop over the columns
        followed by the store of 0 in column 0. */
    method EliminateOneRow(srcRowIndex: nat, numCols: nat, row: nat)
      requires CanEliminate(cols, srcRowIndex, numCols) && srcRowIndex < row < |cols[0]|
      modifies this
      ensures cols == EliminateRow(old(cols), srcRowIndex, numCols, row)
    {
      ghost var before := cols;
      var value := cols[0][row];
      var column := 0;
      while column < numCols
        invariant column <= numCols && |cols| == |before|
        invariant forall c | 0 <= c < |before| ::
          cols[c] == if c < column && c < numCols
                     then SubtractMultiple(before[c], row, srcRowIndex, value)
                     else before[c]
      {
        cols := cols[column := SubtractMultiple(cols[column], row, srcRowIndex, value)];
        column := column + 1;
      }
      assert cols == seq(|before|, c requires 0 <= c < |before| =>
        if c < numCols then SubtractMultiple(before[c], row, srcRowIndex, value) else before[c]);
      cols := cols[0 := cols[0][row := 0.0]];
    }

    /** back_solve: for columns i from the last row down to 1 and rows j
        from i-1 down to 0, `s = m[i][j]; m[i][j] -= s * m[i][i];
        m[aug][j] -= s * m[aug][i]`. */
    method BackSolve()
      requires CanBackSolve(cols)
      modifies this
      ensures cols == BackSolved(old(cols))
    {
      ghost var m := cols;
      var i := |cols[0]| - 1;
      if i < 0 {
        return;
      }
      while i > 0
        invariant |cols| == |m| && CanBackSolve(cols)
        invariant 0 <= i < |m[0]| == |cols[0]|
        invariant BackSolveFrom(cols, i) == BackSolved(m)
      {
        ClearAbove(i);
        i := i - 1;
      }
    }

    /** One pass of back_solve's outer loop: rows i-1 down to 0 of column i. */
    method ClearAbove(i: nat)
      requires CanBackSolve(cols) && 0 < i < |cols[0]| && i < |cols|
      modifies this
      ensures cols == BackSolveColumn(old(cols), i, i)
    {
      ghost var m := cols;
      var augmentedIndex := |cols| - 1;
      var j := i - 1;
      while j >= 0
        invariant -1 <= j < i
        invariant |cols| == |m| && |cols[0]| == |m[0]| && CanBackSolve(cols)
        invariant BackSolveColumn(cols, i, j + 1) == BackSolveColumn(m, i, i)
      {
        ghost var before := cols;
        var s := cols[i][j];
        cols := cols[i := SubtractMultiple(cols[i], j, i, s)];
        cols := cols[augmentedIndex := SubtractMultiple(cols[augmentedIndex], j, i, s)];
        assert cols == BackStep(before, i, j);
        j := j - 1;
      }
    }
  }
}
