/**
  The least-squares fit on the design the program actually builds: n
  samples taken at times 0, 30, 60, ..., the design X = create_matrix(n, 2)
  (a column of ones and a column of times) and its transpose from
  create_transpose, and one column y of readings.

  The normal equations then have
      XᵀX = | n              15 n (n - 1)          |
            | 15 n (n - 1)   150 n (n - 1) (2n - 1) |
  whose determinant 75 n² (n - 1) (n + 1) is positive once n >= 2.
 */
module DesignFit {
  import opened Errors
  import opened MatrixMultiplication
  import opened LeastSquares
  import opened TwoUnknowns

  /** Σ_{j < t} 30 j, the sum of the first t sample times. */
  function SumOfTimes(t: nat): real {
    15.0 * (t as real) * (t as real - 1.0)
  }

  /** Σ_{j < t} (30 j)², the sum of the squares of the first t sample times. */
  function SumOfSquares(t: nat): real {
    150.0 * (t as real) * (t as real - 1.0) * (2.0 * (t as real) - 1.0)
  }

  /** The sample time of row j: `j * 30`. */
  function Time(j: nat): real {
    (j * 30) as real
  }

  lemma SumOfTimesStep(t: nat)
    requires t >= 1
    ensures SumOfTimes(t) == SumOfTimes(t - 1) + Time(t - 1)
  {
    var s := (t - 1) as real;
    assert Time(t - 1) == 30.0 * s;
    assert SumOfTimes(t - 1) == 15.0 * s * (s - 1.0);
    assert SumOfTimes(t) == 15.0 * (s + 1.0) * s;
  }

  lemma SumOfSquaresStep(t: nat)
    requires t >= 1
    ensures SumOfSquares(t) == SumOfSquares(t - 1) + Time(t - 1) * Time(t - 1)
  {
    var s := (t - 1) as real;
    assert Time(t - 1) == 30.0 * s;
    assert Time(t - 1) * Time(t - 1) == 900.0 * (s * s);
    assert SumOfSquares(t - 1) == 150.0 * s * (s - 1.0) * (2.0 * s - 1.0);
    assert SumOfSquares(t) == 150.0 * (s + 1.0) * s * (2.0 * s + 1.0);
    calc {
      150.0 * (s + 1.0) * s * (2.0 * s + 1.0);
      150.0 * (2.0 * s * s * s + 3.0 * s * s + s);
      150.0 * (2.0 * s * s * s - 3.0 * s * s + s) + 900.0 * (s * s);
      150.0 * s * (s - 1.0) * (2.0 * s - 1.0) + 900.0 * (s * s);
    }
  }

  /** The entries create_matrix and create_transpose put in X and Xᵀ. */
  lemma DesignEntries(n: nat, j: nat)
    requires j < n
    ensures var x, xt := Design(n, 2), DesignTranspose(n, 2);
      && |x| == 2 && Rectangular(x, n) && |xt| == n && Rectangular(xt, 2)
      && x[0][j] == 1.0 && x[1][j] == Time(j)
      && xt[j][0] == 1.0 && xt[j][1] == Time(j)
  {
  }

  /** The first t terms of each entry of XᵀX: the number of samples, the
      sum of the times (twice) and the sum of their squares. */
  lemma {:induction false} GramPartialSums(n: nat, t: nat)
    requires t <= n
    ensures var x, xt := Design(n, 2), DesignTranspose(n, 2);
      && Dot(xt, x, 0, 0, t) == t as real
      && Dot(xt, x, 0, 1, t) == SumOfTimes(t)
      && Dot(xt, x, 1, 0, t) == SumOfTimes(t)
      && Dot(xt, x, 1, 1, t) == SumOfSquares(t)
  {
    var x, xt := Design(n, 2), DesignTranspose(n, 2);
    if t > 0 {
      GramPartialSums(n, t - 1);
      DesignEntries(n, t - 1);
      SumOfTimesStep(t);
      SumOfSquaresStep(t);
      assert Dot(xt, x, 1, 1, t) == Dot(xt, x, 1, 1, t - 1) + Time(t - 1) * Time(t - 1);
    }
  }

  /** The readings y as the one-column matrix multiply takes. */
  function Readings(ys: seq<real>): Mat {
    [ys]
  }

  /** The normal equations of n >= 1 samples can be formed, and each of
      their entries is the sum multiply computes for it. */
  lemma NormalEquationsAsSums(ys: seq<real>)
    requires |ys| >= 1
    ensures var n := |ys|;
      var x, xt, y := Design(n, 2), DesignTranspose(n, 2), Readings(ys);
      && CanFit(x, xt, y)
      && var a := NormalEquations(x, xt, y);
      && System(a)
      && (forall k, i | 0 <= k < 2 && 0 <= i < 2 :: a[k][i] == Dot(xt, x, k, i, n))
      && a[2][0] == Dot(xt, y, 0, 0, n) && a[2][1] == Dot(xt, y, 0, 1, n)
  {
    var n := |ys|;
    var x, xt, y := Design(n, 2), DesignTranspose(n, 2), Readings(ys);
    DesignEntries(n, 0);
    var a := NormalEquations(x, xt, y);
    assert a[0] == Product(xt, x)[0] && a[1] == Product(xt, x)[1];
    assert a[2] == Product(xt, y)[0];
  }

  /** The normal equations of n >= 1 samples: XᵀX holds the sample count,
      the sum of the times and the sum of their squares; Xᵀy holds the sum
      of the readings and the sum of time times reading. */
  lemma DesignNormalEquations(ys: seq<real>)
    requires |ys| >= 1
    ensures var n := |ys|;
      var x, xt, y := Design(n, 2), DesignTranspose(n, 2), Readings(ys);
      && CanFit(x, xt, y)
      && var a := NormalEquations(x, xt, y);
      && System(a)
      && a[0][0] == n as real && a[0][1] == SumOfTimes(n)
      && a[1][0] == SumOfTimes(n) && a[1][1] == SumOfSquares(n)
      && a[2][0] == Dot(xt, y, 0, 0, n) && a[2][1] == Dot(xt, y, 0, 1, n)
  {
    NormalEquationsAsSums(ys);
    GramPartialSums(|ys|, |ys|);
  }

  /** The determinant of XᵀX is 75 n² (n - 1) (n + 1). */
  lemma DesignDeterminant(a: Mat, n: nat)
    requires System(a)
    requires a[0][0] == n as real && a[0][1] == SumOfTimes(n)
    requires a[1][0] == SumOfTimes(n) && a[1][1] == SumOfSquares(n)
    ensures Det(a) == 75.0 * (n as real) * (n as real) * (n as real - 1.0) * (n as real + 1.0)
    ensures n >= 2 ==> Det(a) > 0.0
  {
    var r := n as real;
    if n >= 2 {
      assert r * r > 0.0 && (r - 1.0) * (r + 1.0) > 0.0;
      assert 75.0 * r * r * (r - 1.0) * (r + 1.0) == 75.0 * (r * r) * ((r - 1.0) * (r + 1.0));
    }
    calc {
      Det(a);
      r * SumOfSquares(n) - SumOfTimes(n) * SumOfTimes(n);
      r * (150.0 * r * (r - 1.0) * (2.0 * r - 1.0)) - (15.0 * r * (r - 1.0)) * (15.0 * r * (r - 1.0));
      75.0 * r * r * (r - 1.0) * (2.0 * (2.0 * r - 1.0) - 3.0 * (r - 1.0));
      75.0 * r * r * (r - 1.0) * (r + 1.0);
    }
  }

  /** generate_least_squares on n >= 2 samples: it raises exactly when both
      entries of Xᵀy are negative (the pivot search finds no row, and
      `list.index` raises ValueError); otherwise the coefficients c0, c1 it
      returns solve the normal equations XᵀX c = Xᵀy. */
  lemma FitSolvesNormalEquations(ys: seq<real>)
    requires |ys| >= 2
    ensures var n := |ys|;
      var x, xt, y := Design(n, 2), DesignTranspose(n, 2), Readings(ys);
      && CanFit(x, xt, y)
      && (LeastSquaresFit(x, xt, y).Raise? <==> Dot(xt, y, 0, 0, n) < 0.0 && Dot(xt, y, 0, 1, n) < 0.0)
      && (LeastSquaresFit(x, xt, y).Raise? ==> LeastSquaresFit(x, xt, y).error == ValueError)
      && (LeastSquaresFit(x, xt, y).Ok? ==>
            var phi := LeastSquaresFit(x, xt, y).value;
            CanMultiply(Product(xt, x), [[phi.c0, phi.c1]])
            && Product(Product(xt, x), [[phi.c0, phi.c1]]) == Product(xt, y))
  {
    var n := |ys|;
    var x, xt, y := Design(n, 2), DesignTranspose(n, 2), Readings(ys);
    DesignNormalEquations(ys);
    var a := NormalEquations(x, xt, y);
    DesignDeterminant(a, n);
    assert SumOfTimes(n) != 0.0 by {
      var r := n as real;
      assert r * (r - 1.0) > 0.0;
      assert SumOfTimes(n) == 15.0 * (r * (r - 1.0));
    }
    FitOnSystem(a);
    if LeastSquaresFit(x, xt, y).Ok? {
      var phi := LeastSquaresFit(x, xt, y).value;
      assert phi == GetPhiHat(BackSolved(Forward(a, 0).value));
      SolvesIsProduct(a, phi.c0, phi.c1);
      assert a[..2] == Product(xt, x) && a[2..] == Product(xt, y);
    }
  }

  /** v is the (c0, c1) combination of g0 and g1. */
  predicate Combines(v: real, g0: real, g1: real, c0: real, c1: real) {
    v == g0 * c0 + g1 * c1
  }

  /** The sum `total` is `partial` plus one more term e w. */
  predicate Extends(total: real, partial: real, e: real, w: real) {
    total == partial + e * w
  }

  /** Entry i of Xᵀy over the first t samples is the combination, with
      weights c0 and c1, of entries (0, i) and (1, i) of XᵀX over them. */
  predicate LineCombination(ys: seq<real>, c0: real, c1: real, i: nat, t: nat)
    requires t <= |ys| && i < 2
  {
    var n := |ys|;
    var x, xt, y := Design(n, 2), DesignTranspose(n, 2), Readings(ys);
    Combines(Dot(xt, y, 0, i, t), Dot(xt, x, 0, i, t), Dot(xt, x, 1, i, t), c0, c1)
  }

  /** The last term of each of the three sums over the first t samples. */
  lemma LastTerms(ys: seq<real>, i: nat, t: nat)
    requires 1 <= t <= |ys| && i < 2
    ensures var n := |ys|;
      var x, xt, y := Design(n, 2), DesignTranspose(n, 2), Readings(ys);
      && Extends(Dot(xt, y, 0, i, t), Dot(xt, y, 0, i, t - 1), xt[t - 1][i], ys[t - 1])
      && Extends(Dot(xt, x, 0, i, t), Dot(xt, x, 0, i, t - 1), xt[t - 1][i], 1.0)
      && Extends(Dot(xt, x, 1, i, t), Dot(xt, x, 1, i, t - 1), xt[t - 1][i], Time(t - 1))
  {
    DesignEntries(|ys|, t - 1);
  }

  /** Adding to three sums one term each, with the same factor e and the
      reading w = c0 + c1 s on the line, keeps their (c0, c1) combination. */
  lemma CombinationStep(v: real, g0: real, g1: real, nv: real, ng0: real, ng1: real,
                        e: real, w: real, s: real, c0: real, c1: real)
    requires Combines(v, g0, g1, c0, c1) && w == c0 + c1 * s
    requires Extends(nv, v, e, w) && Extends(ng0, g0, e, 1.0) && Extends(ng1, g1, e, s)
    ensures Combines(nv, ng0, ng1, c0, c1)
  {
    assert e * w == e * c0 + (e * s) * c1;
  }

  /** Adding sample t - 1, whose reading is on the line, keeps the combination. */
  lemma LineStep(ys: seq<real>, c0: real, c1: real, i: nat, t: nat)
    requires 1 <= t <= |ys| && i < 2
    requires ys[t - 1] == c0 + c1 * Time(t - 1)
    requires LineCombination(ys, c0, c1, i, t - 1)
    ensures LineCombination(ys, c0, c1, i, t)
  {
    var n := |ys|;
    var x, xt, y := Design(n, 2), DesignTranspose(n, 2), Readings(ys);
    LastTerms(ys, i, t);
    CombinationStep(Dot(xt, y, 0, i, t - 1), Dot(xt, x, 0, i, t - 1), Dot(xt, x, 1, i, t - 1),
      Dot(xt, y, 0, i, t), Dot(xt, x, 0, i, t), Dot(xt, x, 1, i, t),
      xt[t - 1][i], ys[t - 1], Time(t - 1), c0, c1);
  }

  /** Readings on the line y = c0 + c1 t make each entry of Xᵀy the same
      combination of the entries of XᵀX. */
  lemma {:induction false} LinePartialSums(ys: seq<real>, c0: real, c1: real, i: nat, t: nat)
    requires t <= |ys| && i < 2
    requires forall j | 0 <= j < |ys| :: ys[j] == c0 + c1 * Time(j)
    ensures LineCombination(ys, c0, c1, i, t)
  {
    if t > 0 {
      LinePartialSums(ys, c0, c1, i, t - 1);
      LineStep(ys, c0, c1, i, t);
    }
  }

  /** When both entries of Xᵀy are the (c0, c1) combination of the
      matching entries of XᵀX, (c0, c1) solves the normal equations. */
  lemma CombinationsSolve(ys: seq<real>, c0: real, c1: real)
    requires |ys| >= 1
    requires LineCombination(ys, c0, c1, 0, |ys|) && LineCombination(ys, c0, c1, 1, |ys|)
    ensures var n := |ys|;
      var a := NormalEquations(Design(n, 2), DesignTranspose(n, 2), Readings(ys));
      System(a) && Solves(a, c0, c1)
  {
    var n := |ys|;
    var x, xt, y := Design(n, 2), DesignTranspose(n, 2), Readings(ys);
    NormalEquationsAsSums(ys);
    var a := NormalEquations(x, xt, y);
    assert a[0][0] == Dot(xt, x, 0, 0, n) && a[1][0] == Dot(xt, x, 1, 0, n);
    assert a[0][1] == Dot(xt, x, 0, 1, n) && a[1][1] == Dot(xt, x, 1, 1, n);
    assert Combines(a[2][0], a[0][0], a[1][0], c0, c1);
    assert Combines(a[2][1], a[0][1], a[1][1], c0, c1);
  }

  /** Readings exactly on y = c0 + c1 t make (c0, c1) a solution of the
      normal equations. */
  lemma LineSolvesNormalEquations(ys: seq<real>, c0: real, c1: real)
    requires |ys| >= 1
    requires forall j | 0 <= j < |ys| :: ys[j] == c0 + c1 * Time(j)
    ensures var n := |ys|;
      var a := NormalEquations(Design(n, 2), DesignTranspose(n, 2), Readings(ys));
      System(a) && Solves(a, c0, c1)
  {
    LinePartialSums(ys, c0, c1, 0, |ys|);
    LinePartialSums(ys, c0, c1, 1, |ys|);
    CombinationsSolve(ys, c0, c1);
  }

  /** When every reading lies exactly on y = c0 + c1 t (and there are at
      least two of them), a fit that succeeds returns exactly (c0, c1). */
  lemma PerfectLineRecovered(ys: seq<real>, c0: real, c1: real)
    requires |ys| >= 2
    requires forall j | 0 <= j < |ys| :: ys[j] == c0 + c1 * Time(j)
    ensures var n := |ys|;
      var x, xt, y := Design(n, 2), DesignTranspose(n, 2), Readings(ys);
      && CanFit(x, xt, y)
      && (LeastSquaresFit(x, xt, y).Ok? ==> LeastSquaresFit(x, xt, y).value == PhiHat(c0, c1))
  {
    var n := |ys|;
    var x, xt, y := Design(n, 2), DesignTranspose(n, 2), Readings(ys);
    DesignNormalEquations(ys);
    var a := NormalEquations(x, xt, y);
    DesignDeterminant(a, n);
    LineSolvesNormalEquations(ys, c0, c1);
    FitSolvesNormalEquations(ys);
    if LeastSquaresFit(x, xt, y).Ok? {
      var phi := LeastSquaresFit(x, xt, y).value;
      SolvesIsProduct(a, phi.c0, phi.c1);
      assert a[..2] == Product(xt, x) && a[2..] == Product(xt, y);
      SolutionIsUnique(a, phi.c0, phi.c1, c0, c1);
    }
  }

  /** With a single sample row 1 of the normal equations is all zeros, and
      the fit always ends in the unbound-`scale` error: at the second
      scale_row when the reading is not negative, and already at the first
      when it is, because the pivot search then finds the 0 in row 1 and
      swaps the zero row up. */
  lemma SingleSampleFails(y0: real)
    ensures CanFit(Design(1, 2), DesignTranspose(1, 2), Readings([y0]))
    ensures LeastSquaresFit(Design(1, 2), DesignTranspose(1, 2), Readings([y0])) == Raise(UnboundLocalError)
  {
    var x, xt, y := Design(1, 2), DesignTranspose(1, 2), Readings([y0]);
    DesignNormalEquations([y0]);
    var a := NormalEquations(x, xt, y);
    assert Dot(xt, y, 0, 0, 1) == y0 && Dot(xt, y, 0, 1, 1) == 0.0;
    assert a[0] == [1.0, 0.0] && a[1] == [0.0, 0.0] && a[2] == [y0, 0.0];
    assert a == [a[0], a[1], a[2]];
    SingleSampleForward(y0);
  }

  /** The forward pass on the single-sample normal equations reaches an
      all-zero row and raises. */
  lemma SingleSampleForward(y0: real)
    ensures Workable([[1.0, 0.0], [0.0, 0.0], [y0, 0.0]])
    ensures Forward([[1.0, 0.0], [0.0, 0.0], [y0, 0.0]], 0) == Raise(UnboundLocalError)
  {
    var a := [[1.0, 0.0], [0.0, 0.0], [y0, 0.0]];
    if y0 < 0.0 {
      assert LargestRowByCol(a, 2, 2, 0) == Ok(1);
      var s := Swapped(a, 0, 1);
      assert s[0] == [0.0, 1.0] && s[1] == [0.0, 0.0] && s[2] == [0.0, y0];
      assert ScaledRow(s, 0, 3) == Raise(UnboundLocalError);
    } else {
      assert LargestRowByCol(a, 2, 2, 0) == Ok(0);
      SwapSameRowIsNoOp(a, 0);
      assert ForwardStep(a, 0) == ScaleAndEliminate(a, 0);
      var m1 := ScaleAndEliminate(a, 0).value;
      assert m1[0][1] == 0.0 && m1[1][1] == 0.0 && m1[2][1] == 0.0;
      assert ForwardStep(m1, 1) == Raise(UnboundLocalError);
    }
  }
}
