/**
  What the least-squares driver computes for the systems the program
  actually builds: two unknowns (c0, c1), so an augmented matrix of three
  columns (XᵀX's two and Xᵀy's one) and two rows.

  For such a system with a non-zero determinant and non-zero column-0
  entries, the forward loop succeeds unless both right-hand sides are
  negative, and what get_phi_hat reads out then solves the system. For the
  design matrix of n >= 2 samples at times 0, 30, 60, ... these conditions
  hold, so the coefficients solve XᵀX c = Xᵀy, and samples lying exactly on
  a line give back that line.
 */
module TwoUnknowns {
  import opened Errors
  import opened MatrixMultiplication
  import opened LeastSquares

  /** An augmented 2-unknown system: coefficient columns 0 and 1, the
      right-hand side in column 2, two rows. */
  predicate System(m: Mat) {
    |m| == 3 && Rectangular(m, 2)
  }

  /** Equation k of the system holds at (c0, c1). */
  predicate Holds(m: Mat, k: nat, c0: real, c1: real)
    requires System(m) && k < 2
  {
    m[0][k] * c0 + m[1][k] * c1 == m[2][k]
  }

  /** (c0, c1) solves both equations. */
  predicate Solves(m: Mat, c0: real, c1: real)
    requires System(m)
  {
    Holds(m, 0, c0, c1) && Holds(m, 1, c0, c1)
  }

  /** The determinant of the coefficient block. */
  function Det(m: Mat): real
    requires System(m)
  {
    m[0][0] * m[1][1] - m[1][0] * m[0][1]
  }

  /** A system with a non-zero determinant has at most one solution. */
  lemma SolutionIsUnique(m: Mat, c0: real, c1: real, d0: real, d1: real)
    requires System(m) && Det(m) != 0.0
    requires Solves(m, c0, c1) && Solves(m, d0, d1)
    ensures c0 == d0 && c1 == d1
  {
    var e0, e1 := c0 - d0, c1 - d1;
    assert m[0][0] * e0 + m[1][0] * e1 == 0.0;
    assert m[0][1] * e0 + m[1][1] * e1 == 0.0;
    assert e0 * Det(m) == m[1][1] * (m[0][0] * e0 + m[1][0] * e1) - m[1][0] * (m[0][1] * e0 + m[1][1] * e1);
    assert e1 * Det(m) == m[0][0] * (m[0][1] * e0 + m[1][1] * e1) - m[0][1] * (m[0][0] * e0 + m[1][0] * e1);
  }

  /** Row k of a two-column product with one vector. */
  lemma DotOfTwo(lhs: Mat, x: seq<real>, k: nat)
    requires 2 <= |lhs| && |x| >= 2 && k < |lhs[0]| && k < |lhs[1]|
    ensures Dot(lhs, [x], 0, k, 2) == lhs[0][k] * x[0] + lhs[1][k] * x[1]
  {
    assert Dot(lhs, [x], 0, k, 1) == lhs[0][k] * x[0];
  }

  /** Solving the augmented system is solving `Product(coefficients, [c]) == rhs`. */
  lemma SolvesIsProduct(m: Mat, c0: real, c1: real)
    requires System(m)
    ensures CanMultiply(m[..2], [[c0, c1]])
    ensures Solves(m, c0, c1) <==> Product(m[..2], [[c0, c1]]) == m[2..]
  {
    var p := Product(m[..2], [[c0, c1]]);
    forall k | 0 <= k < 2
      ensures p[0][k] == m[0][k] * c0 + m[1][k] * c1
    {
      DotOfTwo(m[..2], [c0, c1], k);
    }
    if Solves(m, c0, c1) {
      assert p[0] == m[2];
    }
  }

  // ---------------------------------------------------------------------
  // The forward loop on a 2-unknown system
  // ---------------------------------------------------------------------

  /** With both right-hand sides negative the running maximum stays 0,
      which the augmented column does not contain: the pivot search raises
      ValueError, and so does the whole fit. */
  lemma NegativeRightHandSidesRaise(m: Mat)
    requires System(m) && m[2][0] < 0.0 && m[2][1] < 0.0
    ensures Workable(m) && Forward(m, 0) == Raise(ValueError)
  {
    assert RunningMax(m[2], 0, 2) == 0.0;
    assert LargestRowByCol(m, 2, 2, 0) == Raise(ValueError);
  }

  /** Otherwise the pivot search finds row 0 or row 1. */
  lemma PivotFound(m: Mat)
    requires System(m) && !(m[2][0] < 0.0 && m[2][1] < 0.0)
    ensures LargestRowByCol(m, 2, 2, 0).Ok? && LargestRowByCol(m, 2, 2, 0).value < 2
  {
    var best := RunningMax(m[2], 0, 2);
    if best == 0.0 {
      assert m[2][0] == 0.0 || m[2][1] == 0.0;
    }
    assert best in m[2];
  }

  /** Swapping the two rows keeps the solutions, both ways, and at most
      flips the determinant's sign. */
  lemma SwapKeepsSolutions(m: Mat, index: nat)
    requires System(m) && index < 2
    ensures System(Swapped(m, 0, index))
    ensures Swapped(m, 0, index)[0][0] == m[0][index]
    ensures Det(Swapped(m, 0, index)) == Det(m) || Det(Swapped(m, 0, index)) == -Det(m)
    ensures forall c0, c1 :: Solves(Swapped(m, 0, index), c0, c1) <==> Solves(m, c0, c1)
  {
  }

  /** `y` is `x` less `e` times `a`: what eliminate leaves in an entry
      below the pivot row, and what back_solve leaves in row 0. */
  predicate IsReduced(y: real, x: real, e: real, a: real) {
    y == x - e * a
  }

  /** scale_row on row 0 of a system whose row 0 starts with d != 0: the
      row (d, g | f) is divided by d, and row 1 is untouched. */
  lemma FirstRowScaled(m: Mat)
    requires System(m) && m[0][0] != 0.0
    ensures ScaledRow(m, 0, 3).Ok?
    ensures var t := ScaledRow(m, 0, 3).value;
      && System(t)
      && IsQuotient(t[1][0], m[1][0], m[0][0]) && IsQuotient(t[2][0], m[2][0], m[0][0])
      && t[0][1] == m[0][1] && t[1][1] == m[1][1] && t[2][1] == m[2][1]
  {
    assert FirstNonZero(m, 0, 3, 0) == Some(0);
    assert ScaledRow(m, 0, 3) == Ok(Scaled(m, 0, 3, m[0][0]));
  }

  /** eliminate below row 0 of a system: row 1 less `u[0][1]` (its
      column-0 entry) times row 0, then 0 in column 0. */
  lemma FirstRowEliminated(u: Mat)
    requires System(u)
    ensures CanEliminate(u, 0, 3)
    ensures var r := Eliminated(u, 0, 3);
      && System(r) && r[0] == [u[0][0], 0.0] && r[1][0] == u[1][0] && r[2][0] == u[2][0]
      && IsReduced(r[1][1], u[1][1], u[0][1], u[1][0])
      && IsReduced(r[2][1], u[2][1], u[0][1], u[2][0])
  {
    var r := Eliminated(u, 0, 3);
    assert r[0][0] == u[0][0] && r[0][1] == 0.0;
  }

  /** The pass on row 0 after the pivot search, when row 0 is (d, g | f)
      with d != 0 and row 1 is (e, h | i): row 0 becomes (1, a | b) with
      a = g / d and b = f / d, and row 1 becomes (0, h - e a | i - e b). */
  lemma FirstPass(m: Mat)
    requires System(m) && m[0][0] != 0.0
    ensures Workable(m) && ScaleAndEliminate(m, 0).Ok?
    ensures var r := ScaleAndEliminate(m, 0).value;
      && System(r) && r[0][0] == 1.0 && r[0][1] == 0.0
      && IsQuotient(r[1][0], m[1][0], m[0][0]) && IsQuotient(r[2][0], m[2][0], m[0][0])
      && IsReduced(r[1][1], m[1][1], m[0][1], r[1][0])
      && IsReduced(r[2][1], m[2][1], m[0][1], r[2][0])
  {
    FirstRowScaled(m);
    var t := ScaledRow(m, 0, 3).value;
    var u := t[0 := t[0][0 := 1.0]];
    assert u[0] == [1.0, m[0][1]];
    assert u[1] == t[1] && u[2] == t[2];
    FirstRowEliminated(u);
    assert ScaleAndEliminate(m, 0) == Ok(Eliminated(u, 0, 3));
  }

  /** The pass on row 1, the last row (so no pivot search), when row 1 is
      (0, p | q) with p != 0: row 1 becomes (0, 1 | q / p), row 0 is
      untouched, and nothing lies below it to eliminate. */
  lemma SecondPass(m: Mat)
    requires System(m) && m[0][1] == 0.0 && m[1][1] != 0.0
    ensures Workable(m) && ForwardStep(m, 1).Ok?
    ensures var r := ForwardStep(m, 1).value;
      && System(r) && r[0] == m[0] && r[1] == [m[1][0], 1.0]
      && r[2][0] == m[2][0] && IsQuotient(r[2][1], m[2][1], m[1][1])
  {
    assert Pivot(m, 1) == Ok(m);
    assert FirstNonZero(m, 1, 3, 0) == Some(1);
    var t := Scaled(m, 1, 3, m[1][1]);
    assert ScaledRow(m, 1, 3) == Ok(t);
    assert t[0][1] * m[1][1] == 0.0;
    var u := t[1 := t[1][1 := 1.0]];
    assert u[0] == m[0] by {
      assert t[0][1] == 0.0;
    }
    assert u[1] == [m[1][0], 1.0];
    assert Eliminated(u, 1, 3) == u;
  }

  /** back_solve and get_phi_hat on a 2-unknown system: c1 is the
      augmented entry of row 1, and c0 is row 0's augmented entry less
      `m[1][0]` times c1. */
  lemma BackSolveTwo(m: Mat)
    requires System(m)
    ensures CanBackSolve(m) && CanGetPhiHat(BackSolved(m))
    ensures var phi := GetPhiHat(BackSolved(m));
      phi.c1 == m[2][1] && IsReduced(phi.c0, m[2][0], m[1][0], m[2][1])
  {
    assert BackSolved(m) == BackStep(m, 1, 0);
  }

  /** The whole elimination on numbers. Row 0 of `s` is (d, g | f) with
      d != 0 and row 1 is (e, h | i); the first pass gives a = g / d,
      b = f / d, p = h - e a and q = i - e b, the second x1 = q / p, and
      back_solve x0 = b - a x1. The pivot p is not 0 exactly when the
      determinant of `s` is not, and then (x0, x1) solves `s`. */
  lemma EliminationAlgebra(s: Mat, a: real, b: real, p: real, q: real, x0: real, x1: real)
    requires System(s) && s[0][0] != 0.0
    requires IsQuotient(a, s[1][0], s[0][0]) && IsQuotient(b, s[2][0], s[0][0])
    requires IsReduced(p, s[1][1], s[0][1], a) && IsReduced(q, s[2][1], s[0][1], b)
    ensures p != 0.0 <==> Det(s) != 0.0
    ensures IsQuotient(x1, q, p) && IsReduced(x0, b, a, x1) ==> Solves(s, x0, x1)
  {
    var d, e, f, g, h, i := s[0][0], s[0][1], s[2][0], s[1][0], s[1][1], s[2][1];
    calc {
      p * d;
      h * d - e * (a * d);
      d * h - g * e;
    }
    if IsQuotient(x1, q, p) && IsReduced(x0, b, a, x1) {
      calc {
        d * x0 + g * x1;
        b * d - (a * d) * x1 + g * x1;
        f;
      }
      calc {
        e * x0 + h * x1;
        e * b + (h - e * a) * x1;
        e * b + x1 * p;
        i;
      }
    }
  }

  /** Scaling, eliminating and back-solving a system whose row 0 starts
      with a non-zero entry and whose determinant is not 0: both passes
      succeed and the coefficients solve the system. */
  lemma EliminationSolves(s: Mat)
    requires System(s) && s[0][0] != 0.0 && Det(s) != 0.0
    ensures Workable(s) && ScaleAndEliminate(s, 0).Ok?
    ensures Forward(ScaleAndEliminate(s, 0).value, 1).Ok?
    ensures
      var phi := GetPhiHat(BackSolved(Forward(ScaleAndEliminate(s, 0).value, 1).value));
      Solves(s, phi.c0, phi.c1)
  {
    FirstPass(s);
    var m1 := ScaleAndEliminate(s, 0).value;
    EliminationAlgebra(s, m1[1][0], m1[2][0], m1[1][1], m1[2][1], 0.0, 0.0);
    SecondPass(m1);
    var f2 := ForwardStep(m1, 1).value;
    assert Forward(m1, 1) == Ok(f2) by {
      assert Forward(f2, 2) == Ok(f2);
    }
    BackSolveTwo(f2);
    var phi := GetPhiHat(BackSolved(f2));
    EliminationAlgebra(s, m1[1][0], m1[2][0], m1[1][1], m1[2][1], phi.c0, phi.c1);
  }

  /** The forward loop, back_solve and get_phi_hat on a 2-unknown system
      whose column 0 has no zero and whose determinant is not 0: the fit
      raises exactly when both right-hand sides are negative, and then with
      ValueError from the pivot search; otherwise c0, c1 solve the system. */
  lemma FitOnSystem(m: Mat)
    requires System(m) && m[0][0] != 0.0 && m[0][1] != 0.0 && Det(m) != 0.0
    ensures Workable(m)
    ensures Forward(m, 0).Raise? <==> m[2][0] < 0.0 && m[2][1] < 0.0
    ensures Forward(m, 0).Raise? ==> Forward(m, 0).error == ValueError
    ensures Forward(m, 0).Ok? ==>
      var phi := GetPhiHat(BackSolved(Forward(m, 0).value));
      Solves(m, phi.c0, phi.c1)
  {
    if m[2][0] < 0.0 && m[2][1] < 0.0 {
      NegativeRightHandSidesRaise(m);
    } else {
      PivotFound(m);
      var index := LargestRowByCol(m, 2, 2, 0).value;
      var s := Swapped(m, 0, index);
      SwapKeepsSolutions(m, index);
      assert Pivot(m, 0) == Ok(s);
      EliminationSolves(s);
      assert ForwardStep(m, 0) == ScaleAndEliminate(s, 0);
    }
  }
}
