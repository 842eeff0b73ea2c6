/** What factoring, solving and failing mean (include/densematrix.h:552-678). */
module LuTheorems {
  import opened Basics
  import opened LinearAlgebra
  import opened Elimination

  // --------------------------------------------------------- triangular solves

  /** Division by a zero last pivot has no value here; nothing is claimed about it. */
  function Quotient(x: real, d: real): real { if d == 0.0 then 0.0 else x / d }

  /** Row `i` of the solution, the rows below being solved already. */
  function BackRow(m: Matrix, z: Matrix, i: nat, w: nat): (r: Vec)
    requires i < |m| && Rect(m, |m|, |m|) && Rect(z, |m|, w)
    ensures |r| == w
  {
    seq(w, j requires 0 <= j < w => Quotient(z[i][j] - Sum(m[i], z, i + 1, |m|, j), m[i][i]))
  }

  /** Back substitution over rows top-1 down to top-cnt. */
  function BackSubst(m: Matrix, y: Matrix, top: nat, cnt: nat, w: nat): (z: Matrix)
    requires cnt <= top <= |m| && Rect(m, |m|, |m|) && Rect(y, |m|, w)
    ensures Rect(z, |m|, w)
  {
    if cnt == 0 then y
    else
      var z := BackSubst(m, y, top, cnt - 1, w);
      z[top - cnt := BackRow(m, z, top - cnt, w)]
  }

  /** Row `i` of the unit-lower solution, the rows above being solved already. */
  function ForwardRow(m: Matrix, z: Matrix, i: nat, w: nat): (r: Vec)
    requires i < |m| && Rect(m, |m|, |m|) && Rect(z, |m|, w)
    ensures |r| == w
  {
    seq(w, j requires 0 <= j < w => z[i][j] - Sum(m[i], z, 0, i, j))
  }

  /** Forward substitution over the first `cnt` rows. */
  function ForwardSubst(m: Matrix, b: Matrix, cnt: nat, w: nat): (z: Matrix)
    requires cnt <= |m| && Rect(m, |m|, |m|) && Rect(b, |m|, w)
    ensures Rect(z, |m|, w)
  {
    if cnt == 0 then b
    else
      var z := ForwardSubst(m, b, cnt - 1, w);
      z[cnt - 1 := ForwardRow(m, z, cnt - 1, w)]
  }

  // --------------------------------------------------- what back substitution does

  lemma {:induction false} BackSubstFrame(m: Matrix, y: Matrix, top: nat, cnt: nat, w: nat, r: nat)
    requires cnt <= top <= |m| && Rect(m, |m|, |m|) && Rect(y, |m|, w) && r < |m|
    requires r >= top || r < top - cnt
    ensures BackSubst(m, y, top, cnt, w)[r] == y[r]
  {
    if cnt > 0 {
      BackSubstFrame(m, y, top, cnt - 1, w, r);
    }
  }

  /** Every row gone through satisfies its equation. */
  lemma {:induction false} BackSubstSolves(m: Matrix, y: Matrix, top: nat, cnt: nat, w: nat, r: nat, j: nat)
    requires cnt <= top <= |m| && Rect(m, |m|, |m|) && Rect(y, |m|, w)
    requires top - cnt <= r < top && j < w && m[r][r] != 0.0
    ensures Sum(m[r], BackSubst(m, y, top, cnt, w), r, |m|, j) == y[r][j]
  {
    var z, z' := BackSubst(m, y, top, cnt - 1, w), BackSubst(m, y, top, cnt, w);
    if r > top - cnt {
      BackSubstSolves(m, y, top, cnt - 1, w, r, j);
      SumSame(m[r], m[r], z, z', r, |m|, j);
    } else {
      BackSubstFrame(m, y, top, cnt - 1, w, r);
      SumSame(m[r], m[r], z, z', r + 1, |m|, j);
      SumSplit(m[r], z', r, r + 1, |m|, j);
      SumOne(m[r], z', r, j);
      assert m[r][r] * z'[r][j] == y[r][j] - Sum(m[r], z, r + 1, |m|, j);
    }
  }

  /** The equations of an upper triangular matrix without zeros on its diagonal have only
      one solution. */
  lemma {:induction false} BackSubstUnique(m: Matrix, x: Matrix, y: Matrix, cnt: nat, w: nat)
    requires cnt <= |m| && Rect(m, |m|, |m|) && Rect(x, |m|, w) && Rect(y, |m|, w)
    requires forall r :: 0 <= r < |m| ==> m[r][r] != 0.0
    requires forall r, j :: 0 <= r < |m| && 0 <= j < w ==> Sum(m[r], x, r, |m|, j) == y[r][j]
    ensures forall r :: |m| - cnt <= r < |m| ==> BackSubst(m, y, |m|, cnt, w)[r] == x[r]
  {
    if cnt > 0 {
      BackSubstUnique(m, x, y, cnt - 1, w);
      var i := |m| - cnt;
      var z := BackSubst(m, y, |m|, cnt - 1, w);
      BackSubstFrame(m, y, |m|, cnt - 1, w, i);
      forall j | 0 <= j < w
        ensures BackRow(m, z, i, w)[j] == x[i][j]
      {
        SumSame(m[i], m[i], z, x, i + 1, |m|, j);
        SumSplit(m[i], x, i, i + 1, |m|, j);
        SumOne(m[i], x, i, j);
        CancelFactor(m[i][i], x[i][j], Sum(m[i], x, i + 1, |m|, j), y[i][j]);
      }
      assert BackRow(m, z, i, w) == x[i];
    }
  }

  lemma CancelFactor(d: real, x: real, rest: real, y: real)
    requires d != 0.0 && y == d * x + rest
    ensures Quotient(y - rest, d) == x
  {
    assert d * x / d == x;
  }

  // ------------------------------------------------ what forward substitution does

  lemma {:induction false} ForwardSubstFrame(m: Matrix, b: Matrix, cnt: nat, w: nat, r: nat)
    requires cnt <= r < |m| && Rect(m, |m|, |m|) && Rect(b, |m|, w)
    ensures ForwardSubst(m, b, cnt, w)[r] == b[r]
  {
    if cnt > 0 {
      ForwardSubstFrame(m, b, cnt - 1, w, r);
    }
  }

  /** Forward substitution takes a combination of rows apart again. */
  lemma {:induction false} ForwardSubstUnique(m: Matrix, b: Matrix, y: Matrix, cnt: nat, w: nat)
    requires cnt <= |m| && Rect(m, |m|, |m|) && Rect(b, |m|, w) && Rect(y, |m|, w)
    requires forall r, j {:trigger b[r][j]} :: 0 <= r < |m| && 0 <= j < w ==> b[r][j] == Sum(m[r], y, 0, r, j) + y[r][j]
    ensures forall r :: 0 <= r < cnt ==> ForwardSubst(m, b, cnt, w)[r] == y[r]
  {
    if cnt > 0 {
      ForwardSubstUnique(m, b, y, cnt - 1, w);
      var i := cnt - 1;
      var z := ForwardSubst(m, b, i, w);
      ForwardSubstFrame(m, b, i, w, i);
      forall j | 0 <= j < w
        ensures ForwardRow(m, z, i, w)[j] == y[i][j]
      {
        SumSame(m[i], m[i], z, y, 0, i, j);
        assert b[i][j] == Sum(m[i], y, 0, i, j) + y[i][j];
      }
      assert ForwardRow(m, z, i, w) == y[i];
    }
  }

  // ------------------------------------------------------------- factorisation

  lemma EchelonIsUpper(m: Matrix, last: nat)
    requires Rect(m, |m|, |m|) && last + 1 == |m|
    ensures Echelon(m, last) == Upper(m)
  {
  }

  lemma UnitLowerRow(m: Matrix, g: Matrix, r: nat, j: nat)
    requires Rect(m, |m|, |m|) && r < |m| == |g| && forall k :: 0 <= k < |m| ==> j < |g[k]|
    ensures Sum(UnitRow(m[r], r), g, 0, |m|, j) == Sum(m[r], g, 0, r, j) + g[r][j]
  {
    var l := UnitRow(m[r], r);
    SumSplit(l, g, 0, r, |m|, j);
    SumSplit(l, g, r, r + 1, |m|, j);
    SumSame(l, m[r], g, g, 0, r, j);
    SumOne(l, g, r, j);
    SumOfZeros(l, g, r + 1, |m|, j);
  }

  /** When the elimination gets through, replaying the recorded interchanges on the original
      matrix gives exactly the product of the two stored triangles. */
  lemma FactorIsLowerUpper(a: Matrix, b: Matrix, perm: seq<int>, last: nat, n: nat, w: nat, s: State)
    requires last + 1 == n == |perm| && Rect(a, n, n) && Rect(b, n, w)
    requires s == Eliminate(a, b, perm, last, n, w) && s.ok
    ensures Mul(UnitLower(s.m), Upper(s.m), n) == Replay(a, s.perm, last)
  {
    EliminateExplained(a, b, perm, last, n, w);
    StateIsLowerUpper(a, b, s, last, w);
  }

  lemma StateIsLowerUpper(a: Matrix, b: Matrix, s: State, last: nat, w: nat)
    requires last + 1 == |a| == |b| == |s.m| && StateExplained(a, b, s, last, w)
    ensures Mul(UnitLower(s.m), Upper(s.m), |a|) == Replay(a, s.perm, last)
  {
    LowerUpperProduct(Replay(a, s.perm, last), s.m, last);
  }

  lemma LowerUpperProduct(p: Matrix, m: Matrix, last: nat)
    requires last + 1 == |m| && Rect(m, |m|, |m|) && Rect(p, |m|, |m|)
    requires Combines(p, m, Echelon(m, last), last, |m|)
    ensures Mul(UnitLower(m), Upper(m), |m|) == p
  {
    var n := |m|;
    EchelonIsUpper(m, last);
    forall r, j | 0 <= r < n && 0 <= j < n
      ensures Mul(UnitLower(m), Upper(m), n)[r][j] == p[r][j]
    {
      UnitLowerRow(m, Upper(m), r, j);
      assert p[r][j] == Sum(m[r], Upper(m), 0, Min(last, r), j) + Upper(m)[r][j];
    }
    SameMatrix(Mul(UnitLower(m), Upper(m), n), p, n, n);
  }

  /** The stored triangles: multipliers strictly below the diagonal, which is one in the lower
      factor; the upper factor on and above it. */
  lemma StoredTriangles(m: Matrix, r: nat, c: nat)
    requires Rect(m, |m|, |m|) && r < |m| && c < |m|
    ensures UnitLower(m)[r][c] == if c < r then m[r][c] else if c == r then 1.0 else 0.0
    ensures Upper(m)[r][c] == if c < r then 0.0 else m[r][c]
  {
  }

  /** Interchanges are recorded counting from 1, each with a row at or below its own. */
  lemma {:induction false} PivotsAreBelow(a: Matrix, b: Matrix, perm: seq<int>, i: nat, n: nat, w: nat)
    requires i <= n == |perm| && Rect(a, n, n) && Rect(b, n, w)
    requires Eliminate(a, b, perm, i, n, w).ok
    ensures forall k :: 0 <= k < i ==> k < Eliminate(a, b, perm, i, n, w).perm[k] <= n
    ensures forall k :: i <= k < n ==> Eliminate(a, b, perm, i, n, w).perm[k] == perm[k]
  {
    if i > 0 {
      var k := i - 1;
      var s := Eliminate(a, b, perm, k, n, w);
      PivotsAreBelow(a, b, perm, k, n, w);
      assert Eliminate(a, b, perm, i, n, w) == Step(s, k, n, w);
    }
  }

  /** A failing elimination stops at a column without a pivot and leaves everything as the
      steps before it had it. */
  lemma {:induction false} FailureStops(a: Matrix, b: Matrix, perm: seq<int>, i: nat, n: nat, w: nat) returns (k: nat)
    requires i <= n == |perm| && Rect(a, n, n) && Rect(b, n, w)
    requires !Eliminate(a, b, perm, i, n, w).ok
    ensures k < i
    ensures var s, t := Eliminate(a, b, perm, i, n, w), Eliminate(a, b, perm, k, n, w);
            && t.ok && s.m == t.m && s.b == t.b && s.perm == t.perm
            && forall r :: k <= r < n ==> s.m[r][k] == 0.0
  {
    k := i - 1;
    var t := Eliminate(a, b, perm, k, n, w);
    if t.ok {
      assert Eliminate(a, b, perm, i, n, w) == Step(t, k, n, w);
      NoPivotMeansZeros(t.m, k);
    } else {
      k := FailureStops(a, b, perm, k, n, w);
    }
  }

  // ------------------------------------------------------------ acting on vectors

  /** The interchanged matrix acts on `x` as the multipliers combine what the eliminated
      matrix does to `x`. */
  lemma ExplainedActs(p: Matrix, m: Matrix, i: nat, x: Matrix, w: nat)
    requires Rect(m, |m|, |m|) && Rect(p, |m|, |m|) && Rect(x, |m|, w)
    requires Combines(p, m, Echelon(m, i), i, |m|)
    ensures Combines(Mul(p, x, w), m, Mul(Echelon(m, i), x, w), i, w)
  {
    var e, n := Echelon(m, i), |m|;
    var ex := Mul(e, x, w);
    forall r, j | 0 <= r < n && 0 <= j < w
      ensures Mul(p, x, w)[r][j] == Sum(m[r], ex, 0, Min(i, r), j) + ex[r][j]
    {
      CombinationActs(m[r], e, e[r], Min(i, r), x, ex, j);
      assert p[r] == Combined(m[r], e, Min(i, r), e[r]);
    }
  }

  /** What is combined can be told from the combinations. */
  lemma CombinesInjective(p: Matrix, m: Matrix, g: Matrix, g': Matrix, last: nat, w: nat)
    requires last + 1 == |m| && Rect(m, |m|, |m|) && Rect(p, |m|, w) && Rect(g, |m|, w) && Rect(g', |m|, w)
    requires Combines(p, m, g, last, w) && Combines(p, m, g', last, w)
    ensures g == g'
  {
    CombinesForward(p, m, g, last, w);
    CombinesForward(p, m, g', last, w);
  }

  lemma CombinesForward(p: Matrix, m: Matrix, g: Matrix, last: nat, w: nat)
    requires last + 1 == |m| && Rect(m, |m|, |m|) && Rect(p, |m|, w) && Rect(g, |m|, w)
    requires Combines(p, m, g, last, w)
    ensures ForwardSubst(m, p, |m|, w) == g
  {
    forall r, j {:trigger p[r][j]} | 0 <= r < |m| && 0 <= j < w
      ensures p[r][j] == Sum(m[r], g, 0, r, j) + g[r][j]
    {
      assert Min(last, r) == r;
    }
    ForwardSubstUnique(m, p, g, |m|, w);
  }

  lemma CombinesFunctional(p: Matrix, p': Matrix, m: Matrix, g: Matrix, i: nat, w: nat)
    requires Rect(m, |m|, |m|) && Rect(p, |m|, w) && Rect(p', |m|, w) && Rect(g, |m|, w)
    requires Combines(p, m, g, i, w) && Combines(p', m, g, i, w)
    ensures p == p'
  {
    forall r, j | 0 <= r < |m| && 0 <= j < w
      ensures p[r][j] == p'[r][j]
    {
    }
    SameMatrix(p, p', |m|, w);
  }

  lemma UpperSum(m: Matrix, x: Matrix, r: nat, j: nat)
    requires Rect(m, |m|, |m|) && r < |m| == |x| && forall k :: 0 <= k < |m| ==> j < |x[k]|
    ensures Sum(ZeroedBefore(m[r], r), x, 0, |m|, j) == Sum(m[r], x, r, |m|, j)
  {
    var u := ZeroedBefore(m[r], r);
    SumSplit(u, x, 0, r, |m|, j);
    SumOfZeros(u, x, 0, r, j);
    SumSame(u, m[r], x, x, r, |m|, j);
  }

  // ------------------------------------------------------------------- solving

  ghost predicate FullDiagonal(m: Matrix)
    requires Rect(m, |m|, |m|)
  {
    forall r :: 0 <= r < |m| ==> m[r][r] != 0.0
  }

  lemma UpperEquations(m: Matrix, y: Matrix, x: Matrix, w: nat)
    requires Rect(m, |m|, |m|) && Rect(y, |m|, w) && Rect(x, |m|, w) && FullDiagonal(m)
    ensures Mul(Upper(m), x, w) == y <==> x == BackSubst(m, y, |m|, |m|, w)
  {
    var n := |m|;
    if Mul(Upper(m), x, w) == y {
      forall r, j | 0 <= r < n && 0 <= j < w
        ensures Sum(m[r], x, r, n, j) == y[r][j]
      {
        UpperSum(m, x, r, j);
        assert Mul(Upper(m), x, w)[r][j] == y[r][j];
      }
      BackSubstUnique(m, x, y, n, w);
    }
    if x == BackSubst(m, y, n, n, w) {
      forall r, j | 0 <= r < n && 0 <= j < w
        ensures Mul(Upper(m), x, w)[r][j] == y[r][j]
      {
        UpperSum(m, x, r, j);
        BackSubstSolves(m, y, n, n, w, r, j);
      }
      SameMatrix(Mul(Upper(m), x, w), y, n, w);
    }
  }

  /** With a full diagonal the computed matrix is the one and only solution. */
  lemma SolveIsExact(a: Matrix, b: Matrix, perm: seq<int>, x: Matrix, last: nat, n: nat, w: nat, s: State)
    requires last + 1 == n == |perm| && Rect(a, n, n) && Rect(b, n, w) && Rect(x, n, w)
    requires s == Eliminate(a, b, perm, last, n, w) && s.ok && s.m[last][last] != 0.0
    ensures Mul(a, x, w) == b <==> x == BackSubst(s.m, s.b, n, n, w)
  {
    EliminateExplained(a, b, perm, last, n, w);
    StateSolves(a, b, s, x, last, w);
  }

  lemma StateSolves(a: Matrix, b: Matrix, s: State, x: Matrix, last: nat, w: nat)
    requires last + 1 == |a| == |b| == |s.m| && StateExplained(a, b, s, last, w)
    requires Rect(a, |a|, |a|) && Rect(b, |a|, w) && Rect(x, |a|, w) && s.m[last][last] != 0.0
    ensures Mul(a, x, w) == b <==> x == BackSubst(s.m, s.b, |a|, |a|, w)
  {
    var pa, pb := Replay(a, s.perm, last), Replay(b, s.perm, last);
    ReplayMul(a, x, s.perm, last, w);
    if Mul(pa, x, w) == pb {
      ReplayInjective(Mul(a, x, w), b, s.perm, last);
    }
    ExplainedSolve(pa, pb, s.m, s.b, x, last, w);
  }

  lemma ExplainedSolve(pa: Matrix, pb: Matrix, m: Matrix, b: Matrix, x: Matrix, last: nat, w: nat)
    requires last + 1 == |m| && Explained(pa, pb, m, b, last, w) && Rect(x, |m|, w)
    requires m[last][last] != 0.0
    ensures Mul(pa, x, w) == pb <==> x == BackSubst(m, b, |m|, |m|, w)
  {
    EchelonIsUpper(m, last);
    ExplainedActs(pa, m, last, x, w);
    UpperEquations(m, b, x, w);
    if Mul(pa, x, w) == pb {
      CombinesInjective(pb, m, b, Mul(Upper(m), x, w), last, w);
    }
    if Mul(Upper(m), x, w) == b {
      CombinesFunctional(Mul(pa, x, w), pb, m, b, last, w);
    }
  }

  // ------------------------------------------------------ fused and separate solves

  /** The right-hand sides have no influence on the factorisation. */
  lemma {:induction false} EliminateIgnoresRhs(a: Matrix, b: Matrix, b': Matrix, perm: seq<int>, i: nat, n: nat,
                                               w: nat, w': nat)
    requires i <= n == |perm| && Rect(a, n, n) && Rect(b, n, w) && Rect(b', n, w')
    ensures var s, s' := Eliminate(a, b, perm, i, n, w), Eliminate(a, b', perm, i, n, w');
            s.ok == s'.ok && s.m == s'.m && s.perm == s'.perm
  {
    if i > 0 {
      var k := i - 1;
      EliminateIgnoresRhs(a, b, b', perm, k, n, w, w');
      var s, s' := Eliminate(a, b, perm, k, n, w), Eliminate(a, b', perm, k, n, w');
      if s.ok {
        StepIgnoresRhs(s, s', k, n, w, w');
      }
    }
  }

  lemma StepIgnoresRhs(s: State, s': State, i: nat, n: nat, w: nat, w': nat)
    requires i < n == |s.perm| && Rect(s.m, n, n) && Rect(s.b, n, w) && Rect(s'.b, n, w')
    requires s.m == s'.m && s.perm == s'.perm
    ensures var t, t' := Step(s, i, n, w), Step(s', i, n, w');
            t.ok == t'.ok && t.m == t'.m && t.perm == t'.perm
  {
  }

  /** The factorisation of a matrix on its own. */
  ghost function Factored(a: Matrix, perm: seq<int>, last: nat, n: nat): (s: State)
    requires last + 1 == n == |perm| && Rect(a, n, n)
    ensures Rect(s.m, n, n) && |s.perm| == n
    ensures s.ok ==> IsPivotSequence(s.perm, last, n)
  {
    Eliminate(a, Zero(n, 0), perm, last, n, 0)
  }

  /** What replay, forward and back substitution make of right-hand sides. */
  ghost function Solved(m: Matrix, perm: seq<int>, b: Matrix, last: nat, w: nat): (x: Matrix)
    requires Rect(m, |m|, |m|) && Rect(b, |m|, w) && IsPivotSequence(perm, last, |m|)
    ensures Rect(x, |m|, w)
  {
    ReplayRect(b, perm, last, w);
    BackSubst(m, ForwardSubst(m, Replay(b, perm, last), |m|, w), |m|, |m|, w)
  }

  /** Factoring first and solving from the factors afterwards gives what the one-pass
      solver gives. */
  lemma FusedEqualsSeparate(a: Matrix, b: Matrix, perm: seq<int>, last: nat, n: nat, w: nat, s: State, f: State)
    requires last + 1 == n == |perm| && Rect(a, n, n) && Rect(b, n, w)
    requires s == Eliminate(a, b, perm, last, n, w) && f == Factored(a, perm, last, n)
    ensures f.ok == s.ok && f.m == s.m && f.perm == s.perm
    ensures f.ok ==> Solved(f.m, f.perm, b, last, w) == BackSubst(s.m, s.b, n, n, w)
  {
    EliminateIgnoresRhs(a, b, Zero(n, 0), perm, last, n, w, 0);
    if s.ok {
      ReplayRect(b, s.perm, last, w);
      EliminateExplained(a, b, perm, last, n, w);
      StateForward(a, b, s, last, w);
    }
  }

  lemma StateForward(a: Matrix, b: Matrix, s: State, last: nat, w: nat)
    requires last + 1 == |a| == |b| == |s.m| && StateExplained(a, b, s, last, w)
    ensures ForwardSubst(s.m, Replay(b, s.perm, last), |a|, w) == s.b
  {
    CombinesForward(Replay(b, s.perm, last), s.m, s.b, last, w);
  }

  // ------------------------------------------------------------ failing honestly

  function UnitColumn(n: nat, i: nat): (v: Matrix)
    ensures Rect(v, n, 1)
  {
    seq(n, r => [if r == i then 1.0 else 0.0])
  }

  /** With no pivot in column `i`, solving the leading block against that column gives a
      column that the eliminated matrix sends to zero. */
  lemma EchelonKills(m: Matrix, i: nat)
    requires Rect(m, |m|, |m|) && i < |m|
    requires forall k :: 0 <= k < i ==> m[k][k] != 0.0
    requires forall r :: i <= r < |m| ==> m[r][i] == 0.0
    ensures Mul(Echelon(m, i), BackSubst(m, UnitColumn(|m|, i), i, i, 1), 1) == Zero(|m|, 1)
    ensures BackSubst(m, UnitColumn(|m|, i), i, i, 1)[i] == [1.0]
  {
    var n, e, u := |m|, Echelon(m, i), UnitColumn(|m|, i);
    var v := BackSubst(m, u, i, i, 1);
    BackSubstFrame(m, u, i, i, 1, i);
    forall r | 0 <= r < n
      ensures Sum(e[r], v, 0, n, 0) == 0.0
    {
      if r < i {
        BackSubstSolves(m, u, i, i, 1, r, 0);
        UpperSum(m, v, r, 0);
      } else {
        forall k | i < k < n
          ensures v[k][0] == 0.0
        {
          BackSubstFrame(m, u, i, i, 1, k);
        }
        NoColumn(m[r], v, i);
      }
    }
    SameMatrix(Mul(e, v, 1), Zero(n, 1), n, 1);
  }

  lemma NoColumn(row: Vec, v: Matrix, i: nat)
    requires i < |row| == |v| && Rect(v, |v|, 1) && row[i] == 0.0
    requires forall k :: i < k < |v| ==> v[k][0] == 0.0
    ensures Sum(ZeroedBefore(row, i), v, 0, |v|, 0) == 0.0
  {
    SumOfZeros(ZeroedBefore(row, i), v, 0, |v|, 0);
  }

  lemma CombinesNothing(p: Matrix, m: Matrix, i: nat, w: nat)
    requires Rect(m, |m|, |m|) && Rect(p, |m|, w) && Combines(p, m, Zero(|m|, w), i, w)
    ensures p == Zero(|m|, w)
  {
    var z := Zero(|m|, w);
    forall r, j | 0 <= r < |m| && 0 <= j < w
      ensures p[r][j] == z[r][j]
    {
      SumOfZeros(m[r], z, 0, Min(i, r), j);
      assert p[r][j] == Sum(m[r], z, 0, Min(i, r), j) + z[r][j];
    }
    SameMatrix(p, z, |m|, w);
  }

  lemma NullVector(a: Matrix, b: Matrix, s: State, i: nat, w: nat)
    requires i < |a| == |b| == |s.m| && Rect(a, |a|, |a|) && StateExplained(a, b, s, i, w)
    requires forall r :: i <= r < |a| ==> s.m[r][i] == 0.0
    ensures IsNullVector(a, BackSubst(s.m, UnitColumn(|a|, i), i, i, 1))
  {
    var n, pa := |a|, Replay(a, s.perm, i);
    var v := BackSubst(s.m, UnitColumn(n, i), i, i, 1);
    EchelonKills(s.m, i);
    ExplainedActs(pa, s.m, i, v, 1);
    CombinesNothing(Mul(pa, v, 1), s.m, i, 1);
    ReplayMul(a, v, s.perm, i, 1);
    ReplayZero(n, 1, s.perm, i);
    ReplayInjective(Mul(a, v, 1), Zero(n, 1), s.perm, i);
    assert v[i][0] != Zero(n, 1)[i][0];
  }

  lemma NoPivotMeansZeros(m: Matrix, i: nat)
    requires Rect(m, |m|, |m|) && i < |m| && m[PivotRow(m, i)][i] == 0.0
    ensures forall r :: i <= r < |m| ==> m[r][i] == 0.0
  {
    forall r | i <= r < |m|
      ensures m[r][i] == 0.0
    {
      assert Abs(m[r][i]) <= Abs(m[PivotRow(m, i)][i]);
    }
  }

  /** No nonzero combination of the columns before the last one vanishes: a null vector, if
      there is one, involves the last column. */
  ghost predicate LeadingIndependent(a: Matrix, last: nat)
    requires Rect(a, |a|, |a|) && last < |a|
  {
    forall v :: IsNullVector(a, v) ==> v[last][0] != 0.0
  }

  lemma StuckIsDependent(a: Matrix, b: Matrix, s: State, i: nat, last: nat, n: nat, w: nat)
    requires i < last < n == |a| == |b| == |s.perm| && Rect(a, n, n) && Rect(s.m, n, n) && Rect(s.b, n, w)
    requires StateExplained(a, b, s, i, w) && !Step(s, i, n, w).ok
    ensures Singular(a) && !LeadingIndependent(a, last)
  {
    NoPivotMeansZeros(s.m, i);
    NullVector(a, b, s, i, w);
    BackSubstFrame(s.m, UnitColumn(|a|, i), i, i, 1, last);
  }

  /** When the elimination reports failure, already the columns before the last one are
      dependent, and so the matrix is singular. */
  lemma {:induction false} FailureIsDependent(a: Matrix, b: Matrix, perm: seq<int>, i: nat, last: nat, n: nat, w: nat)
    requires i <= last < n == |perm| && Rect(a, n, n) && Rect(b, n, w)
    requires !Eliminate(a, b, perm, i, n, w).ok
    ensures Singular(a) && !LeadingIndependent(a, last)
  {
    var k := i - 1;
    var s := Eliminate(a, b, perm, k, n, w);
    if s.ok {
      assert Eliminate(a, b, perm, i, n, w) == Step(s, k, n, w);
      EliminateExplained(a, b, perm, k, n, w);
      StuckIsDependent(a, b, s, k, last, n, w);
    } else {
      FailureIsDependent(a, b, perm, k, last, n, w);
    }
  }

  /** A column that an upper triangular matrix sends to zero and that ends in zero is zero,
      if only the last diagonal entry may vanish. */
  lemma {:induction false} UpperKernel(m: Matrix, v: Matrix, last: nat, r: nat)
    requires last + 1 == |m| && Rect(m, |m|, |m|) && Rect(v, |m|, 1) && r <= last
    requires forall k :: 0 <= k < last ==> m[k][k] != 0.0
    requires v[last][0] == 0.0 && Mul(Upper(m), v, 1) == Zero(|m|, 1)
    ensures forall k :: r <= k <= last ==> v[k][0] == 0.0
    decreases last - r
  {
    if r < last {
      UpperKernel(m, v, last, r + 1);
      assert Mul(Upper(m), v, 1)[r][0] == 0.0;
      UpperSum(m, v, r, 0);
      SumSplit(m[r], v, r, r + 1, |m|, 0);
      SumOne(m[r], v, r, 0);
      SumOfZeros(m[r], v, r + 1, |m|, 0);
    }
  }

  lemma SuccessIsIndependent(a: Matrix, b: Matrix, s: State, last: nat, w: nat, v: Matrix)
    requires last + 1 == |a| == |b| == |s.m| && Rect(a, |a|, |a|) && StateExplained(a, b, s, last, w)
    requires IsNullVector(a, v)
    ensures v[last][0] != 0.0
  {
    var n, pa, z := |a|, Replay(a, s.perm, last), Zero(|a|, 1);
    ReplayMul(a, v, s.perm, last, 1);
    ReplayZero(n, 1, s.perm, last);
    EchelonIsUpper(s.m, last);
    ExplainedActs(pa, s.m, last, v, 1);
    ZeroCombines(s.m, last);
    CombinesInjective(z, s.m, Mul(Upper(s.m), v, 1), z, last, 1);
    if v[last][0] == 0.0 {
      UpperKernel(s.m, v, last, 0);
      SameMatrix(v, z, n, 1);
      assert false;
    }
  }

  lemma ZeroCombines(m: Matrix, i: nat)
    requires Rect(m, |m|, |m|)
    ensures Combines(Zero(|m|, 1), m, Zero(|m|, 1), i, 1)
  {
    var z := Zero(|m|, 1);
    forall r, j | 0 <= r < |m| && 0 <= j < 1
      ensures z[r][j] == Sum(m[r], z, 0, Min(i, r), j) + z[r][j]
    {
      SumOfZeros(m[r], z, 0, Min(i, r), j);
    }
  }

  /** Success is reported exactly when the columns before the last one are independent,
      whatever the last column is. */
  lemma SuccessIffIndependent(a: Matrix, b: Matrix, perm: seq<int>, last: nat, n: nat, w: nat)
    requires last + 1 == n == |perm| && Rect(a, n, n) && Rect(b, n, w)
    ensures Eliminate(a, b, perm, last, n, w).ok <==> LeadingIndependent(a, last)
  {
    var s := Eliminate(a, b, perm, last, n, w);
    if s.ok {
      EliminateExplained(a, b, perm, last, n, w);
      forall v | IsNullVector(a, v)
        ensures v[last][0] != 0.0
      {
        SuccessIsIndependent(a, b, s, last, w, v);
      }
    } else {
      FailureIsDependent(a, b, perm, last, last, n, w);
    }
  }

  /** The last pivot is never examined. Success together with a nonzero last pivot is exactly
      what tells a regular matrix from a singular one. */
  lemma RegularIffSolvable(a: Matrix, b: Matrix, perm: seq<int>, last: nat, n: nat, w: nat, s: State)
    requires last + 1 == n == |perm| && Rect(a, n, n) && Rect(b, n, w)
    requires s == Eliminate(a, b, perm, last, n, w)
    ensures !Singular(a) <==> s.ok && s.m[last][last] != 0.0
    ensures s.ok <==> LeadingIndependent(a, last)
  {
    SuccessIffIndependent(a, b, perm, last, n, w);
    if !s.ok {
      FailureIsDependent(a, b, perm, last, last, n, w);
    } else if s.m[last][last] == 0.0 {
      EliminateExplained(a, b, perm, last, n, w);
      ZeroLastPivot(a, b, s, last, w);
    } else {
      RegularHasNoNullVector(a, b, perm, last, n, w, s);
    }
  }

  lemma ZeroLastPivot(a: Matrix, b: Matrix, s: State, last: nat, w: nat)
    requires last + 1 == |a| == |b| == |s.m| && Rect(a, |a|, |a|) && StateExplained(a, b, s, last, w)
    requires s.m[last][last] == 0.0
    ensures Singular(a)
  {
    NullVector(a, b, s, last, w);
  }

  lemma RegularHasNoNullVector(a: Matrix, b: Matrix, perm: seq<int>, last: nat, n: nat, w: nat, s: State)
    requires last + 1 == n == |perm| && Rect(a, n, n) && Rect(b, n, w)
    requires s == Eliminate(a, b, perm, last, n, w) && s.ok && s.m[last][last] != 0.0
    ensures !Singular(a)
  {
    var z := Zero(n, 1);
    var t := Eliminate(a, z, perm, last, n, 1);
    EliminateIgnoresRhs(a, b, z, perm, last, n, w, 1);
    MulZero(a, n, 1);
    forall v | Rect(v, n, 1)
      ensures !IsNullVector(a, v)
    {
      SolveIsExact(a, z, perm, v, last, n, 1, t);
      SolveIsExact(a, z, perm, z, last, n, 1, t);
    }
  }

  /** The routine reports success on the 1 x 1 zero matrix, which has no inverse. */
  lemma SuccessOnSingular(perm: seq<int>)
    requires |perm| == 1
    ensures Eliminate([[0.0]], Zero(1, 0), perm, 0, 1, 0).ok
    ensures Singular([[0.0]])
  {
    var v: Matrix := [[1.0]];
    SumOfZeros([0.0], v, 0, 1, 0);
    assert Rect(v, 1, 1) && Rect([[0.0]], 1, 1);
    SameMatrix(Mul([[0.0]], v, 1), Zero(1, 1), 1, 1);
    assert v[0][0] != Zero(1, 1)[0][0];
    assert IsNullVector([[0.0]], v);
  }

  // ------------------------------------------------------------------- inverse

  /** Solving against the identity gives a two-sided inverse. */
  lemma InverseIsTwoSided(a: Matrix, perm: seq<int>, last: nat, n: nat, s: State)
    requires last + 1 == n == |perm| && Rect(a, n, n)
    requires s == Eliminate(a, Identity(n), perm, last, n, n) && s.ok && s.m[last][last] != 0.0
    ensures var r := BackSubst(s.m, s.b, n, n, n);
            Mul(a, r, n) == Identity(n) && Mul(r, a, n) == Identity(n)
  {
    var r, e := BackSubst(s.m, s.b, n, n, n), Identity(n);
    var t := Eliminate(a, a, perm, last, n, n);
    SolveIsExact(a, e, perm, r, last, n, n, s);
    EliminateIgnoresRhs(a, e, a, perm, last, n, n, n);
    MulIdentity(a, n);
    SolveIsExact(a, a, perm, e, last, n, n, t);
    MulAssociates(a, r, a, n, n);
    IdentityMul(a, n);
    SolveIsExact(a, a, perm, Mul(r, a, n), last, n, n, t);
  }

  // ------------------------------------------------- solving from stored factors

  lemma {:induction false} ForwardSubstSolves(m: Matrix, b: Matrix, cnt: nat, w: nat, r: nat, j: nat)
    requires cnt <= |m| && Rect(m, |m|, |m|) && Rect(b, |m|, w) && r < cnt && j < w
    ensures var y := ForwardSubst(m, b, cnt, w);
            b[r][j] == Sum(m[r], y, 0, r, j) + y[r][j]
  {
    var z, y := ForwardSubst(m, b, cnt - 1, w), ForwardSubst(m, b, cnt, w);
    SumSame(m[r], m[r], z, y, 0, r, j);
    if r < cnt - 1 {
      ForwardSubstSolves(m, b, cnt - 1, w, r, j);
    } else {
      ForwardSubstFrame(m, b, cnt - 1, w, r);
    }
  }

  lemma ForwardSubstCombines(m: Matrix, b: Matrix, last: nat, w: nat)
    requires last + 1 == |m| && Rect(m, |m|, |m|) && Rect(b, |m|, w)
    ensures Combines(b, m, ForwardSubst(m, b, |m|, w), last, w)
  {
    forall r, j {:trigger b[r][j]} | 0 <= r < |m| && 0 <= j < w
      ensures b[r][j] == Sum(m[r], ForwardSubst(m, b, |m|, w), 0, Min(last, r), j) + ForwardSubst(m, b, |m|, w)[r][j]
    {
      ForwardSubstSolves(m, b, |m|, w, r, j);
    }
  }

  lemma ProductCombines(p: Matrix, m: Matrix, last: nat)
    requires last + 1 == |m| && Rect(m, |m|, |m|) && p == Mul(UnitLower(m), Upper(m), |m|)
    ensures Combines(p, m, Echelon(m, last), last, |m|)
  {
    EchelonIsUpper(m, last);
    forall r, j {:trigger p[r][j]} | 0 <= r < |m| && 0 <= j < |m|
      ensures p[r][j] == Sum(m[r], Upper(m), 0, Min(last, r), j) + Upper(m)[r][j]
    {
      UnitLowerRow(m, Upper(m), r, j);
    }
  }

  /** Whatever matrix the stored triangles and interchanges factor, substitution through
      them solves its equations, for every right-hand side. */
  lemma FactorsSolve(a: Matrix, m: Matrix, perm: seq<int>, b: Matrix, last: nat, w: nat)
    requires last + 1 == |m| == |a| == |b| && Rect(m, |m|, |m|) && Rect(a, |m|, |m|) && Rect(b, |m|, w)
    requires IsPivotSequence(perm, last, |m|) && FullDiagonal(m)
    requires Mul(UnitLower(m), Upper(m), |m|) == Replay(a, perm, last)
    ensures Mul(a, Solved(m, perm, b, last, w), w) == b
  {
    ReplayRect(b, perm, last, w);
    var x := Solved(m, perm, b, last, w);
    var pa, pb := Replay(a, perm, last), Replay(b, perm, last);
    var y := ForwardSubst(m, pb, |m|, w);
    ProductCombines(pa, m, last);
    ForwardSubstCombines(m, pb, last, w);
    FactorsSolveReplayed(pa, pb, m, y, x, last, w);
    ReplayMul(a, x, perm, last, w);
    ReplayInjective(Mul(a, x, w), b, perm, last);
  }

  lemma FactorsSolveReplayed(pa: Matrix, pb: Matrix, m: Matrix, y: Matrix, x: Matrix, last: nat, w: nat)
    requires last + 1 == |m| && Rect(m, |m|, |m|) && Rect(pa, |m|, |m|) && Rect(pb, |m|, w) && Rect(y, |m|, w)
    requires Combines(pa, m, Echelon(m, last), last, |m|) && Combines(pb, m, y, last, w) && FullDiagonal(m)
    requires x == BackSubst(m, y, |m|, |m|, w)
    ensures Mul(pa, x, w) == pb
  {
    EchelonIsUpper(m, last);
    ExplainedActs(pa, m, last, x, w);
    UpperEquations(m, y, x, w);
    CombinesFunctional(Mul(pa, x, w), pb, m, y, last, w);
  }

  /** Pivots are nonzero; only the last diagonal entry can be zero after a success. */
  lemma DiagonalIsFull(a: Matrix, b: Matrix, perm: seq<int>, last: nat, n: nat, w: nat, s: State)
    requires last + 1 == n == |perm| && Rect(a, n, n) && Rect(b, n, w)
    requires s == Eliminate(a, b, perm, last, n, w) && s.ok
    ensures FullDiagonal(s.m) <==> s.m[last][last] != 0.0
  {
    EliminateExplained(a, b, perm, last, n, w);
    StateDiagonal(a, b, s, last, w);
  }

  lemma StateDiagonal(a: Matrix, b: Matrix, s: State, last: nat, w: nat)
    requires last + 1 == |a| == |b| == |s.m| && StateExplained(a, b, s, last, w)
    ensures FullDiagonal(s.m) <==> s.m[last][last] != 0.0
  {
  }
}
