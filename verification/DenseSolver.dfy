/** In-place factorisation and solution (include/densematrix.h:552-678 and 914-1010): the
    fallback loops, which run whenever the linear algebra library does not fit. */
module DenseSolver {
  import opened LinearAlgebra
  import opened Elimination
  import opened LuTheorems
  import opened PivotGrowth
  import opened DenseMatrixViews

  /** What is solved for along with the factorisation. A vector is a view of one column. */
  datatype Rhs = NoRhs | VectorRhs(view: MatrixView) | MatrixRhs(view: MatrixView)
  {
    /** The right-hand sides have the matrix's rows and none of its cells; they may lie in the
        same buffer. */
    ghost predicate Fits(a: MatrixView)
    {
      NoRhs? || (view.Valid() && view.rows == a.rows && a.Separate(view) && (VectorRhs? ==> view.cols == 1))
    }

    ghost function Objects(): set<object> { if NoRhs? then {} else {view.data} }

    function Width(): nat { if NoRhs? then 0 else view.cols }

    /** No right-hand side is a matrix without columns. */
    ghost function Grid(n: nat): (m: Matrix)
      reads Objects()
      requires !NoRhs? ==> view.Valid() && view.rows == n
      ensures Rect(m, n, Width())
    {
      if NoRhs? then Zero(n, 0) else view.Grid()
    }

    ghost function Cells(): seq<real>
      reads Objects()
    {
      if NoRhs? then [] else view.data[..]
    }

    /** Only cells of the right-hand sides have changed. */
    ghost predicate KeepsOutside(before: seq<real>, after: seq<real>)
    {
      NoRhs? || view.KeepsOutside(before, after)
    }

    /** Cells of `d` that belong neither to the matrix nor to the right-hand sides. */
    ghost predicate Foreign(a: MatrixView, d: array<real>, k: nat)
    {
      && (a.data == d ==> !a.Covers(k))
      && (!NoRhs? && view.data == d ==> !view.Covers(k))
    }

    /** No such cell of `d` has changed. */
    ghost predicate Keeps(a: MatrixView, d: array<real>, before: seq<real>, after: seq<real>)
    {
      && |before| == |after|
      && forall k {:trigger after[k]} :: 0 <= k < |after| && Foreign(a, d, k) ==> after[k] == before[k]
    }

    ghost predicate KeepsCells(a: MatrixView, before: seq<real>, after: seq<real>)
    {
      NoRhs? || Keeps(a, view.data, before, after)
    }

    lemma RhsWritten(a: MatrixView, before: seq<real>, after: seq<real>)
      requires !NoRhs? && Fits(a) && a.Valid() && |before| == view.data.Length && view.KeepsOutside(before, after)
      ensures a.data == view.data ==> a.GridOf(after) == a.GridOf(before)
    {
      if a.data == view.data {
        a.Undisturbed(view, before, after);
      }
    }

    lemma CellsWritten(a: MatrixView, before: seq<real>, after: seq<real>)
      requires KeepsOutside(before, after)
      ensures KeepsCells(a, before, after)
    {
    }

    lemma MatrixWritten(a: MatrixView, before: seq<real>, after: seq<real>)
      requires Fits(a) && a.Valid() && |before| == a.data.Length && a.KeepsOutside(before, after)
      ensures Keeps(a, a.data, before, after)
      ensures !NoRhs? && a.data == view.data ==> view.GridOf(after) == view.GridOf(before)
    {
      if !NoRhs? && a.data == view.data {
        a.SeparateBothWays(view);
        view.Undisturbed(a, before, after);
      }
    }

    method Exchange(a: MatrixView, i: nat, p: nat)
      requires a.Valid() && Fits(a) && i < a.rows && p < a.rows && i != p
      modifies Objects()
      ensures Grid(a.rows) == SwapRows(old(Grid(a.rows)), i, p)
      ensures a.Grid() == old(a.Grid())
      ensures KeepsOutside(old(Cells()), Cells())
    {
      if VectorRhs? {
        SwapElements(view, i, p);
      } else if MatrixRhs? {
        view.ExchangeRows(i, p);
      }
      if !NoRhs? {
        RhsWritten(a, old(view.data[..]), view.data[..]);
      }
    }

    /** row j += row i * fac. */
    method AddScaled(a: MatrixView, j: nat, i: nat, fac: real)
      requires a.Valid() && Fits(a) && i < a.rows && j < a.rows && i != j
      modifies Objects()
      ensures Grid(a.rows) == old(Grid(a.rows))[j := Less(old(Grid(a.rows))[j], -fac, old(Grid(a.rows))[i])]
      ensures a.Grid() == old(a.Grid())
      ensures KeepsOutside(old(Cells()), Cells())
    {
      if VectorRhs? {
        AddScaledElement(view, j, i, fac);
      } else if MatrixRhs? {
        view.AddScaledRow(j, i, fac);
      } else {
        assert Less([], -fac, []) == [];
      }
      if !NoRhs? {
        RhsWritten(a, old(view.data[..]), view.data[..]);
      }
    }

    /** row i /= d. */
    method Divide(a: MatrixView, i: nat, d: real)
      requires a.Valid() && Fits(a) && i < a.rows
      modifies Objects()
      ensures Grid(a.rows) == old(Grid(a.rows))[i := Scaled(old(Grid(a.rows))[i], Quotient(1.0, d))]
      ensures a.Grid() == old(a.Grid())
      ensures KeepsOutside(old(Cells()), Cells())
    {
      if VectorRhs? {
        DivideElement(view, i, d);
      } else if MatrixRhs? {
        view.ScaleRow(i, Quotient(1.0, d));
      } else {
        assert Scaled([], Quotient(1.0, d)) == [];
      }
      if !NoRhs? {
        RhsWritten(a, old(view.data[..]), view.data[..]);
      }
    }
  }

  method DivideElement(v: MatrixView, i: nat, d: real)
    requires v.Valid() && v.cols == 1 && i < v.rows
    modifies v.data
    ensures v.Grid() == old(v.Grid())[i := Scaled(old(v.Grid())[i], Quotient(1.0, d))]
    ensures v.KeepsOutside(old(v.data[..]), v.data[..])
  {
    ghost var target := Scaled(v.Grid()[i], Quotient(1.0, d));
    var x := v.Get(i, 0);
    var q := Quotient(x, d);
    TimesReciprocal(x, d);
    assert q == target[0];
    assert v.Grid()[i][0 := q] == target;
    v.Set(i, 0, q);
  }

  method SwapElements(v: MatrixView, i: nat, p: nat)
    requires v.Valid() && v.cols == 1 && i < v.rows && p < v.rows
    modifies v.data
    ensures v.Grid() == SwapRows(old(v.Grid()), i, p)
    ensures v.KeepsOutside(old(v.data[..]), v.data[..])
  {
    ghost var g := v.Grid();
    var tmp := v.Get(p, 0);
    var x := v.Get(i, 0);
    v.Set(p, 0, x);
    v.Set(i, 0, tmp);
    assert g[p][0 := x] == g[i] && g[i][0 := tmp] == g[p];
  }

  method AddScaledElement(v: MatrixView, j: nat, i: nat, fac: real)
    requires v.Valid() && v.cols == 1 && i < v.rows && j < v.rows && i != j
    modifies v.data
    ensures v.Grid() == old(v.Grid())[j := Less(old(v.Grid())[j], -fac, old(v.Grid())[i])]
    ensures v.KeepsOutside(old(v.data[..]), v.data[..])
  {
    ghost var target := Less(v.Grid()[j], -fac, v.Grid()[i]);
    var x := v.Get(j, 0);
    var y := v.Get(i, 0);
    var sum := Plus(x, fac, y);
    MinusNegative(x, fac, y);
    assert sum == target[0];
    assert v.Grid()[j][0 := sum] == target;
    v.Set(j, 0, sum);
  }

  // ------------------------------------------------------------- elimination

  /** The scan for the largest entry at or below the diagonal. */
  method FindPivot(a: MatrixView, i: nat) returns (pivI: nat, p: real)
    requires a.Valid() && a.rows == a.cols && i < a.rows
    ensures pivI == PivotRow(a.Grid(), i) && p == Abs(a.Grid()[pivI][i]) && i <= pivI < a.rows
    ensures forall r :: i <= r < a.rows ==> Abs(a.Grid()[r][i]) <= p
    ensures forall r :: i <= r < pivI ==> Abs(a.Grid()[r][i]) < p
  {
    ghost var m := a.Grid();
    pivI := i;
    var first := a.Get(pivI, i);
    p := Abs(first);
    for j := i to a.rows
      invariant pivI < a.rows && p == Abs(m[pivI][i])
      invariant PivotFrom(m, i, j, pivI) == PivotRow(m, i)
    {
      var x := a.Get(j, i);
      var cand := Abs(x);
      if cand > p {
        p := cand;
        pivI := j;
      }
    }
  }

  /** Eliminates column `i` from every row below row `i`. */
  method EliminateColumn(a: MatrixView, rhs: Rhs, i: nat)
    requires a.Valid() && a.rows == a.cols && i < a.rows && rhs.Fits(a) && a.Grid()[i][i] != 0.0
    modifies a.data, rhs.Objects()
    ensures a.Grid() == ReduceBelow(old(a.Grid()), i)
    ensures rhs.Grid(a.rows) == ReduceRhs(old(a.Grid()), old(rhs.Grid(a.rows)), i, rhs.Width())
    ensures rhs.Keeps(a, a.data, old(a.data[..]), a.data[..]) && rhs.KeepsCells(a, old(rhs.Cells()), rhs.Cells())
  {
    var n := a.rows;
    ghost var m, b := a.Grid(), rhs.Grid(n);
    ghost var m', b' := ReduceBelow(m, i), ReduceRhs(m, b, i, rhs.Width());
    for j := i + 1 to n
      invariant Halfway(a.Grid(), m', m, j) && Halfway(rhs.Grid(n), b', b, j)
      invariant rhs.Keeps(a, a.data, old(a.data[..]), a.data[..]) && rhs.KeepsCells(a, old(rhs.Cells()), rhs.Cells())
    {
      HalfwayNext(a.Grid(), m', m, j);
      HalfwayNext(rhs.Grid(n), b', b, j);
      EliminateNext(a, rhs, j, i, m, b);
    }
    HalfwayDone(a.Grid(), m', m);
    HalfwayDone(rhs.Grid(n), b', b);
  }

  /** The first `j` rows are those of `done`, the others are as before. */
  ghost predicate Halfway(now: Matrix, done: Matrix, before: Matrix, j: nat)
  {
    && |now| == |done| == |before|
    && forall r :: 0 <= r < |now| ==> now[r] == if r < j then done[r] else before[r]
  }

  lemma HalfwayNext(now: Matrix, done: Matrix, before: Matrix, j: nat)
    requires Halfway(now, done, before, j) && j < |now|
    ensures Halfway(now[j := done[j]], done, before, j + 1)
  {
  }

  lemma HalfwayDone(now: Matrix, done: Matrix, before: Matrix)
    requires Halfway(now, done, before, |now|)
    ensures now == done
  {
  }

  method EliminateRow(a: MatrixView, rhs: Rhs, j: nat, i: nat)
    requires a.Valid() && i < j < a.rows == a.cols && rhs.Fits(a) && a.Grid()[i][i] != 0.0
    modifies a.data, rhs.Objects()
    ensures var m, b := old(a.Grid()), old(rhs.Grid(a.rows));
            var l := Multiplier(m, j, i);
            a.Grid() == m[j := Reduced(m[j], l, m[i], i)] && rhs.Grid(a.rows) == b[j := Less(b[j], l, b[i])]
    ensures rhs.Keeps(a, a.data, old(a.data[..]), a.data[..]) && rhs.KeepsCells(a, old(rhs.Cells()), rhs.Cells())
  {
    var fac := a.ReduceRow(j, i);
    rhs.MatrixWritten(a, old(a.data[..]), a.data[..]);
    ghost var cells := rhs.Cells();
    rhs.AddScaled(a, j, i, fac);
    rhs.CellsWritten(a, cells, rhs.Cells());
  }

  /** Eliminating in row `j` only depends on that row and on row `i`. */
  lemma ReducedAt(g: Matrix, z: Matrix, m: Matrix, b: Matrix, i: nat, j: nat, w: nat)
    requires i < j < |m| == |g| && Rect(m, |m|, |m|) && Rect(b, |m|, w) && Rect(g, |m|, |m|) && Rect(z, |m|, w)
    requires m[i][i] != 0.0 && g[i] == m[i] && g[j] == m[j] && z[i] == b[i] && z[j] == b[j]
    ensures Reduced(g[j], Multiplier(g, j, i), g[i], i) == ReduceBelow(m, i)[j]
    ensures Less(z[j], Multiplier(g, j, i), z[i]) == ReduceRhs(m, b, i, w)[j]
  {
    assert Multiplier(g, j, i) == Multiplier(m, j, i);
  }

  /** Eliminates in one row, which with row `i` is still as it was in `m` and `b`. */
  method EliminateNext(a: MatrixView, rhs: Rhs, j: nat, i: nat, ghost m: Matrix, ghost b: Matrix)
    requires a.Valid() && i < j < a.rows == a.cols == |m| && rhs.Fits(a)
    requires Rect(m, |m|, |m|) && Rect(b, |m|, rhs.Width()) && m[i][i] != 0.0
    requires a.Grid()[i] == m[i] && a.Grid()[j] == m[j] && rhs.Grid(a.rows)[i] == b[i] && rhs.Grid(a.rows)[j] == b[j]
    modifies a.data, rhs.Objects()
    ensures a.Grid() == old(a.Grid())[j := ReduceBelow(m, i)[j]]
    ensures rhs.Grid(a.rows) == old(rhs.Grid(a.rows))[j := ReduceRhs(m, b, i, rhs.Width())[j]]
    ensures rhs.Keeps(a, a.data, old(a.data[..]), a.data[..]) && rhs.KeepsCells(a, old(rhs.Cells()), rhs.Cells())
  {
    ReducedAt(a.Grid(), rhs.Grid(a.rows), m, b, i, j, rhs.Width());
    EliminateRow(a, rhs, j, i);
  }

  method Interchange(a: MatrixView, rhs: Rhs, i: nat, p: nat)
    requires a.Valid() && i < a.rows && p < a.rows && rhs.Fits(a)
    modifies a.data, rhs.Objects()
    ensures a.Grid() == SwapRows(old(a.Grid()), i, p) && rhs.Grid(a.rows) == SwapRows(old(rhs.Grid(a.rows)), i, p)
    ensures rhs.Keeps(a, a.data, old(a.data[..]), a.data[..]) && rhs.KeepsCells(a, old(rhs.Cells()), rhs.Cells())
  {
    if p != i {
      a.ExchangeRows(i, p);
      rhs.MatrixWritten(a, old(a.data[..]), a.data[..]);
      ghost var cells := rhs.Cells();
      rhs.Exchange(a, i, p);
      rhs.CellsWritten(a, cells, rhs.Cells());
    }
  }

  /** Records row `p`, brings it up to row `i` and eliminates with it. */
  method Pivot(a: MatrixView, rhs: Rhs, rowPerm: Pivots, i: nat, p: nat)
    requires a.Valid() && a.rows == a.cols && i < a.rows && p < a.rows && rhs.Fits(a) && a.Grid()[p][i] != 0.0
    requires rowPerm.Fits(a.rows)
    modifies a.data, rhs.Objects(), rowPerm.Objects()
    ensures var m, b := SwapRows(old(a.Grid()), i, p), SwapRows(old(rhs.Grid(a.rows)), i, p);
            && Rect(m, a.rows, a.rows) && Rect(b, a.rows, rhs.Width())
            && a.Grid() == ReduceBelow(m, i) && rhs.Grid(a.rows) == ReduceRhs(m, b, i, rhs.Width())
    ensures rowPerm.Pivots? ==> rowPerm.Contents() == old(rowPerm.Contents())[i := p + 1]
    ensures rhs.Keeps(a, a.data, old(a.data[..]), a.data[..]) && rhs.KeepsCells(a, old(rhs.Cells()), rhs.Cells())
  {
    rowPerm.Record(i, p + 1);
    Interchange(a, rhs, i, p);
    EliminateColumn(a, rhs, i);
  }

  /** One elimination step; false when the column has no pivot. */
  method EliminateStep(a: MatrixView, rhs: Rhs, rowPerm: Pivots, i: nat, ghost perm: seq<int>)
    returns (ok: bool, ghost next: State)
    requires a.Valid() && a.rows == a.cols == |perm| && i < a.rows && rhs.Fits(a)
    requires rowPerm.Fits(a.rows) && (rowPerm.Pivots? ==> rowPerm.Contents() == perm)
    modifies a.data, rhs.Objects(), rowPerm.Objects()
    ensures next == Step(State(true, old(a.Grid()), old(rhs.Grid(a.rows)), perm), i, a.rows, rhs.Width())
    ensures ok == next.ok && a.Grid() == next.m && rhs.Grid(a.rows) == next.b
    ensures rowPerm.Pivots? ==> rowPerm.Contents() == next.perm
    ensures rhs.Keeps(a, a.data, old(a.data[..]), a.data[..]) && rhs.KeepsCells(a, old(rhs.Cells()), rhs.Cells())
  {
    ghost var m, b, n, w := a.Grid(), rhs.Grid(a.rows), a.rows, rhs.Width();
    var pivI, p := FindPivot(a, i);
    if p == 0.0 {
      StepStuck(m, b, perm, i, n, w);
      return false, State(false, m, b, perm);
    }
    Pivot(a, rhs, rowPerm, i, pivI);
    StepTaken(m, b, perm, i, pivI, n, w);
    ok, next := true, State(true, a.Grid(), rhs.Grid(n), perm[i := pivI + 1]);
  }

  lemma StepStuck(m: Matrix, b: Matrix, perm: seq<int>, i: nat, n: nat, w: nat)
    requires i < n == |perm| && Rect(m, n, n) && Rect(b, n, w) && Abs(m[PivotRow(m, i)][i]) == 0.0
    ensures Step(State(true, m, b, perm), i, n, w) == State(false, m, b, perm)
  {
  }

  lemma StepTaken(m: Matrix, b: Matrix, perm: seq<int>, i: nat, q: nat, n: nat, w: nat)
    requires i < n == |perm| && Rect(m, n, n) && Rect(b, n, w) && q == PivotRow(m, i) && m[q][i] != 0.0
    ensures var m', b' := SwapRows(m, i, q), SwapRows(b, i, q);
            && Rect(m', n, n) && Rect(b', n, w) && m'[i][i] != 0.0
            && Step(State(true, m, b, perm), i, n, w)
               == State(true, ReduceBelow(m', i), ReduceRhs(m', b', i, w), perm[i := q + 1])
  {
  }

  // ---------------------------------------------------------- back substitution

  /** Row `i` with its multiples of rows `lo` up to `j` taken off. */
  ghost function Remaining(m: Matrix, z: Matrix, i: nat, lo: nat, j: nat, w: nat): (r: Vec)
    requires Rect(m, |m|, |m|) && Rect(z, |m|, w) && i < |m| && j <= |m|
    ensures |r| == w
  {
    seq(w, c requires 0 <= c < w => z[i][c] - Sum(m[i], z, lo, j, c))
  }

  lemma RemainingStart(m: Matrix, z: Matrix, i: nat, lo: nat, w: nat)
    requires Rect(m, |m|, |m|) && Rect(z, |m|, w) && i < |m| && lo <= |m|
    ensures z == z[i := Remaining(m, z, i, lo, lo, w)]
  {
    assert Remaining(m, z, i, lo, lo, w) == z[i];
  }

  lemma RemainingNext(m: Matrix, z: Matrix, i: nat, lo: nat, j: nat, w: nat)
    requires Rect(m, |m|, |m|) && Rect(z, |m|, w) && i < |m| && lo <= j < |m|
    ensures Remaining(m, z, i, lo, j + 1, w) == Less(Remaining(m, z, i, lo, j, w), m[i][j], z[j])
  {
    var r, t := Remaining(m, z, i, lo, j + 1, w), Less(Remaining(m, z, i, lo, j, w), m[i][j], z[j]);
    forall c | 0 <= c < w
      ensures r[c] == t[c]
    {
    }
  }

  lemma RemainingDivided(m: Matrix, z: Matrix, i: nat, w: nat)
    requires Rect(m, |m|, |m|) && Rect(z, |m|, w) && i < |m|
    ensures Scaled(Remaining(m, z, i, i + 1, |m|, w), Quotient(1.0, m[i][i])) == BackRow(m, z, i, w)
  {
    var r := Remaining(m, z, i, i + 1, |m|, w);
    var q, t := Scaled(r, Quotient(1.0, m[i][i])), BackRow(m, z, i, w);
    forall c | 0 <= c < w
      ensures q[c] == t[c]
    {
      TimesReciprocal(r[c], m[i][i]);
    }
  }

  lemma TimesReciprocal(x: real, d: real)
    ensures x * Quotient(1.0, d) == Quotient(x, d)
  {
  }

  /** Solves row `i`, the rows below being solved: a matrix row is scaled by the reciprocal
      of the pivot, a vector element is divided by it. */
  method SolveRow(a: MatrixView, rhs: Rhs, i: nat)
    requires a.Valid() && a.rows == a.cols && i < a.rows && rhs.Fits(a)
    modifies rhs.Objects()
    ensures rhs.Grid(a.rows) == old(rhs.Grid(a.rows))[i := BackRow(a.Grid(), old(rhs.Grid(a.rows)), i, rhs.Width())]
    ensures a.Grid() == old(a.Grid())
    ensures rhs.KeepsOutside(old(rhs.Cells()), rhs.Cells())
  {
    var n := a.rows;
    ghost var m, z, w := a.Grid(), rhs.Grid(n), rhs.Width();
    RemainingStart(m, z, i, i + 1, w);
    for j := i + 1 to n
      invariant rhs.Grid(n) == z[i := Remaining(m, z, i, i + 1, j, w)]
      invariant a.Grid() == m && rhs.KeepsOutside(old(rhs.Cells()), rhs.Cells())
    {
      RemainingNext(m, z, i, i + 1, j, w);
      TakeOff(a, rhs, i, j);
    }
    RemainingDivided(m, z, i, w);
    var d := a.Get(i, i);
    rhs.Divide(a, i, d);
  }

  /** Takes the solved row `j` off row `i`. */
  method TakeOff(a: MatrixView, rhs: Rhs, i: nat, j: nat)
    requires a.Valid() && a.rows == a.cols && i < a.rows && j < a.rows && i != j && rhs.Fits(a)
    modifies rhs.Objects()
    ensures rhs.Grid(a.rows) == old(rhs.Grid(a.rows))[i :=
              Less(old(rhs.Grid(a.rows))[i], a.Grid()[i][j], old(rhs.Grid(a.rows))[j])]
    ensures a.Grid() == old(a.Grid())
    ensures rhs.KeepsOutside(old(rhs.Cells()), rhs.Cells())
  {
    var x := a.Get(i, j);
    rhs.AddScaled(a, i, j, -x);
  }

  method BackSubstitute(a: MatrixView, rhs: Rhs)
    requires a.Valid() && a.rows == a.cols && rhs.Fits(a)
    modifies rhs.Objects()
    ensures rhs.Grid(a.rows) == BackSubst(a.Grid(), old(rhs.Grid(a.rows)), a.rows, a.rows, rhs.Width())
    ensures a.Grid() == old(a.Grid())
    ensures rhs.KeepsOutside(old(rhs.Cells()), rhs.Cells())
  {
    var n := a.rows;
    ghost var m, y, w := a.Grid(), rhs.Grid(n), rhs.Width();
    for cnt := 0 to n
      invariant rhs.Grid(n) == BackSubst(m, y, n, cnt, w)
      invariant a.Grid() == m && rhs.KeepsOutside(old(rhs.Cells()), rhs.Cells())
    {
      var i := n - 1 - cnt;
      BackSubstNext(m, y, n, cnt, w, i);
      SolveRow(a, rhs, i);
    }
  }

  lemma BackSubstNext(m: Matrix, y: Matrix, top: nat, cnt: nat, w: nat, i: nat)
    requires i + cnt + 1 == top <= |m| && Rect(m, |m|, |m|) && Rect(y, |m|, w)
    ensures var z := BackSubst(m, y, top, cnt, w);
            BackSubst(m, y, top, cnt + 1, w) == z[i := BackRow(m, z, i, w)]
  {
  }

  // ----------------------------------------------------------------- the core

  /** Elimination of a square matrix of at least one row, then back substitution if there is
      something to solve for. `last` is the index of the last row. */
  method LuSolveCore(a: MatrixView, rhs: Rhs, rowPerm: Pivots, ghost perm: seq<int>, ghost last: nat)
    returns (ok: bool, ghost s: State)
    requires a.Valid() && a.rows == a.cols == |perm| == last + 1 && rhs.Fits(a)
    requires rowPerm.Fits(a.rows) && (rowPerm.Pivots? ==> rowPerm.Contents() == perm)
    modifies a.data, rhs.Objects(), rowPerm.Objects()
    ensures s == Eliminate(old(a.Grid()), old(rhs.Grid(a.rows)), perm, last, a.rows, rhs.Width())
    ensures ok == s.ok && a.Grid() == s.m
    ensures rowPerm.Pivots? ==> rowPerm.Contents() == s.perm
    ensures rhs.Grid(a.rows) == if ok then BackSubst(s.m, s.b, a.rows, a.rows, rhs.Width()) else s.b
    ensures rhs.Keeps(a, a.data, old(a.data[..]), a.data[..]) && rhs.KeepsCells(a, old(rhs.Cells()), rhs.Cells())
  {
    ok, s := EliminateAll(a, rhs, rowPerm, perm, last);
    if ok {
      ghost var cells := rhs.Cells();
      BackSubstitute(a, rhs);
      rhs.CellsWritten(a, cells, rhs.Cells());
    }
  }

  /** The elimination loop; the last row needs no step. */
  method EliminateAll(a: MatrixView, rhs: Rhs, rowPerm: Pivots, ghost perm: seq<int>, ghost last: nat)
    returns (ok: bool, ghost s: State)
    requires a.Valid() && a.rows == a.cols == |perm| == last + 1 && rhs.Fits(a)
    requires rowPerm.Fits(a.rows) && (rowPerm.Pivots? ==> rowPerm.Contents() == perm)
    modifies a.data, rhs.Objects(), rowPerm.Objects()
    ensures s == Eliminate(old(a.Grid()), old(rhs.Grid(a.rows)), perm, last, a.rows, rhs.Width())
    ensures ok == s.ok && a.Grid() == s.m && rhs.Grid(a.rows) == s.b
    ensures rowPerm.Pivots? ==> rowPerm.Contents() == s.perm
    ensures rhs.Keeps(a, a.data, old(a.data[..]), a.data[..]) && rhs.KeepsCells(a, old(rhs.Cells()), rhs.Cells())
  {
    var n := a.rows;
    ghost var m, b, w := a.Grid(), rhs.Grid(n), rhs.Width();
    s := State(true, m, b, perm);
    ok := true;
    for i := 0 to n - 1
      invariant s == Eliminate(m, b, perm, i, n, w) && s.ok && ok
      invariant a.Grid() == s.m && rhs.Grid(n) == s.b
      invariant rowPerm.Pivots? ==> rowPerm.Contents() == s.perm
      invariant rhs.Keeps(a, a.data, old(a.data[..]), a.data[..]) && rhs.KeepsCells(a, old(rhs.Cells()), rhs.Cells())
    {
      ok, s := EliminateStep(a, rhs, rowPerm, i, s.perm);
      if !ok {
        EliminateStuck(m, b, perm, i + 1, last, n, w);
        return;
      }
    }
  }

  /** Once a column without a pivot was met, nothing changes any more. */
  lemma {:induction false} EliminateStuck(a: Matrix, b: Matrix, perm: seq<int>, i: nat, k: nat, n: nat, w: nat)
    requires i <= k <= n == |perm| && Rect(a, n, n) && Rect(b, n, w)
    requires !Eliminate(a, b, perm, i, n, w).ok
    ensures Eliminate(a, b, perm, k, n, w) == Eliminate(a, b, perm, i, n, w)
  {
    if i < k {
      EliminateStuck(a, b, perm, i, k - 1, n, w);
    }
  }

  // ------------------------------------------------------------ the operations

  /** Factors the matrix in place. Success means that the columns before the last one are
      independent, which a singular matrix can satisfy. */
  method Factor(a: MatrixView, rowPerm: Pivots, ghost last: nat) returns (ok: bool)
    requires a.Valid() && a.rows == a.cols == last + 1 && rowPerm.Pivots? && rowPerm.Fits(a.rows)
    modifies a.data, rowPerm.Objects()
    ensures ok <==> LeadingIndependent(old(a.Grid()), last)
    ensures !ok ==> Singular(old(a.Grid()))
    ensures ok ==> IsPivotSequence(rowPerm.Contents(), last, a.rows)
    ensures ok ==> forall k :: 0 <= k < last ==> k < rowPerm.Contents()[k] <= a.rows
    ensures ok ==> Mul(UnitLower(a.Grid()), Upper(a.Grid()), a.rows) == Replay(old(a.Grid()), rowPerm.Contents(), last)
    ensures ok ==> (FullDiagonal(a.Grid()) <==> !Singular(old(a.Grid())))
    ensures ok ==> forall mx :: Within(old(a.Grid()), mx) ==> Limited(a.Grid(), mx)
    ensures var f := Factored(old(a.Grid()), old(rowPerm.Contents()), last, a.rows);
            ok == f.ok && a.Grid() == f.m && rowPerm.Contents() == f.perm
    ensures a.KeepsOutside(old(a.data[..]), a.data[..])
  {
    var n := a.rows;
    ghost var m, b, perm := a.Grid(), Zero(n, 0), rowPerm.Contents();
    ghost var s;
    ok, s := LuSolveCore(a, NoRhs, rowPerm, perm, last);
    RegularIffSolvable(m, b, perm, last, n, 0, s);
    if ok {
      FactorIsLowerUpper(m, b, perm, last, n, 0, s);
      DiagonalIsFull(m, b, perm, last, n, 0, s);
      PivotsAreBelow(m, b, perm, last, n, 0);
      forall mx | Within(m, mx)
        ensures Limited(s.m, mx)
      {
        GrowthIsBounded(m, b, perm, last, n, 0, s, mx);
      }
    }
  }

  /** Factors the matrix and solves for the right-hand sides in one pass; with a vector for
      the interchanges the outcome is that of factoring first and solving afterwards. */
  method FactorAndLuSolve(a: MatrixView, rhs: Rhs, rowPerm: Pivots, ghost last: nat) returns (ok: bool)
    requires a.Valid() && a.rows == a.cols == last + 1 && rhs.Fits(a) && rowPerm.Fits(a.rows)
    modifies a.data, rhs.Objects(), rowPerm.Objects()
    ensures ok <==> LeadingIndependent(old(a.Grid()), last)
    ensures !ok ==> Singular(old(a.Grid()))
    ensures !Singular(old(a.Grid())) ==> Mul(old(a.Grid()), rhs.Grid(a.rows), rhs.Width()) == old(rhs.Grid(a.rows))
    ensures ok ==> (FullDiagonal(a.Grid()) <==> !Singular(old(a.Grid())))
    ensures rowPerm.Pivots? ==>
              var f := Factored(old(a.Grid()), old(rowPerm.Contents()), last, a.rows);
              ok == f.ok && a.Grid() == f.m && rowPerm.Contents() == f.perm
    ensures ok && rowPerm.Pivots? ==>
              && IsPivotSequence(rowPerm.Contents(), last, a.rows)
              && Mul(UnitLower(a.Grid()), Upper(a.Grid()), a.rows) == Replay(old(a.Grid()), rowPerm.Contents(), last)
              && rhs.Grid(a.rows) == Solved(a.Grid(), rowPerm.Contents(), old(rhs.Grid(a.rows)), last, rhs.Width())
    ensures rhs.Keeps(a, a.data, old(a.data[..]), a.data[..]) && rhs.KeepsCells(a, old(rhs.Cells()), rhs.Cells())
  {
    var n := a.rows;
    ghost var m, b, w := a.Grid(), rhs.Grid(n), rhs.Width();
    ghost var perm := if rowPerm.Pivots? then rowPerm.Contents() else seq(n, _ => 1);
    ghost var s;
    ok, s := LuSolveCore(a, rhs, rowPerm, perm, last);
    RegularIffSolvable(m, b, perm, last, n, w, s);
    FusedEqualsSeparate(m, b, perm, last, n, w, s, Factored(m, perm, last, n));
    if ok {
      FactorIsLowerUpper(m, b, perm, last, n, w, s);
      DiagonalIsFull(m, b, perm, last, n, w, s);
      if s.m[last][last] != 0.0 {
        SolveIsExact(m, b, perm, rhs.Grid(n), last, n, w, s);
      }
    }
  }

  /** Ones where row and column number agree, zeros elsewhere. */
  ghost function Eye(rows: nat, cols: nat): (m: Matrix)
    ensures Rect(m, rows, cols)
    ensures rows == cols ==> m == Identity(rows)
  {
    seq(rows, r => seq(cols, c => if r == c then 1.0 else 0.0))
  }

  /** Overwrites a view, square or not, with the identity. */
  method SetIdentity(v: MatrixView)
    requires v.Valid()
    modifies v.data
    ensures v.Grid() == Eye(v.rows, v.cols)
    ensures forall r, c :: 0 <= r < v.rows && 0 <= c < v.cols ==> v.Grid()[r][c] == if r == c then 1.0 else 0.0
    ensures v.KeepsOutside(old(v.data[..]), v.data[..])
  {
    ghost var e := Eye(v.rows, v.cols);
    for i := 0 to v.rows
      invariant forall r :: 0 <= r < i ==> v.Grid()[r] == e[r]
      invariant v.KeepsOutside(old(v.data[..]), v.data[..])
    {
      ghost var g := v.Grid();
      NotYet(e[i], g[i], 0);
      for j := 0 to v.cols
        invariant v.Grid()[i] == Mixed(e[i], g[i], j)
        invariant forall r :: 0 <= r < v.rows && r != i ==> v.Grid()[r] == g[r]
        invariant v.KeepsOutside(old(v.data[..]), v.data[..])
      {
        MixedNext(e[i], g[i], j);
        v.Set(i, j, if i == j then 1.0 else 0.0);
      }
      AllMixed(e[i], g[i]);
    }
  }

  /** Inverts a matrix into another view. */
  method FactorAndInvert(a: MatrixView, result: MatrixView, rowPerm: Pivots, ghost last: nat) returns (ok: bool)
    requires a.Valid() && a.rows == a.cols == last + 1
    requires result.rows == result.cols == a.rows && MatrixRhs(result).Fits(a)
    requires rowPerm.Fits(a.rows)
    modifies a.data, result.data, rowPerm.Objects()
    ensures !ok ==> Singular(old(a.Grid()))
    ensures !Singular(old(a.Grid())) ==>
              && Mul(old(a.Grid()), result.Grid(), a.rows) == Identity(a.rows)
              && Mul(result.Grid(), old(a.Grid()), a.rows) == Identity(a.rows)
    ensures rowPerm.Pivots? ==>
              var f := Factored(old(a.Grid()), old(rowPerm.Contents()), last, a.rows);
              a.Grid() == f.m && rowPerm.Contents() == f.perm
    ensures ok <==> LeadingIndependent(old(a.Grid()), last)
    ensures MatrixRhs(result).Keeps(a, a.data, old(a.data[..]), a.data[..])
    ensures MatrixRhs(result).Keeps(a, result.data, old(result.data[..]), result.data[..])
  {
    var n := a.rows;
    SetIdentity(result);
    MatrixRhs(result).RhsWritten(a, old(result.data[..]), result.data[..]);
    ghost var m, e := a.Grid(), Identity(n);
    ghost var perm := if rowPerm.Pivots? then rowPerm.Contents() else seq(n, _ => 1);
    ghost var s;
    ok, s := LuSolveCore(a, MatrixRhs(result), rowPerm, perm, last);
    RegularIffSolvable(m, e, perm, last, n, n, s);
    EliminateIgnoresRhs(m, e, Zero(n, 0), perm, last, n, n, 0);
    if ok && s.m[last][last] != 0.0 {
      InverseIsTwoSided(m, perm, last, n, s);
    }
  }

  // ------------------------------------------------- solving from stored factors

  /** Replays the recorded interchanges on a vector. */
  method PermuteVector(v: MatrixView, rowPerm: Pivots, n: nat, ghost last: nat)
    requires v.Valid() && v.cols == 1 && v.rows == n == last + 1 && rowPerm.Pivots? && rowPerm.Fits(n)
    requires IsPivotSequence(rowPerm.Contents(), last, n)
    modifies v.data
    ensures v.Grid() == Replay(old(v.Grid()), rowPerm.Contents(), last)
    ensures v.KeepsOutside(old(v.data[..]), v.data[..])
  {
    ghost var b, perm := v.Grid(), rowPerm.Contents();
    for i := 0 to n - 1
      invariant v.Grid() == Replay(b, perm, i)
      invariant v.KeepsOutside(old(v.data[..]), v.data[..])
    {
      var partner := rowPerm.Partner(i);
      SwapElements(v, i, partner - 1);
    }
  }

  /** Forward substitution through the stored multipliers. */
  method ForwardSubstitute(a: MatrixView, v: MatrixView)
    requires a.Valid() && a.rows == a.cols && VectorRhs(v).Fits(a)
    modifies v.data
    ensures v.Grid() == ForwardSubst(a.Grid(), old(v.Grid()), a.rows, 1) && a.Grid() == old(a.Grid())
    ensures v.KeepsOutside(old(v.data[..]), v.data[..])
  {
    var n := a.rows;
    ghost var m, b := a.Grid(), v.Grid();
    for i := 0 to n
      invariant v.Grid() == ForwardSubst(m, b, i, 1) && a.Grid() == m
      invariant v.KeepsOutside(old(v.data[..]), v.data[..])
    {
      ghost var z := v.Grid();
      RemainingStart(m, z, i, 0, 1);
      for j := 0 to i
        invariant v.Grid() == z[i := Remaining(m, z, i, 0, j, 1)] && a.Grid() == m
        invariant v.KeepsOutside(old(v.data[..]), v.data[..])
      {
        RemainingNext(m, z, i, 0, j, 1);
        TakeOff(a, VectorRhs(v), i, j);
      }
      assert Remaining(m, z, i, 0, i, 1) == ForwardRow(m, z, i, 1);
    }
  }

  /** Solves for one vector given the factors and the interchanges: replay, forward, back.
      Whatever matrix they are the factors of, the result solves its equations. */
  method LuSolve(a: MatrixView, v: MatrixView, rowPerm: Pivots, ghost last: nat, ghost original: Matrix)
    requires a.Valid() && a.rows == a.cols == last + 1 && VectorRhs(v).Fits(a)
    requires rowPerm.Pivots? && rowPerm.Fits(a.rows)
    requires IsPivotSequence(rowPerm.Contents(), last, a.rows)
    modifies v.data
    ensures a.Grid() == old(a.Grid())
    ensures v.Grid() == Solved(a.Grid(), rowPerm.Contents(), old(v.Grid()), last, 1)
    ensures Rect(original, a.rows, a.rows) && FullDiagonal(a.Grid())
            && Mul(UnitLower(a.Grid()), Upper(a.Grid()), a.rows) == Replay(original, rowPerm.Contents(), last)
            ==> Mul(original, v.Grid(), 1) == old(v.Grid())
    ensures v.KeepsOutside(old(v.data[..]), v.data[..])
  {
    var n := a.rows;
    ghost var m, b, perm := a.Grid(), v.Grid(), rowPerm.Contents();
    ReplayRect(b, perm, last, 1);
    PermuteVector(v, rowPerm, n, last);
    VectorRhs(v).RhsWritten(a, old(v.data[..]), v.data[..]);
    ForwardSubstitute(a, v);
    BackSubstitute(a, VectorRhs(v));
    if Rect(original, n, n) && FullDiagonal(m) && Mul(UnitLower(m), Upper(m), n) == Replay(original, perm, last) {
      FactorsSolve(original, m, perm, b, last, 1);
    }
  }
}
