/** Gaussian elimination with partial pivoting as `luSolveCore` performs it
    (include/densematrix.h:914-1010), as a function of the matrix and the right-hand
    sides, and what it achieves. */
module Elimination {
  import opened Basics
  import opened LinearAlgebra

  function Abs(x: real): real { if x < 0.0 then -x else x }

  // -------------------------------------------------------------- the steps

  /** The scan of column `i` from row `j` on, `best` being the best row so far. */
  function PivotFrom(m: Matrix, i: nat, j: nat, best: nat): (p: nat)
    requires best < |m| && j <= |m| && forall r :: 0 <= r < |m| ==> i < |m[r]|
    ensures p < |m|
    decreases |m| - j
  {
    if j == |m| then best
    else if Abs(m[j][i]) > Abs(m[best][i]) then PivotFrom(m, i, j + 1, j)
    else PivotFrom(m, i, j + 1, best)
  }

  lemma {:induction false} PivotFromIsLargest(m: Matrix, i: nat, j: nat, best: nat)
    requires i <= best < |m| && i <= j <= |m| && forall r :: 0 <= r < |m| ==> i < |m[r]|
    requires best < j || best == i == j
    requires forall r :: i <= r < j ==> Abs(m[r][i]) <= Abs(m[best][i])
    requires forall r :: i <= r < best ==> Abs(m[r][i]) < Abs(m[best][i])
    ensures i <= PivotFrom(m, i, j, best)
    ensures forall r :: i <= r < PivotFrom(m, i, j, best) ==> Abs(m[r][i]) < Abs(m[PivotFrom(m, i, j, best)][i])
    ensures forall r :: i <= r < |m| ==> Abs(m[r][i]) <= Abs(m[PivotFrom(m, i, j, best)][i])
    decreases |m| - j
  {
    if j < |m| {
      PivotFromIsLargest(m, i, j + 1, if Abs(m[j][i]) > Abs(m[best][i]) then j else best);
    }
  }

  /** The first of the rows at or below the diagonal with the largest entry of column `i`. */
  function PivotRow(m: Matrix, i: nat): (p: nat)
    requires i < |m| && forall r :: 0 <= r < |m| ==> i < |m[r]|
    ensures i <= p < |m|
    ensures forall r :: i <= r < |m| ==> Abs(m[r][i]) <= Abs(m[p][i])
    ensures forall r :: i <= r < p ==> Abs(m[r][i]) < Abs(m[p][i])
  {
    PivotFromIsLargest(m, i, i, i);
    PivotFrom(m, i, i, i)
  }

  /** The multiple of the pivot row that cancels column `i` of row `k`. */
  function Multiplier(m: Matrix, k: nat, i: nat): (l: real)
    requires i < |m| && k < |m| && i < |m[k]| && i < |m[i]| && m[i][i] != 0.0
    ensures l * m[i][i] == m[k][i]
  {
    m[k][i] / m[i][i]
  }

  /** A row less `l` times the row `piv` from column `i` on; the multiplier takes the place
      of the entry it cancels. */
  function Reduced(row: Vec, l: real, piv: Vec, i: nat): (r: Vec)
    requires i < |row| == |piv|
    ensures |r| == |row|
  {
    seq(|row|, c requires 0 <= c < |row| =>
      if c < i then row[c] else if c == i then l else row[c] - l * piv[c])
  }

  /** row - l * piv. */
  function Less(row: Vec, l: real, piv: Vec): (r: Vec)
    requires |row| == |piv|
    ensures |r| == |row|
  {
    seq(|row|, c requires 0 <= c < |row| => row[c] - l * piv[c])
  }

  function ReduceBelow(m: Matrix, i: nat): (r: Matrix)
    requires i < |m| && Rect(m, |m|, |m|) && m[i][i] != 0.0
    ensures Rect(r, |m|, |m|)
  {
    seq(|m|, k requires 0 <= k < |m| => if k <= i then m[k] else Reduced(m[k], Multiplier(m, k, i), m[i], i))
  }

  function ReduceRhs(m: Matrix, b: Matrix, i: nat, w: nat): (r: Matrix)
    requires i < |m| && Rect(m, |m|, |m|) && Rect(b, |m|, w) && m[i][i] != 0.0
    ensures Rect(r, |m|, w)
  {
    seq(|m|, k requires 0 <= k < |m| => if k <= i then b[k] else Less(b[k], Multiplier(m, k, i), b[i]))
  }

  /** Matrix, right-hand sides and recorded interchanges after some steps; `ok` is false once
      a column without a pivot was met, and nothing changes from then on. */
  datatype State = State(ok: bool, m: Matrix, b: Matrix, perm: seq<int>)

  function Step(s: State, i: nat, n: nat, w: nat): (r: State)
    requires i < n == |s.perm| && Rect(s.m, n, n) && Rect(s.b, n, w)
    ensures Rect(r.m, n, n) && Rect(r.b, n, w) && |r.perm| == n
    ensures r.ok ==> r.perm == s.perm[i := PivotRow(s.m, i) + 1]
  {
    var p := PivotRow(s.m, i);
    if s.m[p][i] == 0.0 then State(false, s.m, s.b, s.perm)
    else
      var m, b := SwapRows(s.m, i, p), SwapRows(s.b, i, p);
      State(true, ReduceBelow(m, i), ReduceRhs(m, b, i, w), s.perm[i := p + 1])
  }

  /** The first `i` elimination steps, recording interchanges over `perm`. */
  function Eliminate(a: Matrix, b: Matrix, perm: seq<int>, i: nat, n: nat, w: nat): (s: State)
    requires i <= n == |perm| && Rect(a, n, n) && Rect(b, n, w)
    ensures Rect(s.m, n, n) && Rect(s.b, n, w) && |s.perm| == n
    ensures s.ok ==> IsPivotSequence(s.perm, i, n)
  {
    if i == 0 then State(true, a, b, perm)
    else
      var s := Eliminate(a, b, perm, i - 1, n, w);
      if s.ok then Step(s, i - 1, n, w) else s
  }

  // ---------------------------------------------- what the stored matrix means

  function ZeroedBefore(row: Vec, k: nat): (r: Vec)
    ensures |r| == |row|
  {
    seq(|row|, c requires 0 <= c < |row| => if c < k then 0.0 else row[c])
  }

  /** The eliminated matrix proper: stored multipliers read as the zeros they stand for. */
  function Echelon(m: Matrix, i: nat): (e: Matrix)
    requires Rect(m, |m|, |m|)
    ensures Rect(e, |m|, |m|)
    ensures forall r :: 0 <= r < |m| ==> e[r] == ZeroedBefore(m[r], Min(i, r))
  {
    seq(|m|, r requires 0 <= r < |m| => ZeroedBefore(m[r], Min(i, r)))
  }

  function Upper(m: Matrix): (u: Matrix)
    requires Rect(m, |m|, |m|)
    ensures Rect(u, |m|, |m|)
    ensures forall r :: 0 <= r < |m| ==> u[r] == ZeroedBefore(m[r], r)
  {
    seq(|m|, r requires 0 <= r < |m| => ZeroedBefore(m[r], r))
  }

  function UnitRow(row: Vec, k: nat): (r: Vec)
    ensures |r| == |row|
  {
    seq(|row|, c requires 0 <= c < |row| => if c < k then row[c] else if c == k then 1.0 else 0.0)
  }

  function UnitLower(m: Matrix): (l: Matrix)
    requires Rect(m, |m|, |m|)
    ensures Rect(l, |m|, |m|)
    ensures forall r :: 0 <= r < |m| ==> l[r] == UnitRow(m[r], r)
  {
    seq(|m|, r requires 0 <= r < |m| => UnitRow(m[r], r))
  }

  /** Every row of `p` is the combination of the first `Min(i, r)` rows of `g` given by the
      multipliers stored in row r of `m`, plus row r of `g`. */
  ghost predicate Combines(p: Matrix, m: Matrix, g: Matrix, i: nat, w: nat)
    requires Rect(m, |m|, |m|) && Rect(p, |m|, w) && Rect(g, |m|, w)
  {
    forall r, j {:trigger p[r][j]} :: 0 <= r < |m| && 0 <= j < w ==>
      p[r][j] == Sum(m[r], g, 0, Min(i, r), j) + g[r][j]
  }

  /** What the stored matrix `m` and right-hand sides `b` say after `i` steps about the
      interchanged originals `pa` and `pb`. */
  ghost predicate Explained(pa: Matrix, pb: Matrix, m: Matrix, b: Matrix, i: nat, w: nat)
  {
    && Rect(m, |m|, |m|) && Rect(pa, |m|, |m|) && Rect(b, |m|, w) && Rect(pb, |m|, w)
    && Combines(pa, m, Echelon(m, i), i, |m|)
    && Combines(pb, m, b, i, w)
    && i <= |m| && forall k :: 0 <= k < i ==> m[k][k] != 0.0
  }

  // -------------------------------------------------- one step keeps the meaning

  /** Interchanging two rows at or below step `i` interchanges the rows they explain. */
  lemma SwapCombines(p: Matrix, m: Matrix, g: Matrix, g': Matrix, i: nat, q: nat, w: nat)
    requires Rect(m, |m|, |m|) && Rect(p, |m|, w) && Rect(g, |m|, w) && i <= q < |m|
    requires Combines(p, m, g, i, w) && g' == SwapRows(g, i, q)
    ensures Rect(SwapRows(p, i, q), |m|, w) && Rect(SwapRows(m, i, q), |m|, |m|) && Rect(g', |m|, w)
    ensures Combines(SwapRows(p, i, q), SwapRows(m, i, q), g', i, w)
  {
    var p', m' := SwapRows(p, i, q), SwapRows(m, i, q);
    forall r, j | 0 <= r < |m| && 0 <= j < w
      ensures p'[r][j] == Sum(m'[r], g', 0, Min(i, r), j) + g'[r][j]
    {
      var r' := if r == i then q else if r == q then i else r;
      assert p'[r] == p[r'] && m'[r] == m[r'] && g'[r] == g[r'];
      assert p[r'][j] == Sum(m[r'], g, 0, Min(i, r'), j) + g[r'][j];
      SumSame(m[r'], m[r'], g, g', 0, Min(i, r'), j);
    }
  }

  /** Subtracting a multiple of row `i` from a lower row and storing the multiple explains
      the same matrix one step later. */
  lemma ReduceCombines(p: Matrix, m: Matrix, g: Matrix, m': Matrix, g': Matrix, i: nat, w: nat)
    requires Rect(m, |m|, |m|) && Rect(p, |m|, w) && Rect(g, |m|, w) && i < |m|
    requires Rect(m', |m|, |m|) && Rect(g', |m|, w)
    requires Combines(p, m, g, i, w)
    requires forall r :: 0 <= r <= i ==> m'[r] == m[r] && g'[r] == g[r]
    requires forall r, k {:trigger m'[r][k]} :: i < r < |m| && 0 <= k < i ==> m'[r][k] == m[r][k]
    requires forall r :: i < r < |m| ==> g'[r] == Less(g[r], m'[r][i], g[i])
    ensures Combines(p, m', g', i + 1, w)
  {
    forall r, j | 0 <= r < |m| && 0 <= j < w
      ensures p[r][j] == Sum(m'[r], g', 0, Min(i + 1, r), j) + g'[r][j]
    {
      SumSame(m'[r], m[r], g', g, 0, Min(i, r), j);
      if r > i {
        SumSplit(m'[r], g', 0, i, i + 1, j);
        SumOne(m'[r], g', i, j);
      }
    }
  }

  /** After the interchange the echelon rows are the interchanged echelon rows. */
  lemma SwapEchelon(m: Matrix, i: nat, q: nat)
    requires Rect(m, |m|, |m|) && i <= q < |m|
    ensures Rect(SwapRows(m, i, q), |m|, |m|)
    ensures Echelon(SwapRows(m, i, q), i) == SwapRows(Echelon(m, i), i, q)
  {
  }

  lemma ReducedRowEchelon(row: Vec, l: real, piv: Vec, i: nat)
    requires i < |row| == |piv| && l * piv[i] == row[i]
    ensures ZeroedBefore(Reduced(row, l, piv, i), i + 1) == Less(ZeroedBefore(row, i), l, ZeroedBefore(piv, i))
  {
    var r, t := ZeroedBefore(Reduced(row, l, piv, i), i + 1), Less(ZeroedBefore(row, i), l, ZeroedBefore(piv, i));
    forall c | 0 <= c < |row|
      ensures r[c] == t[c]
    {
      if c < i {
        assert ZeroedBefore(piv, i)[c] == 0.0;
      } else if c == i {
        assert t[c] == row[i] - l * piv[i];
      }
    }
  }

  lemma ReducedEchelon(m: Matrix, i: nat)
    requires Rect(m, |m|, |m|) && i < |m| && m[i][i] != 0.0
    ensures var m', e, e' := ReduceBelow(m, i), Echelon(m, i), Echelon(ReduceBelow(m, i), i + 1);
            && (forall r :: 0 <= r <= i ==> e'[r] == e[r])
            && (forall r :: i < r < |m| ==> e'[r] == Less(e[r], m'[r][i], e[i]))
  {
    var m', e, e' := ReduceBelow(m, i), Echelon(m, i), Echelon(ReduceBelow(m, i), i + 1);
    forall r | i < r < |m|
      ensures e'[r] == Less(e[r], m'[r][i], e[i])
    {
      ReducedRowEchelon(m[r], Multiplier(m, r, i), m[i], i);
    }
  }

  /** One step on the matrix: interchange rows i and q, reduce below row i. */
  lemma StepCombinesMatrix(p: Matrix, m: Matrix, i: nat, q: nat)
    requires Rect(m, |m|, |m|) && Rect(p, |m|, |m|) && i <= q < |m| && m[q][i] != 0.0
    requires Combines(p, m, Echelon(m, i), i, |m|)
    ensures Rect(SwapRows(m, i, q), |m|, |m|) && Rect(SwapRows(p, i, q), |m|, |m|)
    ensures var t := ReduceBelow(SwapRows(m, i, q), i);
            Combines(SwapRows(p, i, q), t, Echelon(t, i + 1), i + 1, |m|)
  {
    var m' := SwapRows(m, i, q);
    var t := ReduceBelow(m', i);
    SwapEchelon(m, i, q);
    SwapCombines(p, m, Echelon(m, i), Echelon(m', i), i, q, |m|);
    ReducedEchelon(m', i);
    ReduceCombines(SwapRows(p, i, q), m', Echelon(m', i), t, Echelon(t, i + 1), i, |m|);
  }

  lemma ReducedRhs(m: Matrix, b: Matrix, i: nat, w: nat)
    requires Rect(m, |m|, |m|) && Rect(b, |m|, w) && i < |m| && m[i][i] != 0.0
    ensures var m', b' := ReduceBelow(m, i), ReduceRhs(m, b, i, w);
            && (forall r :: 0 <= r <= i ==> m'[r] == m[r] && b'[r] == b[r])
            && (forall r, k {:trigger m'[r][k]} :: i < r < |m| && 0 <= k < i ==> m'[r][k] == m[r][k])
            && (forall r :: i < r < |m| ==> b'[r] == Less(b[r], m'[r][i], b[i]))
  {
  }

  /** The same step on the right-hand sides. */
  lemma StepCombinesRhs(p: Matrix, m: Matrix, b: Matrix, i: nat, q: nat, w: nat)
    requires Rect(m, |m|, |m|) && Rect(p, |m|, w) && Rect(b, |m|, w) && i <= q < |m| && m[q][i] != 0.0
    requires Combines(p, m, b, i, w)
    ensures Rect(SwapRows(m, i, q), |m|, |m|) && Rect(SwapRows(p, i, q), |m|, w) && Rect(SwapRows(b, i, q), |m|, w)
    ensures var m', b' := SwapRows(m, i, q), SwapRows(b, i, q);
            Combines(SwapRows(p, i, q), ReduceBelow(m', i), ReduceRhs(m', b', i, w), i + 1, w)
  {
    var m', b' := SwapRows(m, i, q), SwapRows(b, i, q);
    SwapCombines(p, m, b, b', i, q, w);
    ReducedRhs(m', b', i, w);
    ReduceCombines(SwapRows(p, i, q), m', b', ReduceBelow(m', i), ReduceRhs(m', b', i, w), i, w);
  }

  lemma StepExplained(pa: Matrix, pb: Matrix, m: Matrix, b: Matrix, i: nat, q: nat, w: nat)
    requires Explained(pa, pb, m, b, i, w) && i <= q < |m| && m[q][i] != 0.0
    ensures var m', b' := SwapRows(m, i, q), SwapRows(b, i, q);
            && Rect(m', |m|, |m|) && Rect(b', |m|, w)
            && Explained(SwapRows(pa, i, q), SwapRows(pb, i, q), ReduceBelow(m', i), ReduceRhs(m', b', i, w), i + 1, w)
  {
    StepCombinesMatrix(pa, m, i, q);
    StepCombinesRhs(pb, m, b, i, q, w);
  }

  lemma StartExplained(a: Matrix, b: Matrix, w: nat)
    requires Rect(a, |a|, |a|) && Rect(b, |a|, w)
    ensures Explained(a, b, a, b, 0, w)
  {
    forall r, j | 0 <= r < |a| && 0 <= j < w
      ensures b[r][j] == Sum(a[r], b, 0, Min(0, r), j) + b[r][j]
    {
    }
  }

  ghost predicate StateExplained(a: Matrix, b: Matrix, s: State, i: nat, w: nat)
    requires |a| == |b|
  {
    && IsPivotSequence(s.perm, i, |a|)
    && Explained(Replay(a, s.perm, i), Replay(b, s.perm, i), s.m, s.b, i, w)
  }

  lemma NextExplained(a: Matrix, b: Matrix, s: State, i: nat, n: nat, w: nat)
    requires i < n == |s.perm| == |a| == |b| && Rect(s.m, n, n) && Rect(s.b, n, w)
    requires StateExplained(a, b, s, i, w) && Step(s, i, n, w).ok
    ensures StateExplained(a, b, Step(s, i, n, w), i + 1, w)
  {
    var q := PivotRow(s.m, i);
    ReplayRecorded(a, s.perm, i, q);
    ReplayRecorded(b, s.perm, i, q);
    StepExplained(Replay(a, s.perm, i), Replay(b, s.perm, i), s.m, s.b, i, q, w);
  }

  /** At every step that is reached, the interchanged input is the stored unit-lower part
      times the eliminated matrix, although whole rows holding multipliers were swapped
      after the multipliers were stored. */
  lemma {:induction false} EliminateExplained(a: Matrix, b: Matrix, perm: seq<int>, i: nat, n: nat, w: nat)
    requires i <= n == |perm| && Rect(a, n, n) && Rect(b, n, w)
    requires Eliminate(a, b, perm, i, n, w).ok
    ensures StateExplained(a, b, Eliminate(a, b, perm, i, n, w), i, w)
  {
    if i == 0 {
      StartExplained(a, b, w);
    } else {
      var k := i - 1;
      var s := Eliminate(a, b, perm, k, n, w);
      EliminateExplained(a, b, perm, k, n, w);
      NextExplained(a, b, s, k, n, w);
      assert Eliminate(a, b, perm, i, n, w) == Step(s, k, n, w);
    }
  }
}
