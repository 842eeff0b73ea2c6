/** How large partial pivoting lets the stored entries get (include/densematrix.h:932-986). */
module PivotGrowth {
  import opened Basics
  import opened LinearAlgebra
  import opened Elimination

  function Limit(k: nat, mx: real): real
  {
    if k == 0 then mx else 2.0 * Limit(k - 1, mx)
  }

  lemma {:induction false} LimitIsPower(k: nat, mx: real)
    ensures Limit(k, mx) == (Power2(k) as real) * mx
  {
    if k > 0 {
      LimitIsPower(k - 1, mx);
    }
  }

  /** `k` multipliers of at most 1, then entries of at most `bound`. */
  ghost predicate TameRow(row: Vec, k: nat, bound: real)
  {
    && (forall c :: 0 <= c < k && c < |row| ==> Abs(row[c]) <= 1.0)
    && (forall c :: k <= c < |row| ==> Abs(row[c]) <= bound)
  }

  /** A row that took part in k steps may have grown by 2^k. */
  ghost predicate Tame(m: Matrix, i: nat, mx: real)
  {
    forall r :: 0 <= r < |m| ==> TameRow(m[r], Min(i, r), Limit(Min(i, r), mx))
  }

  lemma AbsProduct(l: real, y: real)
    requires Abs(l) <= 1.0
    ensures Abs(l * y) <= Abs(y)
  {
    AbsOfProduct(l, y);
    AtMost(Abs(l), Abs(y));
  }

  lemma AtMost(l: real, d: real)
    requires l <= 1.0 && 0.0 <= d
    ensures l * d <= d
  {
    assert (1.0 - l) * d >= 0.0;
  }

  lemma AbsDifference(x: real, y: real, l: real, bound: real)
    requires Abs(x) <= bound && Abs(y) <= bound && Abs(l) <= 1.0
    ensures Abs(x - l * y) <= 2.0 * bound
  {
    AbsProduct(l, y);
  }

  lemma MultiplierAtMostOne(l: real, x: real, d: real)
    requires d != 0.0 && l * d == x && Abs(x) <= Abs(d)
    ensures Abs(l) <= 1.0
  {
    if Abs(l) > 1.0 {
      var e := Abs(l) - 1.0;
      assert e * Abs(d) > 0.0;
      assert Abs(l) * Abs(d) == Abs(d) + e * Abs(d);
      AbsOfProduct(l, d);
      assert false;
    }
  }

  lemma AbsOfProduct(x: real, y: real)
    ensures Abs(x * y) == Abs(x) * Abs(y)
  {
    Signs(x, y);
    Signs(-x, y);
    Signs(x, -y);
    Signs(-x, -y);
    assert -x * y == -(x * y) && x * -y == -(x * y) && -x * -y == x * y;
  }

  lemma Signs(x: real, y: real)
    ensures x >= 0.0 && y >= 0.0 ==> x * y >= 0.0
  {
  }

  lemma ReducedEntryTame(row: Vec, l: real, piv: Vec, i: nat, bound: real, c: nat)
    requires i < |row| == |piv| && Abs(l) <= 1.0 && c < |row|
    requires TameRow(row, i, bound) && TameRow(piv, i, bound)
    ensures Abs(Reduced(row, l, piv, i)[c]) <= if c <= i then 1.0 else 2.0 * bound
  {
    if c > i {
      AbsDifference(row[c], piv[c], l, bound);
    }
  }

  lemma ReducedRowTame(row: Vec, l: real, piv: Vec, i: nat, bound: real)
    requires i < |row| == |piv| && Abs(l) <= 1.0
    requires TameRow(row, i, bound) && TameRow(piv, i, bound)
    ensures TameRow(Reduced(row, l, piv, i), i + 1, 2.0 * bound)
  {
    forall c | 0 <= c < |row|
      ensures Abs(Reduced(row, l, piv, i)[c]) <= if c <= i then 1.0 else 2.0 * bound
    {
      ReducedEntryTame(row, l, piv, i, bound, c);
    }
  }

  lemma SwapTame(m: Matrix, i: nat, q: nat, mx: real)
    requires i <= q < |m| && Tame(m, i, mx)
    ensures Tame(SwapRows(m, i, q), i, mx)
  {
    var m' := SwapRows(m, i, q);
    forall r | 0 <= r < |m|
      ensures TameRow(m'[r], Min(i, r), Limit(Min(i, r), mx))
    {
      var r' := if r == i then q else if r == q then i else r;
      assert m'[r] == m[r'] && Min(i, r) == Min(i, r');
    }
  }

  lemma ReduceRowTame(m: Matrix, i: nat, mx: real, r: nat)
    requires Rect(m, |m|, |m|) && i < r < |m| && m[i][i] != 0.0
    requires TameRow(m[i], i, Limit(i, mx)) && TameRow(m[r], i, Limit(i, mx))
    requires Abs(m[r][i]) <= Abs(m[i][i])
    ensures TameRow(ReduceBelow(m, i)[r], i + 1, Limit(i + 1, mx))
  {
    var l := Multiplier(m, r, i);
    MultiplierAtMostOne(l, m[r][i], m[i][i]);
    ReducedRowTame(m[r], l, m[i], i, Limit(i, mx));
  }

  lemma ReduceTame(m: Matrix, i: nat, mx: real)
    requires Rect(m, |m|, |m|) && i < |m| && m[i][i] != 0.0 && Tame(m, i, mx)
    requires forall r :: i <= r < |m| ==> Abs(m[r][i]) <= Abs(m[i][i])
    ensures Tame(ReduceBelow(m, i), i + 1, mx)
  {
    var m' := ReduceBelow(m, i);
    forall r | 0 <= r < |m|
      ensures TameRow(m'[r], Min(i + 1, r), Limit(Min(i + 1, r), mx))
    {
      assert TameRow(m[r], Min(i, r), Limit(Min(i, r), mx)) && TameRow(m[i], Min(i, i), Limit(Min(i, i), mx));
      if r > i {
        ReduceRowTame(m, i, mx, r);
      } else {
        assert m'[r] == m[r];
      }
    }
  }

  lemma StepTame(s: State, i: nat, n: nat, w: nat, mx: real)
    requires i < n == |s.perm| && Rect(s.m, n, n) && Rect(s.b, n, w) && Tame(s.m, i, mx)
    requires Step(s, i, n, w).ok
    ensures Tame(Step(s, i, n, w).m, i + 1, mx)
  {
    var q := PivotRow(s.m, i);
    var m' := SwapRows(s.m, i, q);
    SwapTame(s.m, i, q, mx);
    forall r | i <= r < n
      ensures Abs(m'[r][i]) <= Abs(m'[i][i])
    {
      var r' := if r == i then q else if r == q then i else r;
      assert m'[r] == s.m[r'];
    }
    ReduceTame(m', i, mx);
  }

  lemma {:induction false} EliminateTame(a: Matrix, b: Matrix, perm: seq<int>, i: nat, n: nat, w: nat, mx: real)
    requires i <= n == |perm| && Rect(a, n, n) && Rect(b, n, w)
    requires forall r :: 0 <= r < n ==> TameRow(a[r], 0, mx)
    requires Eliminate(a, b, perm, i, n, w).ok
    ensures Tame(Eliminate(a, b, perm, i, n, w).m, i, mx)
  {
    if i > 0 {
      var k := i - 1;
      EliminateTame(a, b, perm, k, n, w, mx);
      StepTame(Eliminate(a, b, perm, k, n, w), k, n, w, mx);
    }
  }

  ghost predicate Within(m: Matrix, mx: real)
  {
    forall r, c :: 0 <= r < |m| && 0 <= c < |m[r]| ==> Abs(m[r][c]) <= mx
  }

  /** Multipliers of at most 1 below the diagonal; row r of the upper part within 2^r times `mx`. */
  ghost predicate Limited(m: Matrix, mx: real)
  {
    forall r, c :: 0 <= r < |m| && 0 <= c < |m[r]| ==>
      Abs(m[r][c]) <= if c < r then 1.0 else (Power2(r) as real) * mx
  }

  /** Partial pivoting keeps every stored multiplier at most 1, and row r of the upper factor
      within 2^r times any bound on the entries of the original matrix. */
  lemma GrowthIsBounded(a: Matrix, b: Matrix, perm: seq<int>, last: nat, n: nat, w: nat, s: State, mx: real)
    requires last + 1 == n == |perm| && Rect(a, n, n) && Rect(b, n, w) && Within(a, mx)
    requires s == Eliminate(a, b, perm, last, n, w) && s.ok
    ensures Limited(s.m, mx)
  {
    EliminateTame(a, b, perm, last, n, w, mx);
    forall r, c | 0 <= r < n && 0 <= c < n
      ensures Abs(s.m[r][c]) <= if c < r then 1.0 else (Power2(r) as real) * mx
    {
      LimitIsPower(r, mx);
      TameEntry(s.m, last, mx, r, c);
    }
  }

  lemma TameEntry(m: Matrix, last: nat, mx: real, r: nat, c: nat)
    requires Rect(m, last + 1, last + 1) && Tame(m, last, mx) && r <= last && c <= last
    ensures c < r ==> Abs(m[r][c]) <= 1.0
    ensures r <= c ==> Abs(m[r][c]) <= Limit(r, mx)
  {
    assert Min(last, r) == r && TameRow(m[r], r, Limit(r, mx));
  }
}
