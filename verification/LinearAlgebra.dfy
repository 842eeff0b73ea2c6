/** Dense matrices over the reals as sequences of rows, with the textbook definitions the
    elimination routines are measured against. */
module LinearAlgebra {

  type Vec = seq<real>
  type Matrix = seq<seq<real>>

  predicate Rect(m: Matrix, rows: nat, cols: nat)
  {
    |m| == rows && forall i :: 0 <= i < rows ==> |m[i]| == cols
  }

  /** x[lo] * y[lo][j] + ... + x[hi-1] * y[hi-1][j]. */
  function Sum(x: Vec, y: Matrix, lo: nat, hi: nat, j: nat): real
    requires hi <= |x| && hi <= |y|
    requires forall k :: lo <= k < hi ==> j < |y[k]|
  {
    if hi <= lo then 0.0 else Sum(x, y, lo, hi - 1, j) + x[hi - 1] * y[hi - 1][j]
  }

  /** The matrix product. */
  function Mul(a: Matrix, b: Matrix, cols: nat): (p: Matrix)
    requires Rect(a, |a|, |b|) && Rect(b, |b|, cols)
    ensures Rect(p, |a|, cols)
    ensures forall i, j :: 0 <= i < |a| && 0 <= j < cols ==> p[i][j] == Sum(a[i], b, 0, |b|, j)
  {
    seq(|a|, i requires 0 <= i < |a| => RowTimes(a[i], b, cols))
  }

  function RowTimes(x: Vec, b: Matrix, cols: nat): (r: Vec)
    requires |x| == |b| && Rect(b, |b|, cols)
    ensures |r| == cols
    ensures forall j :: 0 <= j < cols ==> r[j] == Sum(x, b, 0, |b|, j)
  {
    seq(cols, j requires 0 <= j < cols => Sum(x, b, 0, |b|, j))
  }

  function Identity(n: nat): (m: Matrix)
    ensures Rect(m, n, n)
  {
    seq(n, i => seq(n, j => if i == j then 1.0 else 0.0))
  }

  function Zero(rows: nat, cols: nat): (m: Matrix)
    ensures Rect(m, rows, cols)
  {
    seq(rows, _ => seq(cols, _ => 0.0))
  }

  /** A nonzero column that the matrix sends to zero. */
  ghost predicate IsNullVector(a: Matrix, v: Matrix)
    requires Rect(a, |a|, |a|)
  {
    Rect(v, |a|, 1) && v != Zero(|a|, 1) && Mul(a, v, 1) == Zero(|a|, 1)
  }

  ghost predicate Singular(a: Matrix)
    requires Rect(a, |a|, |a|)
  {
    exists v :: IsNullVector(a, v)
  }

  lemma SameMatrix(a: Matrix, b: Matrix, rows: nat, cols: nat)
    requires Rect(a, rows, cols) && Rect(b, rows, cols)
    requires forall i, j :: 0 <= i < rows && 0 <= j < cols ==> a[i][j] == b[i][j]
    ensures a == b
  {
    forall i | 0 <= i < rows
      ensures a[i] == b[i]
    {
    }
  }

  // -------------------------------------------------------------------- sums

  lemma {:induction false} SumSame(x: Vec, x': Vec, y: Matrix, y': Matrix, lo: nat, hi: nat, j: nat)
    requires hi <= |x| && hi <= |x'| && hi <= |y| && hi <= |y'|
    requires forall k :: lo <= k < hi ==> j < |y[k]| && j < |y'[k]|
    requires forall k :: lo <= k < hi ==> x[k] == x'[k] && y[k][j] == y'[k][j]
    ensures Sum(x, y, lo, hi, j) == Sum(x', y', lo, hi, j)
  {
    if lo < hi {
      SumSame(x, x', y, y', lo, hi - 1, j);
    }
  }

  lemma {:induction false} SumOfZeros(x: Vec, y: Matrix, lo: nat, hi: nat, j: nat)
    requires hi <= |x| && hi <= |y|
    requires forall k :: lo <= k < hi ==> j < |y[k]|
    requires forall k :: lo <= k < hi ==> x[k] == 0.0 || y[k][j] == 0.0
    ensures Sum(x, y, lo, hi, j) == 0.0
  {
    if lo < hi {
      SumOfZeros(x, y, lo, hi - 1, j);
    }
  }

  lemma {:induction false} SumSplit(x: Vec, y: Matrix, lo: nat, mid: nat, hi: nat, j: nat)
    requires lo <= mid <= hi <= |x| && hi <= |y|
    requires forall k :: lo <= k < hi ==> j < |y[k]|
    ensures Sum(x, y, lo, hi, j) == Sum(x, y, lo, mid, j) + Sum(x, y, mid, hi, j)
  {
    if mid < hi {
      SumSplit(x, y, lo, mid, hi - 1, j);
    }
  }

  /** Sums are linear in the coefficients. */
  lemma {:induction false} SumLinear(p: Vec, a: Vec, b: Vec, t: real, y: Matrix, hi: nat, j: nat)
    requires hi <= |p| && hi <= |a| && hi <= |b| && hi <= |y|
    requires forall k :: 0 <= k < hi ==> j < |y[k]|
    requires forall k :: 0 <= k < hi ==> p[k] == a[k] + t * b[k]
    ensures Sum(p, y, 0, hi, j) == Sum(a, y, 0, hi, j) + t * Sum(b, y, 0, hi, j)
  {
    if 0 < hi {
      SumLinear(p, a, b, t, y, hi - 1, j);
      Distribute(a[hi - 1], t, b[hi - 1], y[hi - 1][j], Sum(b, y, 0, hi - 1, j));
    }
  }

  lemma Distribute(a: real, t: real, b: real, y: real, s: real)
    ensures (a + t * b) * y == a * y + t * (s + b * y) - t * s
  {
  }

  /** The combination of the first `s` rows of `g`, plus the row `e`. */
  function Combined(c: Vec, g: Matrix, s: nat, e: Vec): (p: Vec)
    requires s <= |c| && s <= |g| && forall i :: 0 <= i < s ==> |g[i]| == |e|
    ensures |p| == |e|
    ensures forall k :: 0 <= k < |p| ==> p[k] == Sum(c, g, 0, s, k) + e[k]
  {
    seq(|e|, k requires 0 <= k < |e| => Sum(c, g, 0, s, k) + e[k])
  }

  lemma CombinedNext(c: Vec, g: Matrix, s: nat, e: Vec)
    requires 0 < s <= |c| && s <= |g| && forall i :: 0 <= i < s ==> |g[i]| == |e|
    ensures var p, q := Combined(c, g, s, e), Combined(c, g, s - 1, e);
            forall k :: 0 <= k < |e| ==> p[k] == q[k] + c[s - 1] * g[s - 1][k]
  {
  }

  lemma SumGrows(x: Vec, y: Matrix, hi: nat, j: nat)
    requires 0 < hi <= |x| && hi <= |y| && forall k :: 0 <= k < hi ==> j < |y[k]|
    ensures Sum(x, y, 0, hi, j) == Sum(x, y, 0, hi - 1, j) + x[hi - 1] * y[hi - 1][j]
  {
  }

  /** One more row adds its multiple of what that row does. */
  lemma CombinationGrows(c: Vec, g: Matrix, e: Vec, s: nat, x: Matrix, gx: real, j: nat)
    requires 0 < s <= |c| && s <= |g| && |e| == |x|
    requires forall k :: 0 <= k < |x| ==> j < |x[k]|
    requires forall i :: 0 <= i < s ==> |g[i]| == |x|
    requires gx == Sum(g[s - 1], x, 0, |x|, j)
    ensures Sum(Combined(c, g, s, e), x, 0, |x|, j)
         == Sum(Combined(c, g, s - 1, e), x, 0, |x|, j) + c[s - 1] * gx
  {
    CombinedNext(c, g, s, e);
    SumLinear(Combined(c, g, s, e), Combined(c, g, s - 1, e), g[s - 1], c[s - 1], x, |x|, j);
  }

  /** A combination of rows acts on a matrix as the same combination of what they do. */
  lemma {:induction false} CombinationActs(c: Vec, g: Matrix, e: Vec, s: nat, x: Matrix, gx: Matrix, j: nat)
    requires s <= |c| && s <= |g| && s <= |gx| && |e| == |x|
    requires forall k :: 0 <= k < |x| ==> j < |x[k]|
    requires forall i :: 0 <= i < s ==> |g[i]| == |x| && j < |gx[i]| && gx[i][j] == Sum(g[i], x, 0, |x|, j)
    ensures Sum(Combined(c, g, s, e), x, 0, |x|, j) == Sum(c, gx, 0, s, j) + Sum(e, x, 0, |x|, j)
    decreases s
  {
    var p := Combined(c, g, s, e);
    if s == 0 {
      SumSame(p, e, x, x, 0, |x|, j);
    } else {
      CombinationActs(c, g, e, s - 1, x, gx, j);
      CombinationGrows(c, g, e, s, x, gx[s - 1][j], j);
      SumGrows(c, gx, s, j);
    }
  }

  /** The matrix product is associative. */
  lemma MulAssociates(a: Matrix, b: Matrix, x: Matrix, cols: nat, w: nat)
    requires Rect(a, |a|, |b|) && Rect(b, |b|, cols) && Rect(x, cols, w)
    ensures Mul(Mul(a, b, cols), x, w) == Mul(a, Mul(b, x, w), w)
  {
    var ab, bx := Mul(a, b, cols), Mul(b, x, w);
    forall i, j | 0 <= i < |a| && 0 <= j < w
      ensures Sum(ab[i], x, 0, cols, j) == Sum(a[i], bx, 0, |b|, j)
    {
      var zeros := seq(cols, _ => 0.0);
      CombinationActs(a[i], b, zeros, |b|, x, bx, j);
      SumOfZeros(zeros, x, 0, cols, j);
      assert ab[i] == Combined(a[i], b, |b|, zeros);
    }
    SameMatrix(Mul(ab, x, w), Mul(a, bx, w), |a|, w);
  }

  lemma MulIdentity(a: Matrix, n: nat)
    requires Rect(a, |a|, n)
    ensures Mul(a, Identity(n), n) == a
  {
    forall i, j | 0 <= i < |a| && 0 <= j < n
      ensures Sum(a[i], Identity(n), 0, n, j) == a[i][j]
    {
      SumSplit(a[i], Identity(n), 0, j, n, j);
      SumSplit(a[i], Identity(n), j, j + 1, n, j);
      SumOfZeros(a[i], Identity(n), 0, j, j);
      SumOfZeros(a[i], Identity(n), j + 1, n, j);
      SumOne(a[i], Identity(n), j, j);
    }
    SameMatrix(Mul(a, Identity(n), n), a, |a|, n);
  }

  lemma IdentityMul(a: Matrix, w: nat)
    requires Rect(a, |a|, w)
    ensures Mul(Identity(|a|), a, w) == a
  {
    var e, n := Identity(|a|), |a|;
    forall i, j | 0 <= i < n && 0 <= j < w
      ensures Sum(e[i], a, 0, n, j) == a[i][j]
    {
      SumSplit(e[i], a, 0, i, n, j);
      SumSplit(e[i], a, i, i + 1, n, j);
      SumOfZeros(e[i], a, 0, i, j);
      SumOfZeros(e[i], a, i + 1, n, j);
      SumOne(e[i], a, i, j);
    }
    SameMatrix(Mul(e, a, w), a, n, w);
  }

  lemma MulZero(a: Matrix, rows: nat, w: nat)
    requires Rect(a, |a|, rows)
    ensures Mul(a, Zero(rows, w), w) == Zero(|a|, w)
  {
    forall i, j | 0 <= i < |a| && 0 <= j < w
      ensures Sum(a[i], Zero(rows, w), 0, rows, j) == 0.0
    {
      SumOfZeros(a[i], Zero(rows, w), 0, rows, j);
    }
    SameMatrix(Mul(a, Zero(rows, w), w), Zero(|a|, w), |a|, w);
  }

  lemma SumOne(x: Vec, y: Matrix, k: nat, j: nat)
    requires k < |x| && k < |y| && j < |y[k]|
    ensures Sum(x, y, k, k + 1, j) == x[k] * y[k][j]
  {
    assert Sum(x, y, k, k, j) == 0.0;
  }

  // ------------------------------------------------------------ interchanges

  function SwapRows(m: Matrix, i: nat, p: nat): (r: Matrix)
    requires i < |m| && p < |m|
    ensures |r| == |m| && r[i] == m[p] && r[p] == m[i]
    ensures forall k :: 0 <= k < |m| && k != i && k != p ==> r[k] == m[k]
  {
    m[i := m[p]][p := m[i]]
  }

  /** The first `k` entries are interchange partners in LAPACK's convention: 1-based,
      entry i the row exchanged with row i at step i. */
  ghost predicate IsPivotSequence(perm: seq<int>, k: nat, n: nat)
  {
    k <= |perm| && k <= n && forall i :: 0 <= i < k ==> 1 <= perm[i] <= n
  }

  /** The first `k` interchanges, in order. */
  function Replay(m: Matrix, perm: seq<int>, k: nat): (r: Matrix)
    requires IsPivotSequence(perm, k, |m|)
    ensures |r| == |m|
  {
    if k == 0 then m
    else SwapRows(Replay(m, perm, k - 1), k - 1, perm[k - 1] - 1)
  }

  /** Only the first `k` partners matter. */
  lemma {:induction false} ReplayPrefix(m: Matrix, perm: seq<int>, perm': seq<int>, k: nat)
    requires IsPivotSequence(perm, k, |m|) && IsPivotSequence(perm', k, |m|)
    requires forall i :: 0 <= i < k ==> perm[i] == perm'[i]
    ensures Replay(m, perm, k) == Replay(m, perm', k)
  {
    if k > 0 {
      ReplayPrefix(m, perm, perm', k - 1);
    }
  }

  /** Recording one more partner replays one more interchange. */
  lemma ReplayRecorded(m: Matrix, perm: seq<int>, k: nat, q: nat)
    requires IsPivotSequence(perm, k, |m|) && k < |perm| && k < |m| && q < |m|
    ensures IsPivotSequence(perm[k := q + 1], k + 1, |m|)
    ensures Replay(m, perm[k := q + 1], k + 1) == SwapRows(Replay(m, perm, k), k, q)
  {
    ReplayPrefix(m, perm, perm[k := q + 1], k);
  }

  lemma {:induction false} ReplayRect(m: Matrix, perm: seq<int>, k: nat, cols: nat)
    requires IsPivotSequence(perm, k, |m|) && Rect(m, |m|, cols)
    ensures Rect(Replay(m, perm, k), |m|, cols)
  {
    if k > 0 {
      ReplayRect(m, perm, k - 1, cols);
    }
  }

  lemma {:induction false} ReplayInjective(a: Matrix, b: Matrix, perm: seq<int>, k: nat)
    requires |a| == |b| && IsPivotSequence(perm, k, |a|)
    requires Replay(a, perm, k) == Replay(b, perm, k)
    ensures a == b
  {
    if k > 0 {
      SwapTwice(Replay(a, perm, k - 1), k - 1, perm[k - 1] - 1);
      SwapTwice(Replay(b, perm, k - 1), k - 1, perm[k - 1] - 1);
      ReplayInjective(a, b, perm, k - 1);
    }
  }

  lemma SwapTwice(m: Matrix, i: nat, p: nat)
    requires i < |m| && p < |m|
    ensures SwapRows(SwapRows(m, i, p), i, p) == m
  {
  }

  /** Interchanging the rows of a product is interchanging the rows of its left factor. */
  lemma {:induction false} ReplayMul(a: Matrix, x: Matrix, perm: seq<int>, k: nat, w: nat)
    requires Rect(a, |a|, |x|) && Rect(x, |x|, w) && IsPivotSequence(perm, k, |a|)
    ensures Rect(Replay(a, perm, k), |a|, |x|)
    ensures Replay(Mul(a, x, w), perm, k) == Mul(Replay(a, perm, k), x, w)
  {
    ReplayRect(a, perm, k, |x|);
    if k > 0 {
      ReplayMul(a, x, perm, k - 1, w);
    }
  }

  lemma {:induction false} ReplayZero(n: nat, w: nat, perm: seq<int>, k: nat)
    requires IsPivotSequence(perm, k, n)
    ensures Replay(Zero(n, w), perm, k) == Zero(n, w)
  {
    if k > 0 {
      ReplayZero(n, w, perm, k - 1);
      SwapAlike(Zero(n, w), k - 1, perm[k - 1] - 1);
    }
  }

  lemma SwapAlike(m: Matrix, i: nat, p: nat)
    requires i < |m| && p < |m| && m[i] == m[p]
    ensures SwapRows(m, i, p) == m
  {
  }
}
