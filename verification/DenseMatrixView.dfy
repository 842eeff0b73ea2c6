/** Strided views of a flat buffer (include/densematrix.h:454-533) and the element loops the
    solver runs on them. */
module DenseMatrixViews {
  import opened LinearAlgebra
  import opened Elimination

  datatype MatrixView = MatrixView(data: array<real>, start: nat, rows: nat, cols: nat, rowStride: nat, colStride: nat)
  {
    function Address(r: nat, c: nat): nat
    {
      start + r * rowStride + c * colStride
    }

    predicate Inside(r: nat, c: nat) { r < rows && c < cols }

    /** All elements lie in the buffer and no two of them share a cell. */
    ghost predicate Valid()
    {
      && (forall r, c :: Inside(r, c) ==> Address(r, c) < data.Length)
      && (forall r, c, r', c' {:trigger Apart(r, c, r', c')} :: Apart(r, c, r', c'))
    }

    predicate Apart(r: nat, c: nat, r': nat, c': nat)
    {
      Inside(r, c) && Inside(r', c') && Address(r, c) == Address(r', c') ==> r == r' && c == c'
    }

    ghost predicate Covers(k: nat)
    {
      exists r, c :: Inside(r, c) && Address(r, c) == k
    }

    /** Cells that belong to no element of the view stay as they were. */
    ghost predicate KeepsOutside(before: seq<real>, after: seq<real>)
    {
      && |before| == |after|
      && forall k {:trigger after[k]} :: 0 <= k < |after| && !Covers(k) ==> after[k] == before[k]
    }

    /** One row down is `rowStride` cells further, one column across `colStride` cells. */
    lemma AddressSteps(r: nat, c: nat)
      ensures Address(0, 0) == start
      ensures Address(r + 1, c) == Address(r, c) + rowStride
      ensures Address(r, c + 1) == Address(r, c) + colStride
    {
      assert (r + 1) * rowStride == r * rowStride + rowStride;
      assert (c + 1) * colStride == c * colStride + colStride;
    }

    /** This view and `v` share no cell. */
    ghost predicate Separate(v: MatrixView)
    {
      data != v.data || forall r, c {:trigger Beside(v, r, c)} :: Beside(v, r, c)
    }

    ghost predicate Beside(v: MatrixView, r: nat, c: nat)
    {
      Inside(r, c) ==> !v.Covers(Address(r, c))
    }

    lemma SeparateBothWays(v: MatrixView)
      requires Separate(v)
      ensures v.Separate(this)
    {
      forall r: nat, c: nat
        ensures data == v.data ==> v.Beside(this, r, c)
      {
        forall r': nat, c': nat | Inside(r', c') && v.Inside(r, c)
          ensures data == v.data ==> Address(r', c') != v.Address(r, c)
        {
          assert data == v.data ==> Beside(v, r', c');
        }
      }
    }

    /** Writing through one view does not show in a separate one. */
    lemma Undisturbed(v: MatrixView, before: seq<real>, after: seq<real>)
      requires Valid() && data == v.data && Separate(v)
      requires |before| == data.Length && v.KeepsOutside(before, after)
      ensures GridOf(after) == GridOf(before)
    {
      forall r, c | 0 <= r < rows && 0 <= c < cols
        ensures GridOf(after)[r][c] == GridOf(before)[r][c]
      {
        assert Beside(v, r, c);
      }
      SameMatrix(GridOf(after), GridOf(before), rows, cols);
    }

    /** `m` is what the view shows of a buffer with these contents. */
    ghost predicate Shows(m: Matrix, contents: seq<real>)
      requires Valid() && |contents| == data.Length
    {
      && Rect(m, rows, cols)
      && forall r: nat, c: nat {:trigger Inside(r, c)} :: Inside(r, c) ==> m[r][c] == contents[Address(r, c)]
    }

    lemma ShownOnce(m: Matrix, m': Matrix, contents: seq<real>)
      requires Valid() && |contents| == data.Length && Shows(m, contents) && Shows(m', contents)
      ensures m == m'
    {
      forall r, c | 0 <= r < rows && 0 <= c < cols
        ensures m[r][c] == m'[r][c]
      {
        assert Inside(r, c);
      }
      SameMatrix(m, m', rows, cols);
    }

    ghost function GridOf(contents: seq<real>): (m: Matrix)
      requires Valid() && |contents| == data.Length
      ensures Shows(m, contents)
    {
      var built := seq(rows, r requires 0 <= r < rows =>
        seq(cols, c requires 0 <= c < cols && Inside(r, c) => contents[Address(r, c)]));
      assert Shows(built, contents);
      var m :| Shows(m, contents);
      m
    }

    /** The matrix the view shows. */
    ghost function Grid(): (m: Matrix)
      reads data
      requires Valid()
      ensures Rect(m, rows, cols)
    {
      GridOf(data[..])
    }

    lemma GridAt(r: nat, c: nat)
      requires Valid() && r < rows && c < cols
      ensures Address(r, c) < data.Length && Grid()[r][c] == data[Address(r, c)]
    {
      assert Inside(r, c);
    }

    lemma GridUpdate(before: seq<real>, r: nat, c: nat, v: real)
      requires Valid() && |before| == data.Length && r < rows && c < cols
      ensures Address(r, c) < data.Length
      ensures GridOf(before[Address(r, c) := v]) == GridOf(before)[r := GridOf(before)[r][c := v]]
    {
      assert Inside(r, c);
      var after := before[Address(r, c) := v];
      var g, g' := GridOf(before)[r := GridOf(before)[r][c := v]], GridOf(after);
      forall i, j | 0 <= i < rows && 0 <= j < cols
        ensures g'[i][j] == g[i][j]
      {
        assert Inside(i, j);
        if i != r || j != c {
          assert Apart(i, j, r, c);
        }
      }
      SameMatrix(g', g, rows, cols);
    }

    method Get(r: nat, c: nat) returns (v: real)
      requires Valid() && r < rows && c < cols
      ensures v == Grid()[r][c]
    {
      GridAt(r, c);
      v := data[Address(r, c)];
    }

    method Set(r: nat, c: nat, v: real)
      requires Valid() && r < rows && c < cols
      modifies data
      ensures Grid() == old(Grid())[r := old(Grid())[r][c := v]]
      ensures KeepsOutside(old(data[..]), data[..])
    {
      GridUpdate(data[..], r, c, v);
      data[Address(r, c)] := v;
      assert data[..] == old(data[..])[Address(r, c) := v];
    }

    // ------------------------------------------------------------ row loops

    /** Exchanges two rows element by element. */
    method ExchangeRows(i: nat, p: nat)
      requires Valid() && i < rows && p < rows && i != p
      modifies data
      ensures Grid() == SwapRows(old(Grid()), i, p)
      ensures KeepsOutside(old(data[..]), data[..])
    {
      ghost var g := Grid();
      NotYet(g[p], g[i], 0);
      NotYet(g[i], g[p], 0);
      for c := 0 to cols
        invariant Grid()[i] == Mixed(g[p], g[i], c) && Grid()[p] == Mixed(g[i], g[p], c)
        invariant forall r :: 0 <= r < rows && r != i && r != p ==> Grid()[r] == g[r]
        invariant KeepsOutside(old(data[..]), data[..])
      {
        MixedNext(g[p], g[i], c);
        MixedNext(g[i], g[p], c);
        var tmp := Get(i, c);
        var other := Get(p, c);
        Set(i, c, other);
        Set(p, c, tmp);
      }
      AllMixed(g[p], g[i]);
      AllMixed(g[i], g[p]);
    }

    /** The inner elimination loop: cancels column `i` of row `j` with row `i` and stores the
        multiplier there; returns what row `i` was multiplied with. */
    method ReduceRow(j: nat, i: nat) returns (fac: real)
      requires Valid() && i < j < rows && i < cols && rows == cols
      requires Grid()[i][i] != 0.0
      modifies data
      ensures fac == -Multiplier(old(Grid()), j, i)
      ensures Grid() == old(Grid())[j := Reduced(old(Grid())[j], -fac, old(Grid())[i], i)]
      ensures KeepsOutside(old(data[..]), data[..])
    {
      ghost var g := Grid();
      var above := Get(j, i);
      var piv := Get(i, i);
      fac := -above / piv;
      NegatedQuotient(above, piv);
      AddTail(j, i, fac);
      KeptReduced(g[j], -fac, g[i], i);
      Set(j, i, -fac);
    }

    /** Adds a multiple of one element to another one in the same column. */
    method AddElement(j: nat, i: nat, k: nat, fac: real)
      requires Valid() && i < rows && j < rows && k < cols
      modifies data
      ensures var g := old(Grid()); Grid() == g[j := g[j][k := Plus(g[j][k], fac, g[i][k])]]
      ensures KeepsOutside(old(data[..]), data[..])
    {
      var x := Get(j, k);
      var y := Get(i, k);
      Set(j, k, Plus(x, fac, y));
    }

    /** row j += row i * fac, right of column `i` only. */
    method AddTail(j: nat, i: nat, fac: real)
      requires Valid() && i < rows && j < rows && i != j && i < cols
      modifies data
      ensures Grid() == old(Grid())[j := Kept(old(Grid())[j], -fac, old(Grid())[i], i)]
      ensures KeepsOutside(old(data[..]), data[..])
    {
      ghost var g := Grid();
      ghost var target := Kept(g[j], -fac, g[i], i);
      NotYet(target, g[j], i + 1);
      for k := i + 1 to cols
        invariant Grid()[j] == Mixed(target, g[j], k)
        invariant forall r :: 0 <= r < rows && r != j ==> Grid()[r] == g[r]
        invariant KeepsOutside(old(data[..]), data[..])
      {
        KeptNext(g[j], fac, g[i], i, k);
        AddElement(j, i, k, fac);
      }
      AllMixed(target, g[j]);
    }

    /** row j += row i * fac. */
    method AddScaledRow(j: nat, i: nat, fac: real)
      requires Valid() && i < rows && j < rows && i != j
      modifies data
      ensures Grid() == old(Grid())[j := Less(old(Grid())[j], -fac, old(Grid())[i])]
      ensures KeepsOutside(old(data[..]), data[..])
    {
      ghost var g := Grid();
      ghost var target := Less(g[j], -fac, g[i]);
      NotYet(target, g[j], 0);
      for k := 0 to cols
        invariant Grid()[j] == Mixed(target, g[j], k)
        invariant forall r :: 0 <= r < rows && r != j ==> Grid()[r] == g[r]
        invariant KeepsOutside(old(data[..]), data[..])
      {
        LessNext(g[j], fac, g[i], k);
        AddElement(j, i, k, fac);
      }
      AllMixed(target, g[j]);
    }

    /** row i *= fac. */
    method ScaleRow(i: nat, fac: real)
      requires Valid() && i < rows
      modifies data
      ensures Grid() == old(Grid())[i := Scaled(old(Grid())[i], fac)]
      ensures KeepsOutside(old(data[..]), data[..])
    {
      ghost var g := Grid();
      ghost var target := Scaled(g[i], fac);
      NotYet(target, g[i], 0);
      for k := 0 to cols
        invariant Grid()[i] == Mixed(target, g[i], k)
        invariant forall r :: 0 <= r < rows && r != i ==> Grid()[r] == g[r]
        invariant KeepsOutside(old(data[..]), data[..])
      {
        MixedNext(target, g[i], k);
        var x := Get(i, k);
        var product := x * fac;
        assert product == target[k];
        Set(i, k, product);
      }
      AllMixed(target, g[i]);
    }
  }

  // ------------------------------------------------------------ pivot vectors

  /** A strided view of the vector that takes the interchanges, or none. */
  datatype Pivots = NoPivots | Pivots(data: array<int>, start: nat, length: nat, stride: nat)
  {
    function Address(i: nat): nat
      requires Pivots?
    {
      start + i * stride
    }

    ghost predicate Valid()
      requires Pivots?
    {
      && (forall i :: 0 <= i < length ==> Address(i) < data.Length)
      && (forall i, j :: 0 <= i < length && 0 <= j < length && Address(i) == Address(j) ==> i == j)
    }

    lemma AddressSteps(i: nat)
      requires Pivots?
      ensures Address(0) == start && Address(i + 1) == Address(i) + stride
    {
      assert (i + 1) * stride == i * stride + stride;
    }

    ghost predicate Fits(n: nat)
    {
      Pivots? ==> Valid() && length == n
    }

    ghost function Objects(): set<object> { if Pivots? then {data} else {} }

    ghost function Contents(): (s: seq<int>)
      reads Objects()
      requires Pivots? && Valid()
      ensures |s| == length
    {
      ContentsOf(data[..])
    }

    ghost function ContentsOf(cells: seq<int>): (s: seq<int>)
      requires Pivots? && Valid() && |cells| == data.Length
      ensures |s| == length
    {
      seq(length, i requires 0 <= i < length => cells[Address(i)])
    }

    /** Stores an entry, if there is somewhere to store it; no other cell changes. */
    method Record(i: nat, p: int)
      requires Pivots? ==> Valid() && i < length
      modifies Objects()
      ensures Pivots? ==> Contents() == old(Contents())[i := p]
      ensures Pivots? ==> data[..] == old(data[..])[Address(i) := p]
    {
      if Pivots? {
        data[Address(i)] := p;
      }
    }

    method Partner(i: nat) returns (p: int)
      requires Pivots? && Valid() && i < length
      ensures p == Contents()[i]
    {
      p := data[Address(i)];
    }
  }

  /** The reduced row before the multiplier is stored in column `i`. */
  ghost function Kept(row: Vec, l: real, piv: Vec, i: nat): (r: Vec)
    requires |row| == |piv|
    ensures |r| == |row|
  {
    seq(|row|, c requires 0 <= c < |row| => if c <= i then row[c] else row[c] - l * piv[c])
  }

  lemma KeptReduced(row: Vec, l: real, piv: Vec, i: nat)
    requires i < |row| == |piv|
    ensures Kept(row, l, piv, i)[i := l] == Reduced(row, l, piv, i)
  {
  }

  ghost function Scaled(row: Vec, f: real): (r: Vec)
    ensures |r| == |row|
  {
    seq(|row|, c requires 0 <= c < |row| => row[c] * f)
  }

  // ------------------------------------------------ what a loop has done so far

  /** The first `c` elements of `x`, the rest of `y`. */
  ghost function Mixed(x: Vec, y: Vec, c: nat): (r: Vec)
    requires |x| == |y|
    ensures |r| == |x|
  {
    seq(|x|, k requires 0 <= k < |x| => if k < c then x[k] else y[k])
  }

  lemma NotYet(x: Vec, y: Vec, c: nat)
    requires |x| == |y| && forall k :: 0 <= k < c && k < |x| ==> x[k] == y[k]
    ensures Mixed(x, y, c) == y
  {
  }

  lemma AllMixed(x: Vec, y: Vec)
    requires |x| == |y|
    ensures Mixed(x, y, |x|) == x
  {
  }

  lemma MixedNext(x: Vec, y: Vec, c: nat)
    requires c < |x| == |y|
    ensures Mixed(x, y, c + 1) == Mixed(x, y, c)[c := x[c]]
    ensures Mixed(x, y, c)[c] == y[c]
  {
  }

  lemma NegatedQuotient(x: real, d: real)
    requires d != 0.0
    ensures -x / d == -(x / d)
  {
    assert (-(x / d)) * d == -x;
  }

  lemma KeptNext(row: Vec, fac: real, piv: Vec, i: nat, k: nat)
    requires i < k < |row| == |piv|
    ensures var t := Kept(row, -fac, piv, i);
            Mixed(t, row, k)[k := Plus(row[k], fac, piv[k])] == Mixed(t, row, k + 1)
    ensures Mixed(Kept(row, -fac, piv, i), row, k)[k] == row[k]
  {
    MinusNegative(row[k], fac, piv[k]);
    var t := Kept(row, -fac, piv, i);
    assert t[k] == row[k] - (-fac) * piv[k];
    MixedNext(t, row, k);
  }

  lemma LessNext(row: Vec, fac: real, piv: Vec, k: nat)
    requires k < |row| == |piv|
    ensures var t := Less(row, -fac, piv);
            Mixed(t, row, k)[k := Plus(row[k], fac, piv[k])] == Mixed(t, row, k + 1)
    ensures Mixed(Less(row, -fac, piv), row, k)[k] == row[k]
  {
    MinusNegative(row[k], fac, piv[k]);
    var t := Less(row, -fac, piv);
    assert t[k] == row[k] - (-fac) * piv[k];
    MixedNext(t, row, k);
  }

  function Plus(x: real, fac: real, y: real): real { x + fac * y }

  lemma MinusNegative(x: real, fac: real, y: real)
    ensures x - (-fac) * y == Plus(x, fac, y)
  {
    assert (-fac) * y == -(fac * y);
  }
}
