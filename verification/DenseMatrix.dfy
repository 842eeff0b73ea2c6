/** A matrix that owns its buffer (include/densematrix.h:1014-1197): the two storage orders
    and growing by a row. */
module DenseMatrices {
  import opened LinearAlgebra
  import opened DenseMatrixViews

  datatype Major = Row | Column

  // ------------------------------------------------------------ index arithmetic

  /** Position of an element in a buffer of `major` order. */
  function IndexOf(major: Major, rows: nat, cols: nat, r: nat, c: nat): nat
  {
    match major
    case Row => r * cols + c
    case Column => r + rows * c
  }

  lemma {:induction false} MultipleBelow(q: nat, q': nat, d: nat)
    requires q < q'
    ensures q * d + d <= q' * d
  {
    assert q' * d == (q' - 1) * d + d;
    if q + 1 < q' {
      MultipleBelow(q, q' - 1, d);
    }
  }

  /** Quotient and remainder determine each other. */
  lemma DigitsUnique(q: nat, r: nat, q': nat, r': nat, d: nat)
    requires r < d && r' < d && q * d + r == q' * d + r'
    ensures q == q' && r == r'
  {
    if q < q' {
      MultipleBelow(q, q', d);
      assert false;
    }
    if q' < q {
      MultipleBelow(q', q, d);
      assert false;
    }
  }

  /** Division takes the two apart again. */
  lemma DigitsByDivision(q: nat, r: nat, d: nat, x: nat)
    requires r < d && x == q * d + r
    ensures x / d == q && x % d == r
  {
    DigitsUnique(x / d, x % d, q, r, d);
  }

  lemma IndexInBuffer(major: Major, rows: nat, cols: nat, r: nat, c: nat)
    requires r < rows && c < cols
    ensures IndexOf(major, rows, cols, r, c) < rows * cols
  {
    MultipleBelow(r, rows, cols);
    MultipleBelow(c, cols, rows);
    assert rows * c == c * rows && cols * rows == rows * cols;
  }

  lemma IndexInjective(major: Major, rows: nat, cols: nat, r: nat, c: nat, r': nat, c': nat)
    requires r < rows && r' < rows && c < cols && c' < cols
    requires IndexOf(major, rows, cols, r, c) == IndexOf(major, rows, cols, r', c')
    ensures r == r' && c == c'
  {
    match major
    case Row => DigitsUnique(r, c, r', c', cols);
    case Column =>
      assert rows * c == c * rows && rows * c' == c' * rows;
      DigitsUnique(c, r, c', r', rows);
  }

  lemma MultipleAtLeast(q: nat, q': nat, d: nat)
    requires q <= q'
    ensures q * d <= q' * d
  {
    if q < q' {
      MultipleBelow(q, q', d);
    }
  }

  /** Every number below a product has a quotient and a remainder in range. */
  lemma SplitDigits(x: nat, high: nat, low: nat) returns (q: nat, r: nat)
    requires x < high * low
    ensures q < high && r < low && x == q * low + r
  {
    q, r := x / low, x % low;
    if q >= high {
      MultipleAtLeast(high, q, low);
      assert false;
    }
  }

  /** Every cell of the buffer holds exactly one element, in either order. */
  lemma IndexOnto(major: Major, rows: nat, cols: nat, k: nat) returns (r: nat, c: nat)
    requires k < rows * cols
    ensures r < rows && c < cols && IndexOf(major, rows, cols, r, c) == k
  {
    match major {
      case Row =>
        r, c := SplitDigits(k, rows, cols);
      case Column =>
        assert rows * cols == cols * rows;
        c, r := SplitDigits(k, cols, rows);
        assert rows * c == c * rows;
    }
  }

  /** Row order runs along each row and then to the next one; column order runs down each
      column and then to the next one. */
  lemma IndexFollowsOrder(major: Major, rows: nat, cols: nat, r: nat, c: nat, r': nat, c': nat)
    requires r < rows && r' < rows && c < cols && c' < cols
    ensures IndexOf(major, rows, cols, r, c) < IndexOf(major, rows, cols, r', c') <==>
              match major
              case Row => r < r' || (r == r' && c < c')
              case Column => c < c' || (c == c' && r < r')
  {
    match major
    case Row => DigitsInOrder(r, c, r', c', cols);
    case Column =>
      assert rows * c == c * rows && rows * c' == c' * rows;
      DigitsInOrder(c, r, c', r', rows);
  }

  lemma DigitsInOrder(q: nat, r: nat, q': nat, r': nat, d: nat)
    requires r < d && r' < d
    ensures q * d + r < q' * d + r' <==> q < q' || (q == q' && r < r')
  {
    if q < q' {
      MultipleBelow(q, q', d);
    } else if q' < q {
      MultipleBelow(q', q, d);
    }
  }

  /** The buffer starts with the first element; neighbours in a row (row order) or in a column
      (column order) are neighbours in the buffer. */
  lemma IndexSteps(rows: nat, cols: nat, r: nat, c: nat)
    ensures IndexOf(Row, rows, cols, 0, 0) == IndexOf(Column, rows, cols, 0, 0) == 0
    ensures IndexOf(Row, rows, cols, r, c + 1) == IndexOf(Row, rows, cols, r, c) + 1
    ensures IndexOf(Row, rows, cols, r + 1, c) == IndexOf(Row, rows, cols, r, c) + cols
    ensures IndexOf(Column, rows, cols, r + 1, c) == IndexOf(Column, rows, cols, r, c) + 1
    ensures IndexOf(Column, rows, cols, r, c + 1) == IndexOf(Column, rows, cols, r, c) + rows
  {
    assert (r + 1) * cols == r * cols + cols;
    assert rows * (c + 1) == rows * c + rows;
  }

  // ---------------------------------------------------------------- the matrix

  function LayoutView(data: array<real>, major: Major, rows: nat, cols: nat): MatrixView
  {
    match major
    case Row => MatrixView(data, 0, rows, cols, cols, 1)
    case Column => MatrixView(data, 0, rows, cols, 1, rows)
  }

  /** In both orders the strided view addresses `IndexOf`, inside the buffer and without
      overlap. */
  lemma LayoutIsValid(data: array<real>, major: Major, rows: nat, cols: nat)
    requires data.Length == rows * cols
    ensures LayoutView(data, major, rows, cols).Valid()
    ensures forall r, c :: 0 <= r < rows && 0 <= c < cols ==>
              LayoutView(data, major, rows, cols).Address(r, c) == IndexOf(major, rows, cols, r, c)
  {
    var v := LayoutView(data, major, rows, cols);
    forall r, c | 0 <= r < rows && 0 <= c < cols
      ensures v.Address(r, c) == IndexOf(major, rows, cols, r, c) < data.Length
    {
      IndexInBuffer(major, rows, cols, r, c);
      assert c * rows == rows * c;
    }
    forall r, c, r', c'
      ensures v.Apart(r, c, r', c')
    {
      if v.Inside(r, c) && v.Inside(r', c') && v.Address(r, c) == v.Address(r', c') {
        IndexInjective(major, rows, cols, r, c, r', c');
      }
    }
  }

  class DenseMatrix {
    const major: Major
    var data: array<real>
    var nRow: nat
    const nCol: nat

    ghost predicate Valid()
      reads this
    {
      data.Length == nRow * nCol && View().Valid()
    }

    function View(): MatrixView
      reads this
    {
      LayoutView(data, major, nRow, nCol)
    }

    ghost function Elements(): (m: Matrix)
      reads this, data
      requires Valid()
      ensures Rect(m, nRow, nCol)
    {
      View().Grid()
    }

    constructor (rows: nat, cols: nat, major: Major)
      ensures Valid() && nRow == rows && nCol == cols && this.major == major && fresh(data)
      ensures Elements() == Zero(rows, cols)
    {
      nRow, nCol, this.major := rows, cols, major;
      data := new real[rows * cols](_ => 0.0);
      new;
      LayoutIsValid(data, major, rows, cols);
      forall r, c | 0 <= r < rows && 0 <= c < cols
        ensures Elements()[r][c] == 0.0
      {
        View().GridAt(r, c);
      }
      SameMatrix(Elements(), Zero(rows, cols), rows, cols);
    }

    /** Adds a row at the bottom and returns its index; what it holds is left open. Rows
        stored one after the other just get a longer buffer, columns are copied one by one
        into blocks that are one element longer. */
    method AddRow() returns (row: nat)
      requires Valid()
      modifies this`data, this`nRow
      ensures Valid() && fresh(data)
      ensures row == old(nRow) && nRow == old(nRow) + 1
      ensures Elements()[..old(nRow)] == old(Elements())
      ensures major == Row ==> old(data[..]) <= data[..]
    {
      row := nRow;
      var grown := new real[(nRow + 1) * nCol](_ => 0.0);
      var next := LayoutView(grown, major, nRow + 1, nCol);
      LayoutIsValid(grown, major, nRow + 1, nCol);
      if major == Column {
        CopyColumns(View(), next);
      } else {
        MultipleBelow(nRow, nRow + 1, nCol);
        CopyPrefix(data, grown);
        PrefixKeepsRows(View(), next, data[..], grown[..]);
      }
      data := grown;
      nRow := nRow + 1;
    }
  }

  method CopyPrefix(from: array<real>, to: array<real>)
    requires from != to && from.Length <= to.Length
    modifies to
    ensures to[..from.Length] == from[..]
  {
    for k := 0 to from.Length
      invariant to[..k] == from[..k]
    {
      to[k] := from[k];
    }
  }

  lemma PrefixKeepsRows(v: MatrixView, next: MatrixView, before: seq<real>, after: seq<real>)
    requires v.Valid() && next.Valid() && |before| == v.data.Length && |after| == next.data.Length
    requires next.rows == v.rows + 1 && next.cols == v.cols && v.start == next.start
    requires next.rowStride == v.rowStride && next.colStride == v.colStride
    requires before <= after
    ensures next.GridOf(after)[..v.rows] == v.GridOf(before)
  {
    forall r | 0 <= r < v.rows
      ensures next.GridOf(after)[r] == v.GridOf(before)[r]
    {
      forall c | 0 <= c < v.cols
        ensures next.GridOf(after)[r][c] == v.GridOf(before)[r][c]
      {
        assert v.Inside(r, c) && next.Inside(r, c);
        assert v.Address(r, c) == next.Address(r, c);
      }
    }
  }

  /** Copies column by column into a view of the same width. */
  method CopyColumns(v: MatrixView, next: MatrixView)
    requires v.Valid() && next.Valid() && v.data != next.data
    requires next.rows == v.rows + 1 && next.cols == v.cols
    modifies next.data
    ensures next.Grid()[..v.rows] == v.Grid()
  {
    ghost var g := v.Grid();
    for j := 0 to v.cols
      invariant forall r, c :: 0 <= r < v.rows && 0 <= c < j ==> next.Grid()[r][c] == g[r][c]
    {
      for i := 0 to v.rows
        invariant forall r, c :: 0 <= r < v.rows && 0 <= c < j ==> next.Grid()[r][c] == g[r][c]
        invariant forall r :: 0 <= r < i ==> next.Grid()[r][j] == g[r][j]
      {
        var x := v.Get(i, j);
        next.Set(i, j, x);
      }
    }
    SameMatrix(next.Grid()[..v.rows], g, v.rows, v.cols);
  }
}
