/** The block-sparse matrix (include/cscblkmatrix.h:21-198, lib/cscblkmatrix.cpp:67-215,
    include/cscmatrix.h:274-285): building its tables and going from positions to nonzeros
    and back. */
module CscBlockMatrices {
  import opened Basics
  import opened CscBlockLayouts
  import opened DenseMatrices
  import opened DenseMatrixViews
  import opened SparsityMaps

  // -------------------------------------------------- what the tables should hold

  lemma NonNegative(a: nat, b: nat)
    ensures a * b >= 0
  {
  }

  /** The first `upTo` positions have been assigned to columns 0..at; column `at` is open. */
  ghost predicate Assigned(positions: seq<Position>, begin: seq<nat>, at: nat, upTo: nat)
  {
    && at < |begin| && upTo <= |positions|
    && begin[0] == 0
    && (forall c, d :: 0 <= c <= d <= at ==> begin[c] <= begin[d])
    && begin[at] <= upTo
    && (forall k :: 0 <= k < upTo ==> InOpened(positions[k].col, begin, at, k))
  }

  /** The k-th position lies in column `col`, no later than the open one. */
  ghost predicate InOpened(col: nat, begin: seq<nat>, at: nat, k: nat)
    requires at < |begin|
  {
    1 <= col <= at + 1 && begin[col - 1] <= k && (col <= at ==> k < begin[col])
  }

  /** Closing column `at` at `upTo` opens the next one, still empty. */
  lemma OpenNext(positions: seq<Position>, begin: seq<nat>, at: nat, upTo: nat)
    requires Assigned(positions, begin, at, upTo) && at + 1 < |begin|
    ensures Assigned(positions, begin[at + 1 := upTo], at + 1, upTo)
  {
  }

  lemma TakeNext(positions: seq<Position>, begin: seq<nat>, at: nat, upTo: nat)
    requires Assigned(positions, begin, at, upTo) && upTo < |positions| && positions[upTo].col == at + 1
    ensures Assigned(positions, begin, at, upTo + 1)
  {
  }

  ghost predicate InGrid(positions: seq<Position>, n: nat)
  {
    forall k :: 0 <= k < |positions| ==> 1 <= positions[k].row <= n && 1 <= positions[k].col <= n
  }

  lemma AllAssigned(l: Layout)
    requires Ordered(l.positions) && InGrid(l.positions, l.n) && |l.begin| == l.n + 1
    requires Assigned(l.positions, l.begin, l.n, |l.positions|) && l.begin[l.n] == |l.positions|
    ensures l.Valid()
  {
  }

  /** Columns never go back: the next position belongs to the open column or a later one. */
  lemma NotBehind(positions: seq<Position>, begin: seq<nat>, at: nat, upTo: nat)
    requires Assigned(positions, begin, at, upTo) && Ordered(positions) && upTo < |positions|
    requires positions[upTo].col >= 1 && (at == 0 || begin[at] < upTo)
    ensures positions[upTo].col >= at + 1
  {
    assert at > 0 ==> Before(positions[upTo - 1], positions[upTo]);
  }

  ghost predicate RowsWritten(l: Layout, ai: seq<nat>, upTo: nat)
    requires l.Valid()
  {
    forall k, br, bc {:trigger l.Address(k, br, bc)} ::
      l.Element(k, br, bc) && l.InColumnRange(k) && l.Address(k, br, bc) < upTo ==>
        l.Address(k, br, bc) < |ai| && ai[l.Address(k, br, bc)] == l.ExpandedRow(k, br)
  }

  ghost predicate ColumnsWritten(l: Layout, ap: seq<nat>, upTo: nat)
    requires l.Valid()
  {
    forall c, b {:trigger l.ColumnIndex(c, b)} ::
      0 <= c < l.n && 0 <= b < l.nbCol && l.ColumnIndex(c, b) < upTo ==>
        l.ColumnIndex(c, b) < |ap| && ap[l.ColumnIndex(c, b)] == l.ColumnBegin(c, b)
  }

  ghost predicate OriginsHold(l: Layout, origins: seq<nat>, strides: seq<nat>, upTo: nat)
    requires l.Valid() && upTo <= l.n
  {
    && |origins| == l.n && |strides| == l.n
    && (forall c :: 0 <= c < upTo ==> origins[c] == l.Origin(c))
    && (forall c :: 0 <= c < upTo ==> strides[c] == l.Stride(c))
  }

  /** The scalar tables are complete, or absent in a matrix that is storage only. */
  ghost predicate ScalarsHold(l: Layout, ap: seq<nat>, ai: seq<nat>)
    requires l.Valid()
  {
    var an := l.n * l.nbCol;
    || (ap == [] && ai == [])
    || (&& |ap| == an + 1 && |ai| == l.Nonzeros() && ap[an] == l.Nonzeros()
        && ColumnsWritten(l, ap, an) && RowsWritten(l, ai, l.Nonzeros()))
  }

  /** Complete row tables stay inside the matrix. */
  lemma RowsInside(l: Layout, ai: seq<nat>, idx: nat)
    requires l.Valid() && |ai| == l.Nonzeros() && RowsWritten(l, ai, l.Nonzeros()) && idx < |ai|
    ensures ai[idx] < l.n * l.nbRow
  {
    var k, br, bc := l.AddressOnto(idx);
    l.ExpandedDigits(k, br, bc);
  }

  lemma RowWritten(l: Layout, ai: seq<nat>, k: nat, br: nat, bc: nat)
    requires l.Valid() && l.Element(k, br, bc) && |ai| == l.Nonzeros()
    requires l.InColumnRange(k) && RowsWritten(l, ai, l.Address(k, br, bc))
    ensures var at := l.Address(k, br, bc);
      at < |ai| && RowsWritten(l, ai[at := l.ExpandedRow(k, br)], at + 1)
  {
    l.AddressInRange(k, br, bc);
    var at := l.Address(k, br, bc);
    var ai' := ai[at := l.ExpandedRow(k, br)];
    forall k', br', bc' | l.Element(k', br', bc') && l.InColumnRange(k') && l.Address(k', br', bc') < at + 1
      ensures l.Address(k', br', bc') < |ai'| && ai'[l.Address(k', br', bc')] == l.ExpandedRow(k', br')
    {
      l.AddressOrder(k, br, bc, k', br', bc');
    }
  }

  lemma ColumnWritten(l: Layout, ap: seq<nat>, c: nat, b: nat)
    requires l.Valid() && c < l.n && b < l.nbCol && |ap| == l.n * l.nbCol + 1
    requires ColumnsWritten(l, ap, l.ColumnIndex(c, b))
    ensures var at := l.ColumnIndex(c, b);
      at < l.n * l.nbCol && ColumnsWritten(l, ap[at := l.ColumnBegin(c, b)], at + 1)
  {
    MultipleBelow(c, l.n, l.nbCol);
    var at := l.ColumnIndex(c, b);
    var ap' := ap[at := l.ColumnBegin(c, b)];
    forall c': nat, b': nat | c' < l.n && b' < l.nbCol && l.ColumnIndex(c', b') < at + 1
      ensures l.ColumnIndex(c', b') < |ap'| && ap'[l.ColumnIndex(c', b')] == l.ColumnBegin(c', b')
    {
      if l.ColumnIndex(c', b') == at {
        DigitsUnique(c, b, c', b', l.nbCol);
      }
    }
  }

  // ------------------------------------------------------------- reading the tables

  /** The column table gives begin and end of every column of elements. */
  lemma ColumnSpan(l: Layout, ap: seq<nat>, c: nat, b: nat)
    requires l.Valid() && c < l.n && b < l.nbCol
    requires |ap| == l.n * l.nbCol + 1 && ap[|ap| - 1] == l.Nonzeros() && ColumnsWritten(l, ap, |ap| - 1)
    ensures var j := l.ColumnIndex(c, b);
      j + 1 < |ap| && ap[j] == l.ColumnBegin(c, b) && ap[j + 1] == l.ColumnBegin(c, b) + l.Stride(c)
  {
    var j := l.ColumnIndex(c, b);
    MultipleBelow(c, l.n, l.nbCol);
    SumTimes(b, 1, l.Stride(c));
    if b + 1 < l.nbCol {
      MultipleBelow(c, l.n, l.nbCol);
      assert l.ColumnIndex(c, b + 1) == j + 1;
    } else {
      l.NextOrigin(c);
      SumTimes(c, 1, l.nbCol);
      if c + 1 < l.n {
        MultipleBelow(c + 1, l.n, l.nbCol);
        assert l.ColumnIndex(c + 1, 0) == j + 1;
      }
    }
  }

  /** The indices of a column of elements lie inside those of its block column. */
  lemma ColumnInside(l: Layout, c: nat, b: nat)
    requires l.Valid() && c < l.n && b < l.nbCol
    ensures l.Origin(c) <= l.ColumnBegin(c, b) <= l.ColumnBegin(c, b) + l.Stride(c) <= l.Origin(c + 1)
  {
    l.NextOrigin(c);
    MultipleBelow(b, l.nbCol, l.Stride(c));
    NonNegative(b, l.Stride(c));
  }

  /** Exactly the elements of a column have their address between its bounds. */
  lemma ColumnBounds(l: Layout, c: nat, b: nat, k: nat, br: nat, bc: nat)
    requires l.Valid() && c < l.n && b < l.nbCol && l.Element(k, br, bc) && l.InColumnRange(k)
    ensures l.ColumnBegin(c, b) <= l.Address(k, br, bc) < l.ColumnBegin(c, b) + l.Stride(c)
       <==> c == l.Col(k) && b == bc
  {
    l.AddressSplits(k, br, bc);
    ColumnInside(l, c, b);
    var c' := l.Col(k);
    if c' < c {
      l.OriginMonotone(c' + 1, c);
    } else if c < c' {
      l.OriginMonotone(c + 1, c');
    } else if bc < b {
      MultipleBelow(bc, b, l.Stride(c));
    } else if b < bc {
      MultipleBelow(b, bc, l.Stride(c));
    }
  }

  /** An index lies between the bounds of a column exactly if its element is in that column. */
  lemma ColumnHit(l: Layout, ap: seq<nat>, j: nat, k: nat, br: nat, bc: nat)
    requires l.Valid() && l.Element(k, br, bc) && j < l.n * l.nbCol && l.InColumnRange(k)
    requires |ap| == l.n * l.nbCol + 1 && ap[|ap| - 1] == l.Nonzeros() && ColumnsWritten(l, ap, |ap| - 1)
    ensures ap[j] <= l.Address(k, br, bc) < ap[j + 1] <==> j == l.ExpandedCol(k, bc)
  {
    var c, b := SplitDigits(j, l.n, l.nbCol);
    assert j == l.ColumnIndex(c, b);
    ColumnSpan(l, ap, c, b);
    ColumnBounds(l, c, b, k, br, bc);
    if j == l.ExpandedCol(k, bc) {
      DigitsUnique(c, b, l.Col(k), bc, l.nbCol);
    }
  }

  // ------------------------------------------------------------- filling the tables

  /** Collects where every column of blocks begins in the ordered list of blocks. */
  method FillColumnBegin(positions: seq<Position>, n: nat, nbRow: nat, nbCol: nat) returns (begin: seq<nat>)
    requires Ordered(positions) && InGrid(positions, n) && n >= 1
    ensures Layout(positions, n, nbRow, nbCol, begin).Valid()
  {
    begin := seq(n + 1, _ => 0);
    var atCol := 0;
    for posNdx := 0 to |positions|
      invariant |begin| == n + 1 && atCol < n
      invariant Assigned(positions, begin, atCol, posNdx)
      invariant atCol == 0 || begin[atCol] < posNdx
    {
      var col := positions[posNdx].col - 1;
      NotBehind(positions, begin, atCol, posNdx);
      if col != atCol {
        while atCol < col
          invariant |begin| == n + 1 && atCol <= col
          invariant Assigned(positions, begin, atCol, posNdx)
        {
          OpenNext(positions, begin, atCol, posNdx);
          atCol := atCol + 1;
          begin := begin[atCol := posNdx];
        }
      }
      TakeNext(positions, begin, atCol, posNdx);
    }
    while atCol < n - 1
      invariant |begin| == n + 1 && atCol < n
      invariant Assigned(positions, begin, atCol, |positions|)
    {
      OpenNext(positions, begin, atCol, |positions|);
      atCol := atCol + 1;
      begin := begin[atCol := |positions|];
    }
    OpenNext(positions, begin, atCol, |positions|);
    begin := begin[n := |positions|];
    AllAssigned(Layout(positions, n, nbRow, nbCol, begin));
  }

  /** Row indices of one column of one block. */
  method WriteRows(l: Layout, ai: seq<nat>, blk: nat, bc: nat, start: nat) returns (ai': seq<nat>, atNz: nat)
    requires l.Valid() && |ai| == l.Nonzeros()
    requires blk < |l.positions| && bc < l.nbCol && l.InColumnRange(blk)
    requires start == l.Address(blk, 0, bc) && RowsWritten(l, ai, start)
    ensures atNz == start + l.nbRow && |ai'| == |ai| && RowsWritten(l, ai', atNz)
    ensures forall i :: 0 <= i < |ai| ==>
              ai'[i] == if start <= i < atNz then (l.positions[blk].row - 1) * l.nbRow + (i - start) else ai[i]
  {
    ai', atNz := ai, start;
    var rowIndex := l.Row(blk) * l.nbRow;
    for subRowNdx := 0 to l.nbRow
      invariant atNz == start + subRowNdx && rowIndex == l.Row(blk) * l.nbRow + subRowNdx
      invariant |ai'| == |ai| && RowsWritten(l, ai', atNz)
      invariant forall i :: 0 <= i < |ai| ==>
                  ai'[i] == if start <= i < atNz then l.Row(blk) * l.nbRow + (i - start) else ai[i]
    {
      assert l.Element(blk, subRowNdx, bc) && atNz == l.Address(blk, subRowNdx, bc);
      RowWritten(l, ai', blk, subRowNdx, bc);
      ai' := ai'[atNz := rowIndex];
      rowIndex := rowIndex + 1;
      atNz := atNz + 1;
    }
  }

  /** Where column `bc` of the elements of a block begins. */
  ghost function BlockBegin(l: Layout, c: nat, bc: nat, k: nat): int
    requires l.Valid() && c < l.n
  {
    l.ColumnBegin(c, bc) + (k - l.begin[c]) * l.nbRow
  }

  lemma BlockBegins(l: Layout, c: nat, bc: nat, k: nat)
    requires l.Valid() && c < l.n && l.begin[c] <= k < l.begin[c + 1]
    ensures k < |l.positions| && l.InColumnRange(k) && BlockBegin(l, c, bc, k) == l.Address(k, 0, bc)
    ensures BlockBegin(l, c, bc, k + 1) == BlockBegin(l, c, bc, k) + l.nbRow
  {
    l.InColumn(k, c);
    SumTimes(k - l.begin[c], 1, l.nbRow);
    assert l.nbRow * (k - l.begin[c]) == (k - l.begin[c]) * l.nbRow;
  }

  /** One column of elements across all blocks of a block column. */
  method WriteColumn(l: Layout, ai: seq<nat>, c: nat, bc: nat, storageOnly: bool, start: nat)
    returns (ai': seq<nat>, atNz: nat)
    requires l.Valid() && c < l.n && bc < l.nbCol
    requires start == l.ColumnBegin(c, bc)
    requires !storageOnly ==> |ai| == l.Nonzeros() && RowsWritten(l, ai, start)
    ensures atNz == l.ColumnBegin(c, bc) + l.Stride(c)
    ensures if storageOnly then ai' == ai else |ai'| == |ai| && RowsWritten(l, ai', atNz)
  {
    ai', atNz := ai, start;
    for blkPos := l.begin[c] to l.begin[c + 1]
      invariant atNz == BlockBegin(l, c, bc, blkPos)
      invariant if storageOnly then ai' == ai else |ai'| == |ai| && RowsWritten(l, ai', atNz)
    {
      BlockBegins(l, c, bc, blkPos);
      if !storageOnly {
        ai', atNz := WriteRows(l, ai', blkPos, bc, atNz);
      } else {
        atNz := atNz + l.nbRow;
      }
    }
  }

  /** All columns of elements of one block column. */
  method WriteBlockColumn(l: Layout, ap: seq<nat>, ai: seq<nat>, c: nat, storageOnly: bool, col: nat, start: nat)
    returns (ap': seq<nat>, ai': seq<nat>, atCol: nat, atNz: nat)
    requires l.Valid() && c < l.n
    requires col == l.ColumnIndex(c, 0) && start == l.Origin(c)
    requires !storageOnly ==> |ap| == l.n * l.nbCol + 1 && ColumnsWritten(l, ap, col)
    requires !storageOnly ==> |ai| == l.Nonzeros() && RowsWritten(l, ai, start)
    ensures atCol == l.ColumnIndex(c + 1, 0) && atNz == l.Origin(c + 1)
    ensures storageOnly ==> ap' == ap && ai' == ai
    ensures !storageOnly ==> |ap'| == |ap| && ColumnsWritten(l, ap', atCol)
    ensures !storageOnly ==> |ai'| == |ai| && RowsWritten(l, ai', atNz)
  {
    ap', ai', atCol, atNz := ap, ai, col, start;
    for subColNdx := 0 to l.nbCol
      invariant atCol == l.ColumnIndex(c, subColNdx) && atNz == l.ColumnBegin(c, subColNdx)
      invariant storageOnly ==> ap' == ap && ai' == ai
      invariant !storageOnly ==> |ap'| == |ap| && ColumnsWritten(l, ap', atCol)
      invariant !storageOnly ==> |ai'| == |ai| && RowsWritten(l, ai', atNz)
    {
      if !storageOnly {
        ColumnWritten(l, ap', c, subColNdx);
        ap' := ap'[atCol := atNz];
      }
      ai', atNz := WriteColumn(l, ai', c, subColNdx, storageOnly, atNz);
      SumTimes(subColNdx, 1, l.Stride(c));
      atCol := atCol + 1;
    }
    l.NextOrigin(c);
    SumTimes(c, 1, l.nbCol);
  }

  /** Origins, strides and, unless only storage is wanted, the scalar tables. */
  method FillTables(l: Layout, storageOnly: bool)
    returns (origins: seq<nat>, strides: seq<nat>, ap: seq<nat>, ai: seq<nat>)
    requires l.Valid()
    ensures OriginsHold(l, origins, strides, l.n) && ScalarsHold(l, ap, ai)
    ensures (ap == []) == storageOnly
    ensures forall idx :: 0 <= idx < |ai| ==> ai[idx] < l.n * l.nbRow
  {
    origins, strides := seq(l.n, _ => 0), seq(l.n, _ => 0);
    if storageOnly {
      ap, ai := [], [];
    } else {
      ap, ai := seq(l.n * l.nbCol + 1, _ => 0), seq(l.Nonzeros(), _ => 0);
    }
    var atCol, atNz := 0, 0;
    for blockColNdx := 0 to l.n
      invariant atCol == l.ColumnIndex(blockColNdx, 0) && atNz == l.Origin(blockColNdx)
      invariant OriginsHold(l, origins, strides, blockColNdx)
      invariant storageOnly ==> ap == [] && ai == []
      invariant !storageOnly ==> |ap| == l.n * l.nbCol + 1 && ColumnsWritten(l, ap, atCol)
      invariant !storageOnly ==> |ai| == l.Nonzeros() && RowsWritten(l, ai, atNz)
    {
      var blocksInColumn := l.begin[blockColNdx + 1] - l.begin[blockColNdx];
      origins := origins[blockColNdx := atNz];
      strides := strides[blockColNdx := blocksInColumn * l.nbRow];
      ap, ai, atCol, atNz := WriteBlockColumn(l, ap, ai, blockColNdx, storageOnly, atCol, atNz);
    }
    if !storageOnly {
      ap := ap[atCol := atNz];
      forall idx | 0 <= idx < |ai|
        ensures ai[idx] < l.n * l.nbRow
      {
        RowsInside(l, ai, idx);
      }
    }
  }

  method BuildTables(positions: seq<Position>, n: nat, nbRow: nat, nbCol: nat, storageOnly: bool)
    returns (l: Layout, origins: seq<nat>, strides: seq<nat>, ap: seq<nat>, ai: seq<nat>)
    requires Ordered(positions) && InGrid(positions, n) && n >= 1
    ensures l.Valid() && l == Layout(positions, n, nbRow, nbCol, l.begin)
    ensures OriginsHold(l, origins, strides, n) && ScalarsHold(l, ap, ai)
    ensures (ap == []) == storageOnly
  {
    var begin := FillColumnBegin(positions, n, nbRow, nbCol);
    l := Layout(positions, n, nbRow, nbCol, begin);
    origins, strides, ap, ai := FillTables(l, storageOnly);
  }

  // -------------------------------------------------------------------- the class

  class CscBlockMatrix {
    var smap: SparsityMap?
    var n: nat
    var nbRow: nat
    var nbCol: nat
    var AN: nat
    var nnz: nat
    var AP: seq<nat>
    var AI: seq<nat>
    var Ax: array<real>
    var blockColumnOrigin: seq<nat>
    var blockColumnStride: seq<nat>
    var denseColumnBegin: seq<nat>
    var blockBucket: array<real>
    const largeBucket: bool

    constructor (largeBucket: bool)
      ensures smap == null && this.largeBucket == largeBucket
    {
      smap := null;
      n, nbRow, nbCol, AN, nnz := 0, 0, 0, 0, 0;
      AP, AI := [], [];
      Ax := new real[0];
      blockBucket := new real[0];
      blockColumnOrigin, blockColumnStride, denseColumnBegin := [], [], [];
      this.largeBucket := largeBucket;
    }

    ghost function Shape(): Layout
      requires smap != null
      reads this, smap
    {
      Layout(smap.Positions(), n, nbRow, nbCol, denseColumnBegin)
    }

    /** The tables describe the listed positions, and the storage has the right size. */
    ghost predicate Valid()
      reads this, smap
    {
      && smap != null && smap.Enumerated() && Shape().Valid() && n >= 1
      && AN == n * nbCol && nnz == Shape().Nonzeros() && Ax.Length == nnz
      && blockBucket != Ax && blockBucket.Length == (if largeBucket then nbRow * nbCol else 1)
      && OriginsHold(Shape(), blockColumnOrigin, blockColumnStride, n) && ScalarsHold(Shape(), AP, AI)
    }

    /** The values, all zero, and the bucket. */
    method Allocate()
      modifies this`Ax, this`blockBucket
      ensures fresh(Ax) && Ax.Length == nnz && forall i :: 0 <= i < Ax.Length ==> Ax[i] == 0.0
      ensures fresh(blockBucket) && blockBucket != Ax
      ensures blockBucket.Length == if largeBucket then nbRow * nbCol else 1
    {
      Ax := new real[nnz](_ => 0.0);
      blockBucket := new real[if largeBucket then nbRow * nbCol else 1];
    }

    method Adopt(m: SparsityMap, l: Layout, origins: seq<nat>, strides: seq<nat>, ap: seq<nat>, ai: seq<nat>)
      modifies this
      ensures smap == m && n == l.n && nbRow == l.nbRow && nbCol == l.nbCol && denseColumnBegin == l.begin
      ensures AN == l.n * l.nbCol && nnz == l.Nonzeros()
      ensures blockColumnOrigin == origins && blockColumnStride == strides && AP == ap && AI == ai
      ensures fresh(Ax) && Ax.Length == nnz && forall i :: 0 <= i < Ax.Length ==> Ax[i] == 0.0
      ensures fresh(blockBucket) && blockBucket != Ax
      ensures blockBucket.Length == if largeBucket then nbRow * nbCol else 1
    {
      Install(m, l, origins, strides, ap, ai);
      Allocate();
    }

    lemma Complete(l: Layout)
      requires smap != null && smap.Enumerated() && n >= 1 && l == Shape() && l.Valid()
      requires AN == n * nbCol && nnz == l.Nonzeros() && Ax.Length == nnz
      requires blockBucket != Ax && blockBucket.Length == (if largeBucket then nbRow * nbCol else 1)
      requires OriginsHold(l, blockColumnOrigin, blockColumnStride, n) && ScalarsHold(l, AP, AI)
      ensures Valid()
    {
    }

    /** Takes over finished tables. */
    method Install(m: SparsityMap, l: Layout, origins: seq<nat>, strides: seq<nat>, ap: seq<nat>, ai: seq<nat>)
      modifies this
      ensures smap == m && n == l.n && nbRow == l.nbRow && nbCol == l.nbCol && denseColumnBegin == l.begin
      ensures AN == l.n * l.nbCol && nnz == l.Nonzeros()
      ensures blockColumnOrigin == origins && blockColumnStride == strides && AP == ap && AI == ai
      ensures Ax == old(Ax) && blockBucket == old(blockBucket)
    {
      smap, n, nbRow, nbCol, denseColumnBegin := m, l.n, l.nbRow, l.nbCol, l.begin;
      AN, nnz := l.n * l.nbCol, l.Nonzeros();
      blockColumnOrigin, blockColumnStride, AP, AI := origins, strides, ap, ai;
    }

    /** Builds all tables for the listed positions; values start at zero. */
    method Rebuild(m: SparsityMap, n: nat, nbRow: nat, nbCol: nat, storageOnly: bool) returns (ok: bool)
      requires m.Enumerated() && n >= 1
      requires forall p :: p in m.smap ==> 1 <= p.row <= n && 1 <= p.col <= n
      modifies this
      ensures ok && Valid() && smap == m
      ensures this.n == n && this.nbRow == nbRow && this.nbCol == nbCol
      ensures (AP == []) == storageOnly
      ensures fresh(Ax) && forall i :: 0 <= i < Ax.Length ==> Ax[i] == 0.0
    {
      var positions := m.Positions();
      assert forall k :: 0 <= k < |positions| ==> positions[k] in m.smap;
      var l, origins, strides, ap, ai := BuildTables(positions, n, nbRow, nbCol, storageOnly);
      Adopt(m, l, origins, strides, ap, ai);
      ok := true;
      Complete(l);
    }

    // -------------------------------------------------- from positions to nonzeros

    /** Index of an element in the array of nonzeros; a block's origin if no place inside the
        block is named; nothing if there is no such block. */
    function ElementIndex(mep: Position, blockMep: Option<(nat, nat)>): (index: Option<int>)
      requires Valid()
      reads this, smap
      ensures index.Some? <==> mep in smap.smap
      ensures index.Some? ==>
                var k, place := smap.smap[mep].index, if blockMep.Some? then blockMep.value else (0, 0);
                Shape().InColumnRange(k) && index.value == Shape().Address(k, place.0, place.1)
    {
      var entry := smap.Find(mep);
      if entry.None? then None
      else
        Placed(mep);
        var col := mep.col - 1;
        var blockInColumn := entry.value.index - denseColumnBegin[col];
        var nzPosition := blockColumnOrigin[col] + nbRow * blockInColumn;
        Some(match blockMep
             case None => nzPosition
             case Some((brow, bcol)) => nzPosition + (bcol * blockColumnStride[col] + brow))
    }

    /** The entry of a position knows its place in the list of blocks. */
    lemma Placed(mep: Position)
      requires Valid() && mep in smap.smap
      ensures var k := smap.smap[mep].index;
        && k < |Shape().positions| && Shape().positions[k] == mep && Shape().InColumnRange(k)
    {
      var k := smap.smap[mep].index;
      assert Shape().positions[k] == mep;
    }

    /** The table lookup gives the place of the element in the layout. */
    lemma IndexIsAddress(mep: Position, br: nat, bc: nat)
      requires Valid() && mep in smap.smap && br < nbRow && bc < nbCol
      ensures var k := smap.smap[mep].index;
        && Shape().Element(k, br, bc) && Shape().InColumnRange(k) && Shape().positions[k] == mep
        && ElementIndex(mep, Some((br, bc))) == Some(Shape().Address(k, br, bc))
    {
      Placed(mep);
    }

    /** Block element (br,bc) of block `mep` exists. */
    ghost predicate Exists(mep: Position, br: nat, bc: nat)
      requires smap != null
      reads this, smap
    {
      mep in smap.smap && br < nbRow && bc < nbCol
    }

    /** Scalar row and column of an element, counted from 0. */
    function ScalarRow(mep: Position, br: nat): int
      reads this
    {
      (mep.row - 1) * nbRow + br
    }

    function ScalarCol(mep: Position, bc: nat): int
      reads this
    {
      (mep.col - 1) * nbCol + bc
    }

    /** Place (row, col) of the scalar matrix is place (br, bc) of block `mep`. */
    ghost predicate IsPlace(row: int, col: int, mep: Position, br: nat, bc: nat)
      requires nbRow > 0 && nbCol > 0
      reads this
    {
      && 0 <= row < n * nbRow && row / nbRow == mep.row - 1 && row % nbRow == br
      && 0 <= col < n * nbCol && col / nbCol == mep.col - 1 && col % nbCol == bc
    }

    lemma ScalarIsPlace(mep: Position, br: nat, bc: nat)
      requires Valid() && Exists(mep, br, bc)
      ensures IsPlace(ScalarRow(mep, br), ScalarCol(mep, bc), mep, br, bc)
    {
      Placed(mep);
      Shape().ExpandedDigits(smap.smap[mep].index, br, bc);
    }

    /** Column first, then row, on scalar positions. */
    ghost predicate ScalarBefore(mep: Position, br: nat, bc: nat, mep': Position, br': nat, bc': nat)
      reads this
    {
      || ScalarCol(mep, bc) < ScalarCol(mep', bc')
      || (ScalarCol(mep, bc) == ScalarCol(mep', bc') && ScalarRow(mep, br) < ScalarRow(mep', br'))
    }

    /** Different elements have different indices, all of them inside the value array, and
        the indices follow (scalar column, scalar row). */
    lemma IndexOrder(mep: Position, br: nat, bc: nat, mep': Position, br': nat, bc': nat)
      requires Valid() && Exists(mep, br, bc) && Exists(mep', br', bc')
      ensures var i, i' := ElementIndex(mep, Some((br, bc))).value, ElementIndex(mep', Some((br', bc'))).value;
        && i < Ax.Length
        && (i == i' <==> mep == mep' && br == br' && bc == bc')
        && (i < i' <==> ScalarBefore(mep, br, bc, mep', br', bc'))
    {
      IndexIsAddress(mep, br, bc);
      IndexIsAddress(mep', br', bc');
      var k, k' := smap.smap[mep].index, smap.smap[mep'].index;
      Shape().AddressOrder(k, br, bc, k', br', bc');
      Shape().AddressInRange(k, br, bc);
    }

    /** Every nonzero is some element's. */
    lemma IndexOnto(idx: nat) returns (mep: Position, br: nat, bc: nat)
      requires Valid() && idx < Ax.Length
      ensures Exists(mep, br, bc) && ElementIndex(mep, Some((br, bc))) == Some(idx)
    {
      var k;
      k, br, bc := Shape().AddressOnto(idx);
      mep := Shape().positions[k];
      assert smap.Positions()[k] == mep;
      IndexIsAddress(mep, br, bc);
    }

    // ------------------------------------------------------------------ dense blocks

    lemma OriginNatural(mep: Position)
      requires Valid() && mep in smap.smap
      ensures ElementIndex(mep, None).Some? && ElementIndex(mep, None).value >= 0
      ensures 1 <= mep.col <= |blockColumnStride|
    {
      Placed(mep);
      var col, k := mep.col - 1, smap.smap[mep].index;
      NonNegative(nbRow, k - denseColumnBegin[col]);
    }

    /** A dense view of a block; of the bucket if there is no such block. */
    function Block(mep: Position): (view: (MatrixView, bool))
      requires Valid()
      reads this, smap
      ensures view.1 <==> mep in smap.smap
      ensures view.0.rows == nbRow && view.0.cols == nbCol
      ensures !view.1 && largeBucket ==> view.0 == LayoutView(blockBucket, Column, nbRow, nbCol)
      ensures !view.1 && !largeBucket ==> forall r, c :: view.0.data == blockBucket && view.0.Address(r, c) == 0
      ensures view.1 ==>
                && view.0.data == Ax && view.0.rowStride == 1
                && view.0.colStride == Shape().Stride(mep.col - 1)
                && Some(view.0.start) == ElementIndex(mep, None)
    {
      match ElementIndex(mep, None)
      case None =>
        if largeBucket then (MatrixView(blockBucket, 0, nbRow, nbCol, 1, nbRow), false)
        else (MatrixView(blockBucket, 0, nbRow, nbCol, 0, 0), false)
      case Some(nzPosition) =>
        OriginNatural(mep);
        (MatrixView(Ax, nzPosition, nbRow, nbCol, 1, blockColumnStride[mep.col - 1]), true)
    }

    /** The view reaches the same cells as the element index, and they are all different. */
    lemma BlockIsElements(mep: Position)
      requires Valid() && mep in smap.smap
      ensures Block(mep).0.Valid()
      ensures forall r: nat, c: nat :: r < nbRow && c < nbCol ==>
                ElementIndex(mep, Some((r, c))) == Some(Block(mep).0.Address(r, c))
    {
      var view := Block(mep).0;
      forall r: nat, c: nat | r < nbRow && c < nbCol
        ensures ElementIndex(mep, Some((r, c))) == Some(view.Address(r, c)) && view.Address(r, c) < Ax.Length
      {
        IndexOrder(mep, r, c, mep, r, c);
      }
      forall r, c, r', c'
        ensures view.Apart(r, c, r', c')
      {
        if view.Inside(r, c) && view.Inside(r', c') && view.Address(r, c) == view.Address(r', c') {
          IndexOrder(mep, r, c, mep, r', c');
        }
      }
    }

    /** Writing through the view of one block leaves every other block alone. */
    lemma BlocksApart(mep: Position, mep': Position, r: nat, c: nat)
      requires Valid() && mep in smap.smap && mep' in smap.smap && mep != mep'
      requires r < nbRow && c < nbCol
      ensures !Block(mep).0.Covers(Block(mep').0.Address(r, c))
    {
      var view, view' := Block(mep).0, Block(mep').0;
      BlockIsElements(mep);
      BlockIsElements(mep');
      forall r': nat, c': nat | view.Inside(r', c')
        ensures view.Address(r', c') != view'.Address(r, c)
      {
        IndexOrder(mep, r', c', mep', r, c);
      }
    }

    // -------------------------------------------------- from nonzeros to positions

    /** What the scan finds: the column table separates the elements by scalar column, and
        the row table names their rows. */
    lemma ScanMeaning(j: nat, mep: Position, br: nat, bc: nat, idx: nat)
      requires Valid() && AP != [] && j < AN
      requires Exists(mep, br, bc) && ElementIndex(mep, Some((br, bc))) == Some(idx)
      ensures |AP| == AN + 1 && idx < |AI|
      ensures AP[j] <= idx < AP[j + 1] <==> j == ScalarCol(mep, bc)
      ensures AI[idx] == ScalarRow(mep, br)
    {
      IndexIsAddress(mep, br, bc);
      IndexOrder(mep, br, bc, mep, br, bc);
      ColumnHit(Shape(), AP, j, smap.smap[mep].index, br, bc);
    }

    /** Every nonzero is in some column. */
    lemma NoMiss(idx: nat)
      requires Valid() && AP != [] && idx < Ax.Length
      ensures |AP| == AN + 1 && exists j :: 0 <= j < AN && AP[j] <= idx < AP[j + 1]
    {
      var mep, br, bc := IndexOnto(idx);
      IndexIsAddress(mep, br, bc);
      var j := Shape().ColumnIndex(mep.col - 1, bc);
      Shape().ColumnIndexBelow(mep.col - 1, bc);
      ScanMeaning(j, mep, br, bc, idx);
    }

    /** Indices past the end are in no column. */
    lemma NoColumnPastEnd(j: nat)
      requires Valid() && AP != [] && j < AN
      ensures |AP| == AN + 1 && AP[j + 1] <= nnz
    {
      var l := Shape();
      var c, b := SplitDigits(j, n, nbCol);
      assert j == l.ColumnIndex(c, b);
      ColumnSpan(l, AP, c, b);
      l.NextOrigin(c);
      MultipleBelow(b, nbCol, l.Stride(c));
      l.OriginMonotone(c + 1, n);
    }

    /** Scalar row and column of a nonzero, by scanning the column table. */
    method ElementAt(idx: int) returns (row: int, col: int)
      requires Valid()
      ensures (row, col) == (-1, -1) <==> AP == [] || idx < 0 || idx >= Ax.Length
      ensures (row, col) != (-1, -1) ==> forall mep, br, bc ::
                Exists(mep, br, bc) && ElementIndex(mep, Some((br, bc))) == Some(idx) ==>
                  row == ScalarRow(mep, br) && col == ScalarCol(mep, bc) && IsPlace(row, col, mep, br, bc)
    {
      if |AP| == AN + 1 {
        for j := 0 to AN
          invariant forall j' :: 0 <= j' < j ==> !(AP[j'] <= idx < AP[j' + 1])
        {
          if AP[j] <= idx < AP[j + 1] {
            NoColumnPastEnd(j);
            forall mep, br, bc | Exists(mep, br, bc) && ElementIndex(mep, Some((br, bc))) == Some(idx)
              ensures AI[idx] == ScalarRow(mep, br) && j == ScalarCol(mep, bc) && IsPlace(AI[idx], j, mep, br, bc)
            {
              ScanMeaning(j, mep, br, bc, idx);
              ScalarIsPlace(mep, br, bc);
            }
            return AI[idx], j;
          }
        }
        if 0 <= idx < Ax.Length {
          NoMiss(idx);
        }
      }
      return -1, -1;
    }
  }
}
