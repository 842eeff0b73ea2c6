/** Where the elements of a block-sparse matrix live (include/cscblkmatrix.h:48-118 and
    162-198): dense blocks in column-major order, the columns of one block column one after
    the other, so that the blocks of a column are interleaved. */
module CscBlockLayouts {
  import opened SparsityMaps
  import opened DenseMatrices

  /** The blocks in order, the block size, and the number of blocks before each column. */
  datatype Layout = Layout(positions: seq<Position>, n: nat, nbRow: nat, nbCol: nat, begin: seq<nat>)
  {
    ghost predicate Valid()
    {
      && Ordered(positions)
      && (forall k :: 0 <= k < |positions| ==> 1 <= positions[k].row <= n && 1 <= positions[k].col <= n)
      && |begin| == n + 1 && begin[0] == 0 && begin[n] == |positions|
      && (forall c, d :: 0 <= c <= d <= n ==> begin[c] <= begin[d])
      && (forall k :: 0 <= k < |positions| ==> begin[positions[k].col - 1] <= k < begin[positions[k].col])
    }

    /** The 0-based block column and block row of the k-th block. */
    function Col(k: nat): nat
      requires k < |positions| && positions[k].col >= 1
    {
      positions[k].col - 1
    }

    function Row(k: nat): nat
      requires k < |positions| && positions[k].row >= 1
    {
      positions[k].row - 1
    }

    function Count(c: nat): nat
      requires c + 1 < |begin| && begin[c] <= begin[c + 1]
    {
      begin[c + 1] - begin[c]
    }

    function BlockSize(): nat { nbRow * nbCol }

    function Origin(c: nat): nat
      requires c < |begin|
    {
      begin[c] * BlockSize()
    }

    function Stride(c: nat): nat
      requires c + 1 < |begin| && begin[c] <= begin[c + 1]
    {
      Count(c) * nbRow
    }

    function Nonzeros(): nat { |positions| * BlockSize() }

    /** An element: which block, which row and column inside it. */
    ghost predicate Element(k: nat, br: nat, bc: nat)
    {
      k < |positions| && br < nbRow && bc < nbCol
    }

    /** Columns do not overlap: a place inside a column's range belongs to that column. */
    lemma InColumn(k: nat, c: nat)
      requires Valid() && c < n && begin[c] <= k < begin[c + 1]
      ensures k < |positions| && Col(k) == c
    {
      assert begin[c + 1] <= begin[n];
    }

    // ------------------------------------------------------------ the address

    /** Position of an element in the array of nonzeros. */
    function Address(k: nat, br: nat, bc: nat): nat
      requires k < |positions| && positions[k].col >= 1
      requires var c := Col(k); c + 1 < |begin| && begin[c] <= k && begin[c] <= begin[c + 1]
    {
      var c := Col(k);
      Origin(c) + nbRow * (k - begin[c]) + bc * Stride(c) + br
    }

    /** Inside one column of elements. */
    function Offset(k: nat, br: nat): nat
      requires k < |positions| && positions[k].col >= 1 && Col(k) < |begin| && begin[Col(k)] <= k
    {
      (k - begin[Col(k)]) * nbRow + br
    }

    lemma AddressSplits(k: nat, br: nat, bc: nat)
      requires Valid() && Element(k, br, bc)
      ensures Col(k) < n && begin[Col(k)] <= k < begin[Col(k) + 1]
      ensures Address(k, br, bc) == Origin(Col(k)) + bc * Stride(Col(k)) + Offset(k, br)
      ensures Offset(k, br) < Stride(Col(k))
      ensures Origin(Col(k)) <= Address(k, br, bc) < Origin(Col(k) + 1)
    {
      var c := Col(k);
      OffsetBelow(k, br);
      MultipleBelow(bc, nbCol, Stride(c));
      NextOrigin(c);
    }

    lemma OffsetBelow(k: nat, br: nat)
      requires Valid() && k < |positions| && br < nbRow
      ensures Offset(k, br) < Stride(Col(k))
      ensures Offset(k, br) == nbRow * (k - begin[Col(k)]) + br
    {
      var q := k - begin[Col(k)];
      assert nbRow * q == q * nbRow;
      MultipleBelow(q, Count(Col(k)), nbRow);
    }

    /** A block column takes up nbCol columns of its stride. */
    lemma NextOrigin(c: nat)
      requires Valid() && c < n
      ensures Origin(c + 1) == Origin(c) + nbCol * Stride(c)
    {
      var m, r, w := Count(c), nbRow, nbCol;
      assert begin[c + 1] == begin[c] + m;
      SumTimes(begin[c], m, r * w);
      assert w * (m * r) == m * (r * w) by { Rearrange(m, r, w); }
    }

    lemma OriginMonotone(c: nat, d: nat)
      requires Valid() && c <= d <= n
      ensures Origin(c) <= Origin(d) <= Nonzeros()
    {
      MultipleAtLeast(begin[c], begin[d], BlockSize());
      MultipleAtLeast(begin[d], |positions|, BlockSize());
    }

    lemma AddressInRange(k: nat, br: nat, bc: nat)
      requires Valid() && Element(k, br, bc)
      ensures InColumnRange(k) && Address(k, br, bc) < Nonzeros()
    {
      AddressSplits(k, br, bc);
      OriginMonotone(Col(k) + 1, n);
    }

    ghost predicate InColumnRange(k: nat)
    {
      && k < |positions| && positions[k].col >= 1 && Col(k) + 1 < |begin|
      && begin[Col(k)] <= k < begin[Col(k) + 1]
    }

    // --------------------------------------------------------------- a bijection

    /** The expanded matrix: scalar row and column of an element. */
    function ExpandedCol(k: nat, bc: nat): nat
      requires k < |positions| && positions[k].col >= 1
    {
      Col(k) * nbCol + bc
    }

    function ExpandedRow(k: nat, br: nat): nat
      requires k < |positions| && positions[k].row >= 1
    {
      Row(k) * nbRow + br
    }

    /** The scalar row of an element lies in the rows of its block, at the element's place, and
        so inside the matrix; likewise its column. */
    lemma ExpandedDigits(k: nat, br: nat, bc: nat)
      requires Valid() && Element(k, br, bc)
      ensures ExpandedRow(k, br) / nbRow == positions[k].row - 1 && ExpandedRow(k, br) % nbRow == br
      ensures ExpandedCol(k, bc) / nbCol == positions[k].col - 1 && ExpandedCol(k, bc) % nbCol == bc
      ensures ExpandedRow(k, br) < n * nbRow && ExpandedCol(k, bc) < n * nbCol
    {
      DigitsByDivision(Row(k), br, nbRow, ExpandedRow(k, br));
      DigitsByDivision(Col(k), bc, nbCol, ExpandedCol(k, bc));
      MultipleBelow(Row(k), n, nbRow);
      MultipleBelow(Col(k), n, nbCol);
    }

    /** The b-th column of elements in block column c: its number, and where it starts. */
    function ColumnIndex(c: nat, b: nat): nat { c * nbCol + b }

    lemma ColumnIndexBelow(c: nat, b: nat)
      requires c < n && b < nbCol
      ensures ColumnIndex(c, b) < n * nbCol
    {
      MultipleBelow(c, n, nbCol);
    }

    function ColumnBegin(c: nat, b: nat): nat
      requires c + 1 < |begin| && begin[c] <= begin[c + 1]
    {
      Origin(c) + b * Stride(c)
    }

    /** Column first, then row, on expanded positions. */
    ghost predicate ElementBefore(k: nat, br: nat, bc: nat, k': nat, br': nat, bc': nat)
      requires Valid() && Element(k, br, bc) && Element(k', br', bc')
    {
      || ExpandedCol(k, bc) < ExpandedCol(k', bc')
      || (ExpandedCol(k, bc) == ExpandedCol(k', bc') && ExpandedRow(k, br) < ExpandedRow(k', br'))
    }

    lemma EarlierIsLower(k: nat, br: nat, bc: nat, k': nat, br': nat, bc': nat)
      requires Valid() && Element(k, br, bc) && Element(k', br', bc')
      requires ElementBefore(k, br, bc, k', br', bc')
      ensures InColumnRange(k) && InColumnRange(k') && Address(k, br, bc) < Address(k', br', bc')
    {
      AddressSplits(k, br, bc);
      AddressSplits(k', br', bc');
      var c, c' := Col(k), Col(k');
      if c' < c {
        MultipleBelow(c', c, nbCol);
        assert false;
      } else if c < c' {
        OriginMonotone(c + 1, c');
      } else if bc < bc' {
        MultipleBelow(bc, bc', Stride(c));
      } else {
        assert bc == bc' && ExpandedRow(k, br) < ExpandedRow(k', br');
        if Row(k') < Row(k) {
          MultipleBelow(Row(k'), Row(k), nbRow);
          assert false;
        } else if Row(k) < Row(k') {
          SameColumnOrder(k, k');
          MultipleBelow(k - begin[c], k' - begin[c], nbRow);
        } else {
          SamePosition(k, k');
        }
      }
    }

    lemma SameColumnOrder(k: nat, k': nat)
      requires Valid() && k < |positions| && k' < |positions| && Col(k) == Col(k') && Row(k) < Row(k')
      ensures k < k'
    {
    }

    lemma SamePosition(k: nat, k': nat)
      requires Valid() && k < |positions| && k' < |positions| && positions[k] == positions[k']
      ensures k == k'
    {
    }

    /** Addresses follow compressed-column order exactly. */
    lemma AddressOrder(k: nat, br: nat, bc: nat, k': nat, br': nat, bc': nat)
      requires Valid() && Element(k, br, bc) && Element(k', br', bc')
      ensures InColumnRange(k) && InColumnRange(k')
      ensures Address(k, br, bc) < Address(k', br', bc') <==> ElementBefore(k, br, bc, k', br', bc')
      ensures Address(k, br, bc) == Address(k', br', bc') <==> k == k' && br == br' && bc == bc'
    {
      if ElementBefore(k, br, bc, k', br', bc') {
        EarlierIsLower(k, br, bc, k', br', bc');
      } else if ElementBefore(k', br', bc', k, br, bc) {
        EarlierIsLower(k', br', bc', k, br, bc);
      } else {
        DigitsUnique(Col(k), bc, Col(k'), bc', nbCol);
        DigitsUnique(Row(k), br, Row(k'), br', nbRow);
        SamePosition(k, k');
      }
    }

    /** Every nonzero belongs to an element. */
    lemma AddressOnto(idx: nat) returns (k: nat, br: nat, bc: nat)
      requires Valid() && idx < Nonzeros()
      ensures Element(k, br, bc) && InColumnRange(k) && Address(k, br, bc) == idx
    {
      var c := FindOrigin(idx, n);
      NextOrigin(c);
      var local := idx - Origin(c);
      var rest;
      bc, rest := SplitDigits(local, nbCol, Stride(c));
      var q;
      q, br := SplitDigits(rest, Count(c), nbRow);
      k := begin[c] + q;
      InColumn(k, c);
      AddressSplits(k, br, bc);
    }

    lemma {:induction false} FindOrigin(idx: nat, d: nat) returns (c: nat)
      requires Valid() && d <= n && idx < Origin(d)
      ensures c < d && Origin(c) <= idx < Origin(c + 1)
    {
      if d == 0 {
        assert false;
      }
      if Origin(d - 1) <= idx {
        c := d - 1;
      } else {
        c := FindOrigin(idx, d - 1);
      }
    }
  }

  lemma SumTimes(a: nat, b: nat, d: nat)
    ensures (a + b) * d == a * d + b * d
  {
  }

  lemma Rearrange(m: nat, r: nat, w: nat)
    ensures w * (m * r) == m * (r * w)
  {
  }
}
