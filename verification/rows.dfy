/**
 * The vertical flip `bmp_writer` applies to a pixel block before writing it:
 * the block holds `height` rows of `rowLen` bytes stored top row first, and a
 * bitmap file stores its bottom row first, so row i and row height-1-i are
 * exchanged for every i < height / 2, in place, by `swap_lines`.
 *
 * Row starts are given by `Offset`, defined by repeated addition, so that the
 * proofs about the loop reason about offsets without multiplication;
 * `OffsetIsProduct` connects it to the `byte_w * i` the code computes.
 */
module Rows {
  import opened Bytes

  /** Start of row `row` in a block of `rowLen`-byte rows. */
  function Offset(row: nat, rowLen: nat): nat
  {
    if row == 0 then 0 else Offset(row - 1, rowLen) + rowLen
  }

  /** The start of row `row` is `row * rowLen`. */
  lemma {:induction false} OffsetIsProduct(row: nat, rowLen: nat)
    ensures Offset(row, rowLen) == row * rowLen
  {
    if row > 0 {
      OffsetIsProduct(row - 1, rowLen);
      assert row * rowLen == (row - 1) * rowLen + rowLen;
    }
  }

  /** A row that comes entirely before another ends no later than the other starts. */
  lemma {:induction false} RowPrecedes(r1: nat, r2: nat, rowLen: nat)
    requires r1 < r2
    ensures Offset(r1, rowLen) + rowLen <= Offset(r2, rowLen)
    decreases r2
  {
    if r1 + 1 < r2 {
      RowPrecedes(r1, r2 - 1, rowLen);
    }
  }

  /**
   * Rows i and height-1-i of the first half: the first ends before the second
   * starts, and the second ends within the block.
   */
  lemma RowPair(i: nat, height: nat, rowLen: nat)
    requires i < height / 2
    ensures Offset(i, rowLen) == i * rowLen
    ensures Offset(height - i - 1, rowLen) == (height - i - 1) * rowLen
    ensures Offset(i, rowLen) + rowLen <= Offset(height - i - 1, rowLen)
    ensures Offset(height - i - 1, rowLen) + rowLen <= Offset(height, rowLen)
  {
    var j := height - i - 1;
    assert i < j < height;
    OffsetIsProduct(i, rowLen);
    OffsetIsProduct(j, rowLen);
    RowPrecedes(i, j, rowLen);
    RowPrecedes(j, height, rowLen);
  }

  /** Position of byte `col` of row `row`. */
  function Idx(row: nat, col: nat, rowLen: nat): nat
  {
    Offset(row, rowLen) + col
  }

  /** A position inside the first `height` rows lies inside the block. */
  lemma IdxInBlock(row: nat, col: nat, rowLen: nat, height: nat)
    requires row < height && col < rowLen
    ensures Idx(row, col, rowLen) < Offset(height, rowLen)
  {
    RowPrecedes(row, height, rowLen);
  }

  /** Division by the row length recovers the row and column of a position. */
  lemma IdxDivMod(row: nat, col: nat, rowLen: nat)
    requires col < rowLen
    ensures Idx(row, col, rowLen) / rowLen == row
    ensures Idx(row, col, rowLen) % rowLen == col
  {
    OffsetIsProduct(row, rowLen);
    var k := Idx(row, col, rowLen);
    var q, r := k / rowLen, k % rowLen;
    OffsetIsProduct(q, rowLen);
    assert k == Offset(q, rowLen) + r;
    if q < row {
      RowPrecedes(q, row, rowLen);
      assert false;
    } else if q > row {
      RowPrecedes(row, q, rowLen);
      assert false;
    }
  }

  /** Every position inside the first `height` rows has a row and a column. */
  lemma PositionOf(k: nat, rowLen: nat, height: nat)
    requires k < Offset(height, rowLen)
    ensures rowLen > 0
    ensures k / rowLen < height && k % rowLen < rowLen
    ensures k == Idx(k / rowLen, k % rowLen, rowLen)
  {
    assert rowLen > 0 by {
      if rowLen == 0 {
        OffsetIsProduct(height, rowLen);
        assert false;
      }
    }
    var q, r := k / rowLen, k % rowLen;
    assert k == q * rowLen + r && r < rowLen;
    assert k == Offset(q, rowLen) + r by {
      OffsetIsProduct(q, rowLen);
    }
    if q >= height {
      if q > height {
        RowPrecedes(height, q, rowLen);
      }
      assert false;
    }
  }

  /** Where byte `k` of the flipped block is taken from. */
  function Mirror(k: nat, rowLen: nat, height: nat): (m: nat)
    requires k < Offset(height, rowLen)
    ensures m < Offset(height, rowLen)
  {
    PositionOf(k, rowLen, height);
    var row, col := k / rowLen, k % rowLen;
    IdxInBlock(height - 1 - row, col, rowLen, height);
    Idx(height - 1 - row, col, rowLen)
  }

  /** Flipping row `row` takes its bytes from row `height - 1 - row`, column by column. */
  lemma MirrorOfIdx(row: nat, col: nat, rowLen: nat, height: nat)
    requires row < height && col < rowLen
    ensures Idx(row, col, rowLen) < Offset(height, rowLen)
    ensures Mirror(Idx(row, col, rowLen), rowLen, height) == Idx(height - 1 - row, col, rowLen)
  {
    IdxInBlock(row, col, rowLen, height);
    IdxDivMod(row, col, rowLen);
  }

  /** Mirroring a position twice gives the position back. */
  lemma MirrorInvolution(k: nat, rowLen: nat, height: nat)
    requires k < Offset(height, rowLen)
    ensures Mirror(Mirror(k, rowLen, height), rowLen, height) == k
  {
    var row, col := RowCol(k, rowLen, height);
    MirrorOfIdx(row, col, rowLen, height);
    MirrorOfIdx(height - 1 - row, col, rowLen, height);
    assert height - 1 - (height - 1 - row) == row;
  }

  /** The row and column of a position inside the first `height` rows. */
  lemma RowCol(k: nat, rowLen: nat, height: nat) returns (row: nat, col: nat)
    requires k < Offset(height, rowLen)
    ensures row < height && col < rowLen && k == Idx(row, col, rowLen)
  {
    PositionOf(k, rowLen, height);
    row, col := k / rowLen, k % rowLen;
  }

  /**
   * The block with its first `height` rows in reverse order; bytes past those
   * rows stay where they are.
   */
  function ReverseRows(s: seq<byte>, rowLen: nat, height: nat): (r: seq<byte>)
    requires rowLen * height <= |s|
    ensures |r| == |s|
    ensures forall k :: rowLen * height <= k < |s| ==> r[k] == s[k]
  {
    OffsetIsProduct(height, rowLen);
    seq(|s|, k requires 0 <= k < |s| =>
      if k < Offset(height, rowLen) then s[Mirror(k, rowLen, height)] else s[k])
  }

  /** Row `row` of the flipped block is row `height - 1 - row` of the original. */
  lemma ReverseRowsRow(s: seq<byte>, rowLen: nat, height: nat, row: nat, col: nat)
    requires rowLen * height <= |s|
    requires row < height && col < rowLen
    ensures Idx(row, col, rowLen) < rowLen * height
    ensures Idx(height - 1 - row, col, rowLen) < rowLen * height
    ensures ReverseRows(s, rowLen, height)[Idx(row, col, rowLen)]
         == s[Idx(height - 1 - row, col, rowLen)]
  {
    OffsetIsProduct(height, rowLen);
    MirrorOfIdx(row, col, rowLen, height);
    IdxInBlock(height - 1 - row, col, rowLen, height);
  }

  /** In a block of odd height the middle row does not move. */
  lemma MiddleRowFixed(s: seq<byte>, rowLen: nat, height: nat, col: nat)
    requires rowLen * height <= |s|
    requires height % 2 == 1 && col < rowLen
    ensures Idx(height / 2, col, rowLen) < |s|
    ensures ReverseRows(s, rowLen, height)[Idx(height / 2, col, rowLen)]
         == s[Idx(height / 2, col, rowLen)]
  {
    ReverseRowsRow(s, rowLen, height, height / 2, col);
  }

  /** Flipping twice restores the original block. */
  lemma ReverseRowsTwice(s: seq<byte>, rowLen: nat, height: nat)
    requires rowLen * height <= |s|
    ensures ReverseRows(ReverseRows(s, rowLen, height), rowLen, height) == s
  {
    OffsetIsProduct(height, rowLen);
    var once := ReverseRows(s, rowLen, height);
    var twice := ReverseRows(once, rowLen, height);
    forall k | 0 <= k < |s|
      ensures twice[k] == s[k]
    {
      if k < Offset(height, rowLen) {
        MirrorInvolution(k, rowLen, height);
      }
    }
  }

  /** Flipping the block of a buffer and then cutting the buffer to the block commute. */
  lemma ReverseRowsPrefix(s: seq<byte>, rowLen: nat, height: nat)
    requires rowLen * height <= |s|
    ensures ReverseRows(s, rowLen, height)[..rowLen * height]
         == ReverseRows(s[..rowLen * height], rowLen, height)
  {
    OffsetIsProduct(height, rowLen);
  }

  /**
   * `after` is `before` with the `size` bytes at `line0` and the `size` bytes
   * at `line1` exchanged, every other byte unchanged.
   */
  ghost predicate Swapped(after: seq<byte>, before: seq<byte>, line0: nat, line1: nat, size: nat)
  {
    && |after| == |before|
    && line0 + size <= |before| && line1 + size <= |before|
    && (forall k :: line0 <= k < line0 + size ==> after[k] == before[k - line0 + line1])
    && (forall k :: line1 <= k < line1 + size ==> after[k] == before[k - line1 + line0])
    && (forall k :: (0 <= k < |after| && !(line0 <= k < line0 + size)
                     && !(line1 <= k < line1 + size)) ==> after[k] == before[k])
  }

  /**
   * `swap_lines`: exchanges the `size` bytes starting at `line0` with the
   * `size` bytes starting at `line1`, one byte at a time with three
   * exclusive-or assignments. The two ranges must not overlap: on a shared
   * cell the exclusive-or exchange would clear the byte instead.
   */
  method SwapLines(a: array<byte>, line0: nat, line1: nat, size: nat)
    requires line0 + size <= line1 || line1 + size <= line0
    requires line0 + size <= a.Length && line1 + size <= a.Length
    modifies a
    ensures Swapped(a[..], old(a[..]), line0, line1, size)
  {
    ghost var orig := a[..];
    var i := 0;
    while i < size
      invariant 0 <= i <= size
      invariant Swapped(a[..], orig, line0, line1, i)
    {
      var p, q := line0 + i, line1 + i;
      ghost var before := a[..];
      ghost var after := before[p := before[q]][q := before[p]];
      SwapStep(before, orig, line0, line1, i, size);
      ghost var swapped := XorSwap(a[p], a[q]);
      a[p] := Xor(a[p], a[q]);
      a[q] := Xor(a[q], a[p]);
      a[p] := Xor(a[p], a[q]);
      assert a[p] == swapped.0 && a[q] == swapped.1;
      assert a[..] == after;
      i := i + 1;
    }
  }

  /** `swap_lines` run on a fresh copy of a buffer. */
  method SwapLinesOf(s: seq<byte>, line0: nat, line1: nat, size: nat) returns (r: seq<byte>)
    requires line0 + size <= line1 || line1 + size <= line0
    requires line0 + size <= |s| && line1 + size <= |s|
    ensures Swapped(r, s, line0, line1, size)
  {
    var a := new byte[|s|](k requires 0 <= k < |s| => s[k]);
    assert a[..] == s;
    SwapLines(a, line0, line1, size);
    r := a[..];
  }

  /** Exchanging the next pair of bytes extends the exchanged ranges by one. */
  lemma SwapStep(before: seq<byte>, orig: seq<byte>, line0: nat, line1: nat, i: nat, size: nat)
    requires line0 + size <= line1 || line1 + size <= line0
    requires line0 + size <= |orig| && line1 + size <= |orig|
    requires i < size && Swapped(before, orig, line0, line1, i)
    ensures Swapped(before[line0 + i := before[line1 + i]][line1 + i := before[line0 + i]],
                    orig, line0, line1, i + 1)
  {
  }

  /** The byte at row `row`, column `col` of `s`, or 0 past its end. */
  ghost function At(s: seq<byte>, row: nat, col: nat, rowLen: nat): byte
  {
    if Idx(row, col, rowLen) < |s| then s[Idx(row, col, rowLen)] else 0
  }

  /**
   * Rows already handled by the first `done` iterations of the flip loop are
   * exchanged with their partners; all other bytes are as they were. The
   * quantifier fires on the current block only, not on the original.
   */
  ghost predicate FlippedUpTo(cur: seq<byte>, orig: seq<byte>, rowLen: nat, height: nat, done: nat)
  {
    && |cur| == |orig|
    && (forall row: nat, col: nat {:trigger At(cur, row, col, rowLen)} :: row < height && col < rowLen ==>
          At(cur, row, col, rowLen) ==
            (if row < done || height - done <= row
             then At(orig, height - 1 - row, col, rowLen)
             else At(orig, row, col, rowLen)))
    && (forall k :: Offset(height, rowLen) <= k < |cur| ==> cur[k] == orig[k])
  }

  /** Before the flip loop runs, no row has moved. */
  lemma FlipStart(orig: seq<byte>, rowLen: nat, height: nat)
    ensures FlippedUpTo(orig, orig, rowLen, height, 0)
  {
  }

  /** A byte outside both swapped rows keeps the value it had before the swap. */
  lemma UntouchedRow(before: seq<byte>, after: seq<byte>, rowLen: nat, height: nat,
                     i: nat, top: nat, bottom: nat, row: nat, col: nat)
    requires Offset(height, rowLen) <= |before|
    requires i < height / 2 && row < height && col < rowLen
    requires row != i && row != height - 1 - i
    requires top == Offset(i, rowLen) && bottom == Offset(height - i - 1, rowLen)
    requires Swapped(after, before, top, bottom, rowLen)
    ensures Idx(row, col, rowLen) < |after|
    ensures after[Idx(row, col, rowLen)] == before[Idx(row, col, rowLen)]
  {
    IdxInBlock(row, col, rowLen, height);
    RowPrecedes(i, height - i - 1, rowLen);
    if row < i {
      RowPrecedes(row, i, rowLen);
    } else if row < height - 1 - i {
      RowPrecedes(i, row, rowLen);
      RowPrecedes(row, height - 1 - i, rowLen);
    } else {
      RowPrecedes(height - 1 - i, row, rowLen);
    }
  }

  /** The byte at row `row`, column `col` after one more iteration of the flip loop. */
  lemma FlipStepAt(before: seq<byte>, after: seq<byte>, orig: seq<byte>,
                   rowLen: nat, height: nat, i: nat, top: nat, bottom: nat, row: nat, col: nat)
    requires |before| == |orig| && Offset(height, rowLen) <= |orig|
    requires i < height / 2 && row < height && col < rowLen
    requires FlippedUpTo(before, orig, rowLen, height, i)
    requires top == Offset(i, rowLen) && bottom == Offset(height - i - 1, rowLen)
    requires Swapped(after, before, top, bottom, rowLen)
    ensures At(after, row, col, rowLen) ==
      (if row < i + 1 || height - (i + 1) <= row
       then At(orig, height - 1 - row, col, rowLen)
       else At(orig, row, col, rowLen))
  {
    IdxInBlock(row, col, rowLen, height);
    IdxInBlock(height - 1 - row, col, rowLen, height);
    if row == i {
      assert At(before, height - 1 - row, col, rowLen) == At(orig, height - 1 - row, col, rowLen);
    } else if row == height - 1 - i {
      assert At(before, i, col, rowLen) == At(orig, i, col, rowLen);
    } else {
      UntouchedRow(before, after, rowLen, height, i, top, bottom, row, col);
      assert At(before, row, col, rowLen) == before[Idx(row, col, rowLen)];
    }
  }

  /** One iteration of the flip loop extends the flipped rows by one at each end. */
  lemma FlipStep(before: seq<byte>, after: seq<byte>, orig: seq<byte>,
                 rowLen: nat, height: nat, i: nat, top: nat, bottom: nat)
    requires |before| == |orig| && Offset(height, rowLen) <= |orig|
    requires i < height / 2
    requires FlippedUpTo(before, orig, rowLen, height, i)
    requires top == Offset(i, rowLen) && bottom == Offset(height - i - 1, rowLen)
    requires Swapped(after, before, top, bottom, rowLen)
    ensures FlippedUpTo(after, orig, rowLen, height, i + 1)
  {
    forall row: nat, col: nat {:trigger At(after, row, col, rowLen)} | row < height && col < rowLen
      ensures At(after, row, col, rowLen) ==
        (if row < i + 1 || height - (i + 1) <= row
         then At(orig, height - 1 - row, col, rowLen)
         else At(orig, row, col, rowLen))
    {
      FlipStepAt(before, after, orig, rowLen, height, i, top, bottom, row, col);
    }
    FlipStepTail(before, after, orig, rowLen, height, i, top, bottom);
  }

  /** The bytes past the pixel block are untouched by an iteration of the flip loop. */
  lemma FlipStepTail(before: seq<byte>, after: seq<byte>, orig: seq<byte>,
                     rowLen: nat, height: nat, i: nat, top: nat, bottom: nat)
    requires |before| == |orig| && i < height / 2
    requires forall k :: Offset(height, rowLen) <= k < |before| ==> before[k] == orig[k]
    requires top == Offset(i, rowLen) && bottom == Offset(height - i - 1, rowLen)
    requires Swapped(after, before, top, bottom, rowLen)
    ensures forall k :: Offset(height, rowLen) <= k < |after| ==> after[k] == orig[k]
  {
    RowPrecedes(i, height - i - 1, rowLen);
    if height - i < height {
      RowPrecedes(height - i - 1, height, rowLen);
    }
  }

  /** Row `row`, column `col` once half the rows have been swapped with their partners. */
  lemma FlippedRowCol(cur: seq<byte>, orig: seq<byte>, rowLen: nat, height: nat, row: nat, col: nat)
    requires |cur| == |orig| && rowLen * height <= |orig|
    requires row < height && col < rowLen
    requires FlippedUpTo(cur, orig, rowLen, height, height / 2)
    ensures Idx(row, col, rowLen) < |cur|
    ensures cur[Idx(row, col, rowLen)] == ReverseRows(orig, rowLen, height)[Idx(row, col, rowLen)]
  {
    ReverseRowsRow(orig, rowLen, height, row, col);
    var v := At(cur, row, col, rowLen);
    assert v == cur[Idx(row, col, rowLen)];
    if row < height / 2 || height - height / 2 <= row {
      assert v == At(orig, height - 1 - row, col, rowLen);
    } else {
      assert height - 1 - row == row;
      assert v == At(orig, row, col, rowLen);
    }
  }

  /** One byte of the block once half the rows have been swapped with their partners. */
  lemma FlippedByte(cur: seq<byte>, orig: seq<byte>, rowLen: nat, height: nat, k: nat)
    requires |cur| == |orig| && rowLen * height <= |orig|
    requires k < Offset(height, rowLen)
    requires FlippedUpTo(cur, orig, rowLen, height, height / 2)
    ensures k < |cur| && k < |orig|
    ensures cur[k] == ReverseRows(orig, rowLen, height)[k]
  {
    PositionOf(k, rowLen, height);
    FlippedRowCol(cur, orig, rowLen, height, k / rowLen, k % rowLen);
  }

  /** Once half the rows have been swapped with their partners, the block is flipped. */
  lemma FlippedAll(cur: seq<byte>, orig: seq<byte>, rowLen: nat, height: nat)
    requires |cur| == |orig| && rowLen * height <= |orig|
    requires FlippedUpTo(cur, orig, rowLen, height, height / 2)
    ensures cur == ReverseRows(orig, rowLen, height)
  {
    OffsetIsProduct(height, rowLen);
    var rev := ReverseRows(orig, rowLen, height);
    forall k | 0 <= k < |cur|
      ensures cur[k] == rev[k]
    {
      if k < Offset(height, rowLen) {
        FlippedByte(cur, orig, rowLen, height, k);
      }
    }
  }

  /**
   * The row loop of `bmp_writer`: for each i < height / 2 it swaps the
   * `4 * width`-byte rows i and height-1-i of the pixel block in place, which
   * leaves the block bottom row first.
   */
  method FlipRows(a: array<byte>, width: nat, height: nat)
    requires 4 * width * height <= a.Length
    modifies a
    ensures a[..] == ReverseRows(old(a[..]), 4 * width, height)
  {
    var byteW := 4 * width;
    ghost var orig := a[..];
    OffsetIsProduct(height, byteW);
    FlipStart(orig, byteW, height);
    var i := 0;
    while i < height / 2
      invariant 0 <= i <= height / 2
      invariant |a[..]| == |orig| && Offset(height, byteW) <= |orig|
      invariant FlippedUpTo(a[..], orig, byteW, height, i)
    {
      ghost var before := a[..];
      var top, bottom := i * byteW, (height - i - 1) * byteW;
      RowPair(i, height, byteW);
      SwapLines(a, top, bottom, byteW);
      FlipStep(before, a[..], orig, byteW, height, i, top, bottom);
      i := i + 1;
    }
    FlippedAll(a[..], orig, byteW, height);
  }

  /** The row loop run on a fresh copy of a pixel block. */
  method FlipRowsOf(s: seq<byte>, width: nat, height: nat) returns (r: seq<byte>)
    requires 4 * width * height <= |s|
    ensures r == ReverseRows(s, 4 * width, height)
  {
    var a := new byte[|s|](k requires 0 <= k < |s| => s[k]);
    assert a[..] == s;
    FlipRows(a, width, height);
    r := a[..];
  }
}
