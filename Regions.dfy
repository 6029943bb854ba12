/** The output rectangles a `MatrixMultiplicationJob` is responsible for, and
    the split policy of `compute`: choose the longer side (ties go to
    columns), compute directly when that side is shorter than the load per
    worker, otherwise bisect it. */
module Regions {

  /** Rows `[startRow, endRow)` by columns `[startColumn, endColumn)` of the
      result buffer. */
  datatype Region = Region(startRow: int, endRow: int, startColumn: int, endColumn: int) {

    predicate WellFormed() {
      startRow <= endRow && startColumn <= endColumn
    }

    function Height(): int {
      endRow - startRow
    }

    function Width(): int {
      endColumn - startColumn
    }

    predicate Contains(i: int, j: int) {
      startRow <= i < endRow && startColumn <= j < endColumn
    }

    /** `compute` goes by rows only when the region is strictly taller than
        it is wide. */
    predicate ByRows() {
      Height() > Width()
    }

    /** The extent `compute` compares with the load per worker. */
    function Extent(): int {
      if ByRows() then Height() else Width()
    }

    predicate IsLeaf(load: int) {
      Extent() < load
    }

    /** Termination measure of the recursion. */
    function Size(): int {
      Height() + Width()
    }

    /** The two sub-jobs `computeOrSplitByRows` / `computeOrSplitByColumns`
        hand to `invokeAll`: the chosen side is cut at `start + extent / 2`,
        the other side is kept. */
    function Children(): (c: (Region, Region))
      requires WellFormed()
      ensures c.0.WellFormed() && c.1.WellFormed()
      ensures forall i, j :: Contains(i, j) <==> c.0.Contains(i, j) || c.1.Contains(i, j)
      ensures forall i, j :: !(c.0.Contains(i, j) && c.1.Contains(i, j))
      ensures ByRows() ==> (c.0.endRow == c.1.startRow
                            && c.0.startColumn == c.1.startColumn == startColumn
                            && c.0.endColumn == c.1.endColumn == endColumn)
      ensures !ByRows() ==> (c.0.endColumn == c.1.startColumn
                             && c.0.startRow == c.1.startRow == startRow
                             && c.0.endRow == c.1.endRow == endRow)
      ensures Extent() >= 2 ==> c.0.Size() < Size() && c.1.Size() < Size()
      ensures ByRows() && Height() >= 2 ==> 1 <= c.0.Height() < Height() && 1 <= c.1.Height() < Height()
      ensures !ByRows() && Width() >= 2 ==> 1 <= c.0.Width() < Width() && 1 <= c.1.Width() < Width()
    {
      if ByRows() then
        var split := Height() / 2 + startRow;
        (Region(startRow, split, startColumn, endColumn), Region(split, endRow, startColumn, endColumn))
      else
        var split := Width() / 2 + startColumn;
        (Region(startRow, endRow, startColumn, split), Region(startRow, endRow, split, endColumn))
    }
  }

  /** The leaf regions of the job tree rooted at `r`, in the order in which
      the sequential reading of `invokeAll` runs them. */
  function Leaves(r: Region, load: int): (leaves: seq<Region>)
    requires r.WellFormed() && load >= 2
    ensures |leaves| >= 1
    ensures forall k :: 0 <= k < |leaves| ==> leaves[k].WellFormed() && leaves[k].IsLeaf(load)
    ensures forall k, i, j :: 0 <= k < |leaves| && leaves[k].Contains(i, j) ==> r.Contains(i, j)
    decreases r.Size()
  {
    if r.IsLeaf(load) then [r]
    else
      var (a, b) := r.Children();
      Leaves(a, load) + Leaves(b, load)
  }

  /** How many of `leaves` contain cell `(i, j)`. */
  function CoverCount(leaves: seq<Region>, i: int, j: int): nat {
    if leaves == [] then 0
    else CoverCount(leaves[..|leaves| - 1], i, j) + (if leaves[|leaves| - 1].Contains(i, j) then 1 else 0)
  }

  lemma {:induction false} CoverCountAppend(xs: seq<Region>, ys: seq<Region>, i: int, j: int)
    ensures CoverCount(xs + ys, i, j) == CoverCount(xs, i, j) + CoverCount(ys, i, j)
    decreases |ys|
  {
    if ys == [] {
      assert xs + ys == xs;
    } else {
      var n := |ys| - 1;
      assert (xs + ys)[..|xs + ys| - 1] == xs + ys[..n];
      CoverCountAppend(xs, ys[..n], i, j);
    }
  }

  /** Every cell of `r` is computed by exactly one leaf job, and no cell
      outside `r` by any: the leaves partition the region. */
  lemma {:induction false} LeavesPartition(r: Region, load: int, i: int, j: int)
    requires r.WellFormed() && load >= 2
    ensures CoverCount(Leaves(r, load), i, j) == if r.Contains(i, j) then 1 else 0
    decreases r.Size()
  {
    if r.IsLeaf(load) {
      assert Leaves(r, load) == [r];
      assert [r][..0] == [];
    } else {
      var (a, b) := r.Children();
      LeavesPartition(a, load, i, j);
      LeavesPartition(b, load, i, j);
      CoverCountAppend(Leaves(a, load), Leaves(b, load), i, j);
    }
  }

  /** With a load per worker of 1 or less the job tree is infinite: a
      region whose chosen extent is at most 1 is split, and its second child
      is the region itself. */
  lemma SmallLoadSplitRepeats(r: Region, load: int)
    requires r.WellFormed() && load <= 1 && !r.IsLeaf(load) && r.Extent() <= 1
    ensures r.Children().1 == r
  {
  }
}
