// A SEVIRI Level 1.5 image (struct msevi_l15_image): a grid of counts
// stored row by row, one line side information entry per row, and the
// coverage rectangle the grid shows. Destination images run north to south
// and west to east; decoded segments run south to north and east to west.

module Mosaic {
  import opened Common
  import opened CdsTime
  import opened Coverages
  import opened SeviriHrec

  class Image {
    const nlin: int
    const ncol: int
    var depth: int
    var spacecraftId: int
    var channelId: int
    var segmentId: int
    const counts: array<int>
    var coverage: Coverage
    const lineSideInfo: array<LineSideInfo>

    /** The buffers have the sizes nlin and ncol call for. */
    predicate Valid()
      reads this
    {
      0 <= nlin && 0 <= ncol && counts.Length == GridSize(nlin, ncol) && lineSideInfo.Length == nlin
    }

    /** The grid is exactly the coverage rectangle, whose bounds fit in a C
        int with room for `n - s + 1`. */
    predicate Consistent()
      reads this
    {
      Valid() && InIntRange(coverage)
      && nlin == coverage.northernLine - coverage.southernLine + 1
      && GridShape(counts.Length, coverage, ncol)
    }

    /** msevi_l15_image_alloc: every field zero except nlin/ncol, with
        zero-filled counts and line side information. */
    constructor Alloc(nlin: int, ncol: int)
      requires 0 <= nlin && 0 <= ncol
      ensures Valid() && this.nlin == nlin && this.ncol == ncol
      ensures depth == 0 && spacecraftId == 0 && channelId == 0 && segmentId == 0
      ensures coverage == Coverage("", 0, 0, 0, 0)
      ensures forall k :: 0 <= k < counts.Length ==> counts[k] == 0
      ensures forall k :: 0 <= k < lineSideInfo.Length ==> lineSideInfo[k] == ZeroLine
      ensures fresh(counts) && fresh(lineSideInfo)
    {
      this.nlin := nlin;
      this.ncol := ncol;
      depth, spacecraftId, channelId, segmentId := 0, 0, 0, 0;
      coverage := Coverage("", 0, 0, 0, 0);
      counts := new int[nlin * ncol](_ => 0);
      lineSideInfo := new LineSideInfo[nlin](_ => ZeroLine);
      GridSizeIsProduct(nlin, ncol);
    }

    /** An image record filled in field by field from a decoded segment;
        segment_id stays zero as calloc left it. */
    constructor FromParts(nlin: int, ncol: int, depth: int, spacecraftId: int, channelId: int,
                          coverage: Coverage, counts: array<int>, lineSideInfo: array<LineSideInfo>)
      ensures this.nlin == nlin && this.ncol == ncol && this.depth == depth
      ensures this.spacecraftId == spacecraftId && this.channelId == channelId && segmentId == 0
      ensures this.coverage == coverage && this.counts == counts && this.lineSideInfo == lineSideInfo
    {
      this.nlin := nlin;
      this.ncol := ncol;
      this.depth := depth;
      this.spacecraftId := spacecraftId;
      this.channelId := channelId;
      segmentId := 0;
      this.coverage := coverage;
      this.counts := counts;
      this.lineSideInfo := lineSideInfo;
    }
  }

  /** Coverage bounds that convert to C int exactly and leave room for
      `hi - lo + 1`. */
  predicate InIntRange(c: Coverage)
  {
    0 <= c.southernLine < I31 - 1 && 0 <= c.northernLine < I31 - 1
    && 0 <= c.easternColumn < I31 - 1 && 0 <= c.westernColumn < I31 - 1
  }

  // ---- Specification of map_segment ----

  /** The number of cells of a grid of nlin rows of ncol columns, counted
      row by row. Contracts state grid sizes with it rather than with `*`,
      which keeps the solver out of nonlinear arithmetic; the lemma below
      gives the product where a proof needs it. */
  function GridSize(nlin: nat, ncol: int): (n: int)
    ensures ncol == 0 ==> n == 0
    ensures 0 <= ncol ==> 0 <= n
  {
    if nlin == 0 then 0 else GridSize(nlin - 1, ncol) + ncol
  }

  lemma {:induction false} GridSizeIsProduct(nlin: nat, ncol: int)
    ensures GridSize(nlin, ncol) == nlin * ncol
  {
    if nlin > 0 {
      GridSizeIsProduct(nlin - 1, ncol);
    }
  }

  /** Row-major position of (row, col) in a grid of ncol columns. */
  function Cell(ncol: int, row: int, col: int): int { row * ncol + col }

  /** The grid cell (line L, column C) of the destination has been written
      once every line above lo and, on line lo, every column west of cut is
      done. */
  predicate Done(dc: Coverage, sc: Coverage, lo: int, cut: int, l: int, c: int)
  {
    dc.Contains(l, c) && sc.Contains(l, c) && (l > lo || (l == lo && c > cut))
  }

  /** A grid of n counts in rows of ncol holds exactly the lines and
      columns of coverage c. */
  predicate GridShape(n: int, c: Coverage, ncol: int)
  {
    c.southernLine <= c.northernLine + 1 && ncol == c.westernColumn - c.easternColumn + 1
    && n == GridSize(c.northernLine - c.southernLine + 1, c.westernColumn - c.easternColumn + 1)
    && (0 < ncol || n == 0)
  }

  /** The destination counts once the cells Done(lo, cut) have been copied
      from the source; position k of the destination is line n - k / ncol
      and column w - k % ncol. */
  function CountsMappedAbove(d: seq<int>, dc: Coverage, dncol: int,
                             s: seq<int>, sc: Coverage, sncol: int, lo: int, cut: int): (r: seq<int>)
    requires 0 < dncol || |d| == 0
    requires 0 <= sncol
    requires GridShape(|s|, sc, sncol)
    ensures |r| == |d|
  {
    seq(|d|, k requires 0 <= k < |d| =>
      var l := dc.northernLine - k / dncol;
      var c := dc.westernColumn - k % dncol;
      if Done(dc, sc, lo, cut, l, c) then
        CellInGrid(sc.northernLine - sc.southernLine + 1, sncol, l - sc.southernLine, c - sc.easternColumn);
        s[Cell(sncol, l - sc.southernLine, c - sc.easternColumn)]
      else d[k])
  }

  /** The destination line side information once every overlapping line
      above lo has been copied (all of them when lo is below the overlap).
      Line copies happen whenever the column overlap is not negative: a
      segment that only touches the destination's edge column still has its
      line entries copied. */
  function LinesMappedAbove(d: seq<LineSideInfo>, dc: Coverage, s: seq<LineSideInfo>, sc: Coverage,
                            lo: int): (r: seq<LineSideInfo>)
    requires sc.northernLine - sc.southernLine < |s|
    ensures |r| == |d|
  {
    seq(|d|, k requires 0 <= k < |d| =>
      var l := dc.northernLine - k;
      if lo < l <= Min(dc.northernLine, sc.northernLine) && sc.southernLine <= l then s[l - sc.southernLine] else d[k])
  }

  /** The destination counts after map_segment: every cell of the overlap
      copied from the source. */
  function MappedCounts(d: seq<int>, dc: Coverage, dncol: int, s: seq<int>, sc: Coverage, sncol: int): (r: seq<int>)
    requires 0 < dncol || |d| == 0
    requires 0 <= sncol
    requires GridShape(|s|, sc, sncol)
    ensures |r| == |d|
  {
    if OverlapLines(dc, sc) < 0 || OverlapColumns(dc, sc) < 0 then d
    else CountsMappedAbove(d, dc, dncol, s, sc, sncol,
                           Max(dc.southernLine, sc.southernLine) - 1, Min(dc.westernColumn, sc.westernColumn))
  }

  /** The destination line side information after map_segment. */
  function MappedLines(d: seq<LineSideInfo>, dc: Coverage, s: seq<LineSideInfo>, sc: Coverage): (r: seq<LineSideInfo>)
    requires sc.northernLine - sc.southernLine < |s|
    ensures |r| == |d|
  {
    if OverlapLines(dc, sc) < 0 || OverlapColumns(dc, sc) < 0 then d
    else LinesMappedAbove(d, dc, s, sc, Max(dc.southernLine, sc.southernLine) - 1)
  }

  /** Lines and columns of the overlap, as the C int differences. */
  function OverlapLines(dc: Coverage, sc: Coverage): int
  {
    Min(dc.northernLine, sc.northernLine) - Max(dc.southernLine, sc.southernLine) + 1
  }

  function OverlapColumns(dc: Coverage, sc: Coverage): int
  {
    Min(dc.westernColumn, sc.westernColumn) - Max(dc.easternColumn, sc.easternColumn) + 1
  }

  // ---- Arithmetic of the row-major layout ----

  lemma CellInGrid(nlin: int, ncol: int, row: int, col: int)
    requires 0 <= row < nlin && 0 <= col < ncol
    ensures 0 <= Cell(ncol, row, col) < nlin * ncol == GridSize(nlin, ncol)
  {
    GridSizeIsProduct(nlin, ncol);
    assert row * ncol <= (nlin - 1) * ncol by {
      MulMonotone(row, nlin - 1, ncol);
    }
  }

  lemma MulMonotone(a: int, b: int, n: int)
    requires 0 <= a <= b && 0 <= n
    ensures a * n <= b * n
  {
  }

  /** The row and column of a cell position are recovered by / and %. */
  lemma CellRowCol(ncol: int, row: int, col: int)
    requires 0 <= row && 0 <= col < ncol
    ensures Cell(ncol, row, col) / ncol == row && Cell(ncol, row, col) % ncol == col
  {
    var k := Cell(ncol, row, col);
    assert k == row * ncol + col;
    DivModUnique(k, ncol, row, col);
  }

  lemma DivModUnique(k: int, n: int, q: int, r: int)
    requires 0 < n && 0 <= r < n && k == q * n + r
    ensures k / n == q && k % n == r
  {
    var x := k / n - q;
    assert x * n == r - k % n;
    if x >= 1 {
      MulMonotone(1, x, n);
    } else if x <= -1 {
      MulMonotone(1, -x, n);
    }
  }

  /** Every position of the grid is the cell of its row and column. */
  lemma PositionIsCell(ncol: int, k: int)
    requires 0 < ncol && 0 <= k
    ensures k == Cell(ncol, k / ncol, k % ncol) && 0 <= k / ncol && 0 <= k % ncol < ncol
  {
  }

  /** Copying one cell moves the boundary of the done region one column east. */
  lemma CountsStep(d: seq<int>, dc: Coverage, dnlin: int, dncol: int,
                   s: seq<int>, sc: Coverage, sncol: int, l: int, c: int)
    requires 0 <= sncol && 0 <= dnlin && |d| == GridSize(dnlin, dncol)
    requires dnlin == dc.northernLine - dc.southernLine + 1 && dncol == dc.westernColumn - dc.easternColumn + 1
    requires forall l, c | sc.Contains(l, c) :: 0 <= Cell(sncol, l - sc.southernLine, c - sc.easternColumn) < |s|
    requires GridShape(|s|, sc, sncol)
    requires dc.Contains(l, c) && sc.Contains(l, c)
    ensures 0 <= Cell(dncol, dc.northernLine - l, dc.westernColumn - c) < |d|
    ensures CountsMappedAbove(d, dc, dncol, s, sc, sncol, l, c - 1)
         == CountsMappedAbove(d, dc, dncol, s, sc, sncol, l, c)
              [Cell(dncol, dc.northernLine - l, dc.westernColumn - c)
                 := s[Cell(sncol, l - sc.southernLine, c - sc.easternColumn)]]
  {
    var idx := Cell(dncol, dc.northernLine - l, dc.westernColumn - c);
    CellInGrid(dnlin, dncol, dc.northernLine - l, dc.westernColumn - c);
    CellRowCol(dncol, dc.northernLine - l, dc.westernColumn - c);
    var a := CountsMappedAbove(d, dc, dncol, s, sc, sncol, l, c - 1);
    var b := CountsMappedAbove(d, dc, dncol, s, sc, sncol, l, c);
    forall k | 0 <= k < |d| && k != idx
      ensures a[k] == b[k]
    {
      PositionIsCell(dncol, k);
      assert k / dncol != dc.northernLine - l || k % dncol != dc.westernColumn - c;
    }
  }

  /** Finishing a line: every overlapping column of line l is done, which is
      the same as having finished the line above it. */
  lemma CountsLineDone(d: seq<int>, dc: Coverage, dncol: int,
                       s: seq<int>, sc: Coverage, sncol: int, l: int)
    requires (0 < dncol || |d| == 0) && 0 <= sncol
    requires GridShape(|s|, sc, sncol)
    ensures CountsMappedAbove(d, dc, dncol, s, sc, sncol, l, Max(dc.easternColumn, sc.easternColumn) - 1)
         == CountsMappedAbove(d, dc, dncol, s, sc, sncol, l - 1, Min(dc.westernColumn, sc.westernColumn))
  {
  }

  /** Copying the line entry of line l moves the done lines one further south. */
  lemma LinesStep(d: seq<LineSideInfo>, dc: Coverage, s: seq<LineSideInfo>, sc: Coverage, l: int)
    requires sc.northernLine - sc.southernLine < |s| && |d| == dc.northernLine - dc.southernLine + 1
    requires dc.southernLine <= l <= dc.northernLine && sc.southernLine <= l <= sc.northernLine
    ensures 0 <= dc.northernLine - l < |d| && 0 <= l - sc.southernLine < |s|
    ensures LinesMappedAbove(d, dc, s, sc, l - 1)
         == LinesMappedAbove(d, dc, s, sc, l)[dc.northernLine - l := s[l - sc.southernLine]]
  {
    var a := LinesMappedAbove(d, dc, s, sc, l - 1);
    var b := LinesMappedAbove(d, dc, s, sc, l)[dc.northernLine - l := s[l - sc.southernLine]];
    forall k | 0 <= k < |d|
      ensures a[k] == b[k]
    {
      var lk := dc.northernLine - k;
      var lmax := Min(dc.northernLine, sc.northernLine);
      assert a[k] == if l - 1 < lk <= lmax && sc.southernLine <= lk then s[lk - sc.southernLine] else d[k];
      if k == dc.northernLine - l {
        assert b[k] == s[l - sc.southernLine];
      } else {
        assert b[k] == if l < lk <= lmax && sc.southernLine <= lk then s[lk - sc.southernLine] else d[k];
      }
    }
  }

  // ---- Properties of the map_segment specification ----

  /** Cell (L, C) of the destination ends up holding the source's count for
      (L, C) when the source covers it, and keeps its old count otherwise. */
  lemma MappedCountsAt(d: seq<int>, dc: Coverage, dncol: int, s: seq<int>, sc: Coverage, sncol: int, l: int, c: int)
    requires GridShape(|d|, dc, dncol) && GridShape(|s|, sc, sncol) && 0 <= sncol
    requires dc.Contains(l, c)
    ensures 0 < dncol
    ensures var k := Cell(dncol, dc.northernLine - l, dc.westernColumn - c);
            0 <= k < |d|
            && (sc.Contains(l, c) ==> 0 <= Cell(sncol, l - sc.southernLine, c - sc.easternColumn) < |s|)
            && MappedCounts(d, dc, dncol, s, sc, sncol)[k]
               == if sc.Contains(l, c) then s[Cell(sncol, l - sc.southernLine, c - sc.easternColumn)] else d[k]
  {
    var row, col := dc.northernLine - l, dc.westernColumn - c;
    CellInGrid(dc.northernLine - dc.southernLine + 1, dncol, row, col);
    CellRowCol(dncol, row, col);
    if sc.Contains(l, c) {
      CellInGrid(sc.northernLine - sc.southernLine + 1, sncol, l - sc.southernLine, c - sc.easternColumn);
      assert OverlapLines(dc, sc) >= 1 && OverlapColumns(dc, sc) >= 1;
    }
  }

  /** Every position of the destination grid is the cell of one (L, C) of
      its coverage. */
  lemma PositionOfCell(d: seq<int>, dc: Coverage, dncol: int, k: int)
    requires GridShape(|d|, dc, dncol) && 0 <= k < |d|
    ensures 0 < dncol
    ensures var l, c := dc.northernLine - k / dncol, dc.westernColumn - k % dncol;
            dc.Contains(l, c) && k == Cell(dncol, dc.northernLine - l, dc.westernColumn - c)
  {
    PositionIsCell(dncol, k);
    var row := k / dncol;
    GridSizeIsProduct(dc.northernLine - dc.southernLine + 1, dncol);
    if row > dc.northernLine - dc.southernLine {
      MulMonotone(dc.northernLine - dc.southernLine + 1, row, dncol);
    }
  }

  /** Mapping the same segment twice changes nothing the first time did not. */
  lemma {:induction false} MappedCountsIdempotent(d: seq<int>, dc: Coverage, dncol: int,
                                                   s: seq<int>, sc: Coverage, sncol: int)
    requires GridShape(|d|, dc, dncol) && GridShape(|s|, sc, sncol) && 0 <= sncol
    ensures var r := MappedCounts(d, dc, dncol, s, sc, sncol);
            MappedCounts(r, dc, dncol, s, sc, sncol) == r
  {
    var r := MappedCounts(d, dc, dncol, s, sc, sncol);
    var r2 := MappedCounts(r, dc, dncol, s, sc, sncol);
    forall k | 0 <= k < |d|
      ensures r2[k] == r[k]
    {
      PositionOfCell(d, dc, dncol, k);
      var l, c := dc.northernLine - k / dncol, dc.westernColumn - k % dncol;
      MappedCountsAt(d, dc, dncol, s, sc, sncol, l, c);
      MappedCountsAt(r, dc, dncol, s, sc, sncol, l, c);
    }
    assert |r2| == |r|;
  }

  /** Two segments that share no grid cell can be mapped in either order. */
  lemma {:induction false} MappedCountsCommute(d: seq<int>, dc: Coverage, dncol: int,
                                                s1: seq<int>, sc1: Coverage, sncol1: int,
                                                s2: seq<int>, sc2: Coverage, sncol2: int)
    requires GridShape(|d|, dc, dncol) && GridShape(|s1|, sc1, sncol1) && GridShape(|s2|, sc2, sncol2)
    requires 0 <= sncol1 && 0 <= sncol2
    requires !Overlaps(sc1, sc2)
    ensures MappedCounts(MappedCounts(d, dc, dncol, s1, sc1, sncol1), dc, dncol, s2, sc2, sncol2)
         == MappedCounts(MappedCounts(d, dc, dncol, s2, sc2, sncol2), dc, dncol, s1, sc1, sncol1)
  {
    var a1 := MappedCounts(d, dc, dncol, s1, sc1, sncol1);
    var a := MappedCounts(a1, dc, dncol, s2, sc2, sncol2);
    var b2 := MappedCounts(d, dc, dncol, s2, sc2, sncol2);
    var b := MappedCounts(b2, dc, dncol, s1, sc1, sncol1);
    forall k | 0 <= k < |d|
      ensures a[k] == b[k]
    {
      PositionOfCell(d, dc, dncol, k);
      var l, c := dc.northernLine - k / dncol, dc.westernColumn - k % dncol;
      MappedCountsAt(d, dc, dncol, s1, sc1, sncol1, l, c);
      MappedCountsAt(a1, dc, dncol, s2, sc2, sncol2, l, c);
      MappedCountsAt(d, dc, dncol, s2, sc2, sncol2, l, c);
      MappedCountsAt(b2, dc, dncol, s1, sc1, sncol1, l, c);
    }
    assert |a| == |b|;
  }

  /** Line L of the destination ends up holding the source's entry for L
      when the source has line L and the column ranges do not lie apart
      (they may merely touch), and keeps its old entry otherwise. */
  lemma MappedLinesAt(d: seq<LineSideInfo>, dc: Coverage, s: seq<LineSideInfo>, sc: Coverage, l: int)
    requires |d| == dc.northernLine - dc.southernLine + 1 && |s| == sc.northernLine - sc.southernLine + 1
    requires dc.southernLine <= l <= dc.northernLine
    ensures var copied := OverlapColumns(dc, sc) >= 0 && sc.southernLine <= l <= sc.northernLine;
            0 <= dc.northernLine - l < |d|
            && MappedLines(d, dc, s, sc)[dc.northernLine - l] == if copied then s[l - sc.southernLine] else d[dc.northernLine - l]
  {
  }

  // ---- map_segment ----

  /** The counts loop of one line of map_segment: walk the destination row
      westward-to-eastward (`cdest++`) while walking the source row in the
      opposite direction (`csrc--`). */
  method CopyLineCounts(dcounts: array<int>, scounts: array<int>, dc: Coverage, dnlin: int, dncol: int,
                        sc: Coverage, sncol: int, l: int, eastCol: int, westCol: int, ghost d0: seq<int>)
    requires dcounts != scounts
    requires 0 <= dnlin && dcounts.Length == GridSize(dnlin, dncol) && |d0| == dcounts.Length && (0 < dncol || |d0| == 0)
    requires dnlin == dc.northernLine - dc.southernLine + 1 && dncol == dc.westernColumn - dc.easternColumn + 1
    requires 0 <= sncol
    requires forall l, c | sc.Contains(l, c) :: 0 <= Cell(sncol, l - sc.southernLine, c - sc.easternColumn) < scounts.Length
    requires GridShape(scounts.Length, sc, sncol)
    requires eastCol == Max(dc.easternColumn, sc.easternColumn) && westCol == Min(dc.westernColumn, sc.westernColumn)
    requires eastCol <= westCol + 1
    requires dc.southernLine <= l <= dc.northernLine && sc.southernLine <= l <= sc.northernLine
    requires dcounts[..] == CountsMappedAbove(d0, dc, dncol, scounts[..], sc, sncol, l, westCol)
    modifies dcounts
    ensures dcounts[..] == CountsMappedAbove(d0, dc, dncol, scounts[..], sc, sncol, l - 1, westCol)
  {
    var ncol := westCol - eastCol + 1;
    var cdest := Cell(dncol, dc.northernLine - l, dc.westernColumn - westCol);
    var csrc := Cell(sncol, l - sc.southernLine, eastCol - sc.easternColumn + (ncol - 1));
    var ic := 0;
    while ic < ncol
      invariant 0 <= ic <= ncol
      invariant cdest == Cell(dncol, dc.northernLine - l, dc.westernColumn - westCol + ic)
      invariant csrc == Cell(sncol, l - sc.southernLine, eastCol - sc.easternColumn + ncol - 1 - ic)
      invariant dcounts[..] == CountsMappedAbove(d0, dc, dncol, scounts[..], sc, sncol, l, westCol - ic)
    {
      CountsStep(d0, dc, dnlin, dncol, scounts[..], sc, sncol, l, westCol - ic);
      assert sc.Contains(l, westCol - ic);
      assert csrc == Cell(sncol, l - sc.southernLine, westCol - ic - sc.easternColumn);
      dcounts[cdest] := scounts[csrc];
      cdest := cdest + 1;
      csrc := csrc - 1;
      ic := ic + 1;
    }
    CountsLineDone(d0, dc, dncol, scounts[..], sc, sncol, l);
  }

  /** The two loops of map_segment over the overlap of dc and sc, on the
      arrays alone: each overlapping line's entry and counts are copied
      from the source (south to north, east to west) into the destination
      (north to south, west to east). */
  method CopyOverlap(dcounts: array<int>, dlines: array<LineSideInfo>, dc: Coverage, dnlin: int, dncol: int,
                     scounts: array<int>, slines: array<LineSideInfo>, sc: Coverage, sncol: int)
    requires dcounts != scounts && dlines != slines
    requires 0 <= dnlin && dcounts.Length == GridSize(dnlin, dncol) && dlines.Length == dnlin && 0 <= dncol
    requires dnlin == dc.northernLine - dc.southernLine + 1 && dncol == dc.westernColumn - dc.easternColumn + 1
    requires 0 <= sncol && sc.northernLine - sc.southernLine < slines.Length
    requires forall l, c | sc.Contains(l, c) :: 0 <= Cell(sncol, l - sc.southernLine, c - sc.easternColumn) < scounts.Length
    requires GridShape(scounts.Length, sc, sncol)
    requires OverlapLines(dc, sc) >= 0 && OverlapColumns(dc, sc) >= 0
    modifies dcounts, dlines
    ensures dcounts[..] == MappedCounts(old(dcounts[..]), dc, dncol, scounts[..], sc, sncol)
    ensures dlines[..] == MappedLines(old(dlines[..]), dc, slines[..], sc)
  {
    var southLin := Max(dc.southernLine, sc.southernLine);
    var northLin := Min(dc.northernLine, sc.northernLine);
    var eastCol := Max(dc.easternColumn, sc.easternColumn);
    var westCol := Min(dc.westernColumn, sc.westernColumn);
    var nlin := northLin - southLin + 1;
    ghost var d0 := dcounts[..];
    ghost var l0 := dlines[..];
    var il := 0;
    while il < nlin
      invariant 0 <= il <= nlin
      invariant dcounts[..] == CountsMappedAbove(d0, dc, dncol, scounts[..], sc, sncol, northLin - il, westCol)
      invariant dlines[..] == LinesMappedAbove(l0, dc, slines[..], sc, northLin - il)
    {
      var loffDest := dc.northernLine - northLin + il;
      var loffSrc := southLin - sc.southernLine + nlin - il - 1;
      LinesStep(l0, dc, slines[..], sc, northLin - il);
      dlines[loffDest] := slines[loffSrc];
      CopyLineCounts(dcounts, scounts, dc, dnlin, dncol, sc, sncol, northLin - il, eastCol, westCol, d0);
      il := il + 1;
    }
  }

  /** map_segment: copy the part of src that lies in dest's coverage into
      dest, flipping both axes, together with the line side information of
      those lines; adopt src's spacecraft and channel when dest has none.
      Returns the number of overlapping lines, 0 when the rectangles do not
      overlap. */
  method MapSegment(dest: Image, src: Image) returns (r: int)
    requires dest.Consistent() && src.Consistent()
    requires dest.counts != src.counts && dest.lineSideInfo != src.lineSideInfo
    modifies dest, dest.counts, dest.lineSideInfo
    ensures dest.coverage == old(dest.coverage)
    ensures dest.depth == old(dest.depth) && dest.segmentId == old(dest.segmentId)
    ensures dest.Consistent()
    ensures var nl := OverlapLines(dest.coverage, src.coverage);
            var nc := OverlapColumns(dest.coverage, src.coverage);
            r == (if nl < 0 || nc < 0 then 0 else nl)
    ensures dest.counts[..] == MappedCounts(old(dest.counts[..]), dest.coverage, dest.ncol,
                                            src.counts[..], src.coverage, src.ncol)
    ensures dest.lineSideInfo[..] == MappedLines(old(dest.lineSideInfo[..]), dest.coverage,
                                                 src.lineSideInfo[..], src.coverage)
    ensures var copied := OverlapLines(dest.coverage, src.coverage) >= 0
                          && OverlapColumns(dest.coverage, src.coverage) >= 0 && old(dest.spacecraftId) == 0;
            dest.spacecraftId == (if copied then src.spacecraftId else old(dest.spacecraftId))
            && dest.channelId == (if copied then src.channelId else old(dest.channelId))
  {
    var nlin := OverlapLines(dest.coverage, src.coverage);
    var ncol := OverlapColumns(dest.coverage, src.coverage);
    SourceCellsInGrid(src);
    if nlin < 0 || ncol < 0 {
      return 0;
    }
    CopyOverlap(dest.counts, dest.lineSideInfo, dest.coverage, dest.nlin, dest.ncol,
                src.counts, src.lineSideInfo, src.coverage, src.ncol);
    if dest.spacecraftId == 0 {
      dest.spacecraftId := src.spacecraftId;
      dest.channelId := src.channelId;
    }
    return nlin;
  }

  lemma SourceCellsInGrid(src: Image)
    requires src.Consistent()
    ensures forall l, c | src.coverage.Contains(l, c) ::
              0 <= Cell(src.ncol, l - src.coverage.southernLine, c - src.coverage.easternColumn) < src.counts.Length
  {
    forall l, c | src.coverage.Contains(l, c)
      ensures 0 <= Cell(src.ncol, l - src.coverage.southernLine, c - src.coverage.easternColumn) < src.counts.Length
    {
      CellInGrid(src.nlin, src.ncol, l - src.coverage.southernLine, c - src.coverage.easternColumn);
    }
  }
}
