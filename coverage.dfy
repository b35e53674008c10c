// Image coverage rectangles of the SEVIRI Level 1.5 grid (struct
// msevi_l15_coverage): line numbers grow from south to north, column
// numbers from east to west. All four bounds are uint32.

module Coverages {
  import opened Common

  const HrvChannelId: int := 12

  /** Grid line/column of the sub-satellite point of the HRV grid and of the VIS/IR grid. */
  const HrvOrigin: int := 5566
  const VisIrOrigin: int := 1856

  datatype Coverage = Coverage(
    channel: string,
    southernLine: int,
    northernLine: int,
    easternColumn: int,
    westernColumn: int)
  {
    predicate Valid() {
      IsU32(southernLine) && IsU32(northernLine) && IsU32(easternColumn) && IsU32(westernColumn)
    }

    /** The grid cell (line, column) lies in the rectangle. */
    predicate Contains(line: int, column: int) {
      southernLine <= line <= northernLine && easternColumn <= column <= westernColumn
    }
  }

  /** A uint32 read back as a C int (two's complement). */
  function ToInt32(x: int): (r: int)
    requires IsU32(x)
    ensures -I31 <= r < I31
    ensures Wrap32(r) == x
  {
    if x < I31 then x else x - U32
  }

  /** `hi - lo + 1` on two uint32 bounds, stored in an int: the number of
      lines (or columns) between them. */
  function Extent(lo: int, hi: int): (r: int)
    requires IsU32(lo) && IsU32(hi)
    ensures lo <= hi + 1 && hi - lo + 1 < I31 ==> r == hi - lo + 1
    ensures hi + 1 < lo && lo - hi - 1 <= I31 ==> r == hi - lo + 1
  {
    ToInt32(Wrap32(hi - lo + 1))
  }

  /** coverage_overlaps: 0 when one rectangle lies wholly south, north,
      east or west of the other. */
  function Overlaps(c1: Coverage, c2: Coverage): (r: bool)
    ensures r ==> c1.southernLine <= c2.northernLine && c2.southernLine <= c1.northernLine
    ensures !r ==> c1.southernLine > c2.northernLine || c1.northernLine < c2.southernLine
                   || c1.easternColumn > c2.westernColumn || c1.westernColumn < c2.easternColumn
  {
    !(c1.southernLine > c2.northernLine || c1.northernLine < c2.southernLine
      || c1.easternColumn > c2.westernColumn || c1.westernColumn < c2.easternColumn)
  }

  /** Two non-empty rectangles overlap exactly when they share a grid cell. */
  lemma OverlapsIffCommonCell(c1: Coverage, c2: Coverage)
    requires c1.southernLine <= c1.northernLine && c1.easternColumn <= c1.westernColumn
    requires c2.southernLine <= c2.northernLine && c2.easternColumn <= c2.westernColumn
    ensures Overlaps(c1, c2) <==> exists l, c :: c1.Contains(l, c) && c2.Contains(l, c)
  {
    if Overlaps(c1, c2) {
      var l := Max(c1.southernLine, c2.southernLine);
      var c := Max(c1.easternColumn, c2.easternColumn);
      assert c1.Contains(l, c) && c2.Contains(l, c);
    }
  }

  /** The test is symmetric, and a rectangle that is not inverted overlaps
      itself; an inverted (empty) rectangle can still be reported as
      overlapping one that straddles it. */
  lemma OverlapsSymmetricReflexive(c1: Coverage, c2: Coverage)
    ensures Overlaps(c1, c2) == Overlaps(c2, c1)
    ensures c1.southernLine <= c1.northernLine && c1.easternColumn <= c1.westernColumn ==> Overlaps(c1, c1)
    ensures Overlaps(Coverage("", 5, 3, 1, 1), Coverage("", 1, 10, 1, 1))
  {
  }

  /** The grid origin a segment's navigation offsets count from. */
  function Origin(channelId: int): (o: int)
    ensures o == (if channelId == HrvChannelId then 5566 else 1856)
  {
    if channelId == HrvChannelId then HrvOrigin else VisIrOrigin
  }

  /** The coverage of a segment from its image navigation line/column
      offsets and its image structure line/column counts, in uint32
      arithmetic, as both msevi_l15hrit_read_segment and
      msevi_l15hrit_get_segment_coverage compute it. */
  function SegmentCoverage(channel: string, channelId: int, loff: nat, coff: nat, nlin: nat, ncol: nat): (cov: Coverage)
    requires IsU32(loff) && IsU32(coff) && IsU32(nlin) && IsU32(ncol)
    ensures cov.Valid() && cov.channel == channel
    ensures var s := Origin(channelId) - ToInt32(loff) + 1;
            IsU32(s) ==> cov.southernLine == s
    ensures var e := Origin(channelId) - ToInt32(coff) + 1;
            IsU32(e) ==> cov.easternColumn == e
    ensures var s := Origin(channelId) - ToInt32(loff) + 1;
            1 <= nlin && 0 <= s && s + nlin - 1 < U32 ==> cov.northernLine - cov.southernLine + 1 == nlin
    ensures var e := Origin(channelId) - ToInt32(coff) + 1;
            1 <= ncol && 0 <= e && e + ncol - 1 < U32 ==> cov.westernColumn - cov.easternColumn + 1 == ncol
  {
    var o := Origin(channelId);
    var s := Wrap32(o - loff + 1);
    var e := Wrap32(o - coff + 1);
    Coverage(channel, s, Wrap32(s + nlin - 1), e, Wrap32(e + ncol - 1))
  }

  /** A segment north of the origin carries a negative offset, stored as a
      uint32: VIS/IR line offset -1392 puts the segment's southern line at
      1856 + 1392 + 1. */
  lemma NorthernSegmentCoverage()
    ensures SegmentCoverage("VIS006", 1, U32 - 1392, 1856, 464, 3712).southernLine == 3249
    ensures SegmentCoverage("VIS006", 1, U32 - 1392, 1856, 464, 3712).northernLine == 3712
  {
  }

  /** coverage_visir2hrv: the HRV rectangle covering the same area as a
      VIS/IR rectangle (three HRV lines and columns per VIS/IR one). */
  function VisIrToHrv(vi: Coverage): (hrv: Coverage)
    requires vi.Valid()
    ensures hrv.Valid() && hrv.channel == "hrv"
    ensures hrv.southernLine == Wrap32(3 * vi.southernLine - 3)
    ensures hrv.northernLine == Wrap32(3 * vi.northernLine - 1)
    ensures hrv.easternColumn == Wrap32(3 * vi.easternColumn - 3)
    ensures hrv.westernColumn == Wrap32(3 * vi.westernColumn - 1)
  {
    Coverage("hrv", Wrap32(vi.southernLine * 3 - 3), Wrap32(vi.northernLine * 3 - 1),
             Wrap32(vi.easternColumn * 3 - 3), Wrap32(vi.westernColumn * 3 - 1))
  }

  /** Away from uint32 wrap-around, the HRV rectangle has exactly three
      times the lines and columns, and holds the three HRV lines and
      columns 3L-3..3L-1 of every VIS/IR line L (and likewise columns). */
  lemma VisIrToHrvTriples(vi: Coverage)
    requires vi.Valid()
    requires 1 <= vi.southernLine <= vi.northernLine && 1 <= vi.easternColumn <= vi.westernColumn
    requires 3 * vi.northernLine <= U32 && 3 * vi.westernColumn <= U32
    ensures var hrv := VisIrToHrv(vi);
            hrv.northernLine - hrv.southernLine + 1 == 3 * (vi.northernLine - vi.southernLine + 1)
            && hrv.westernColumn - hrv.easternColumn + 1 == 3 * (vi.westernColumn - vi.easternColumn + 1)
    ensures forall l, c | vi.Contains(l, c) ::
              VisIrToHrv(vi).Contains(3 * l - 3, 3 * c - 3) && VisIrToHrv(vi).Contains(3 * l - 1, 3 * c - 1)
  {
  }

  /** An HRV cell lies in the converted rectangle only if the VIS/IR cell it
      falls in lies in the original one. */
  lemma VisIrToHrvOnlyTriples(vi: Coverage, l: int, c: int)
    requires vi.Valid()
    requires 1 <= vi.southernLine <= vi.northernLine && 1 <= vi.easternColumn <= vi.westernColumn
    requires 3 * vi.northernLine <= U32 && 3 * vi.westernColumn <= U32
    requires VisIrToHrv(vi).Contains(l, c)
    ensures vi.Contains(l / 3 + 1, c / 3 + 1)
  {
    var hrv := VisIrToHrv(vi);
    assert hrv.southernLine == 3 * vi.southernLine - 3 && hrv.northernLine == 3 * vi.northernLine - 1;
    assert hrv.easternColumn == 3 * vi.easternColumn - 3 && hrv.westernColumn == 3 * vi.westernColumn - 1;
    ThirdBetween(l, vi.southernLine - 1, vi.northernLine - 1);
    ThirdBetween(c, vi.easternColumn - 1, vi.westernColumn - 1);
  }

  lemma ThirdBetween(x: int, a: int, b: int)
    requires 3 * a <= x < 3 * b + 3
    ensures a <= x / 3 <= b
  {
  }
}
