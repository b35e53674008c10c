// Reading one SEVIRI Level 1.5 HRIT segment file and assembling segment
// files into an image (msevi_l15hrit_read_segment,
// msevi_l15hrit_get_segment_coverage, msevi_l15hrit_read_image). A file is
// its byte sequence; the external wavelet decompressor is represented by
// the counts it returns for the file.

module Segments {
  import opened Common
  import opened Endian
  import opened Xrit
  import opened SeviriHrec
  import opened Coverages
  import opened Mosaic

  /** An opened image file: its frame prefix and the header it read. */
  datatype Opening = Opening(xf: XritFile, hdr: seq<byte>)

  /** The common prologue of both readers: xrit_fopen, the check that the
      file is an image file, and xrit_read_header. */
  function Opened(file: seq<byte>): (r: Option<Opening>)
    ensures r.Some? <==> Open(file).Some? && Open(file).value.ftype == FileTypeImage
                         && 0 < Open(file).value.headerLen <= |file|
    ensures r.Some? ==> r.value.xf == Open(file).value && r.value.hdr == file[..r.value.xf.headerLen]
  {
    match Open(file)
    case None => None
    case Some(xf) =>
      if xf.ftype != FileTypeImage then None
      else
        match ReadHeader(file, xf)
        case None => None
        case Some(hdr) => Some(Opening(xf, hdr))
  }

  /** A CGMS header record of type t is found in the header and holds all
      the bytes xrit_decode_hrec reads. */
  predicate XritRecordOk(hdr: seq<byte>, len: nat, t: int)
  {
    ScanFrom(hdr, len, t, 0).Found? && ScanFrom(hdr, len, t, 0).offset + DecodedSize(t) <= |hdr|
  }

  /** A SEVIRI header record of type t is found in the header and holds all
      the bytes msevi_l15_hrit_decode_hrec reads. */
  predicate SeviriRecordOk(hdr: seq<byte>, len: nat, t: int)
  {
    ScanFrom(hdr, len, t, 0).Found? && ScanFrom(hdr, len, t, 0).offset <= |hdr|
    && Readable(hdr[ScanFrom(hdr, len, t, 0).offset..])
  }

  /** What msevi_l15hrit_get_segment_coverage relies on once the header is
      read: the image structure, image navigation and segment identification
      records are present (the code dereferences them unchecked). */
  predicate CoverageDefined(file: seq<byte>)
  {
    Opened(file).Some? ==>
      var o := Opened(file).value;
      XritRecordOk(o.hdr, o.xf.headerLen, HrecImageStructure)
      && XritRecordOk(o.hdr, o.xf.headerLen, HrecImageNavigation)
      && SeviriRecordOk(o.hdr, o.xf.headerLen, HrecSegmentIdentification)
  }

  /** What msevi_l15hrit_read_segment relies on once the header is read:
      all five records are present and the data field can be read. */
  predicate SegmentDefined(file: seq<byte>)
  {
    Opened(file).Some? ==>
      var o := Opened(file).value;
      XritRecordOk(o.hdr, o.xf.headerLen, HrecPrimary)
      && XritRecordOk(o.hdr, o.xf.headerLen, HrecImageStructure)
      && XritRecordOk(o.hdr, o.xf.headerLen, HrecImageNavigation)
      && SeviriRecordOk(o.hdr, o.xf.headerLen, HrecSegmentIdentification)
      && SeviriRecordOk(o.hdr, o.xf.headerLen, HrecSegmentLineQuality)
      && ReadData(file, o.xf).Some?
  }

  /** The decoded CGMS record of type t. */
  function XritRecord(hdr: seq<byte>, len: nat, t: int): (h: Hrec)
    requires t in {HrecPrimary, HrecImageStructure, HrecImageNavigation}
    requires XritRecordOk(hdr, len, t)
    ensures h.Valid() && h.hrecType == t
    ensures t == HrecImageStructure ==> h.ImageStructure?
    ensures t == HrecImageNavigation ==> h.ImageNavigation?
  {
    ScanFoundHasType(hdr, len, t, 0);
    DecodeHrec(hdr[ScanFrom(hdr, len, t, 0).offset..]).value
  }

  /** The decoded SEVIRI record of type t. */
  function SeviriRecord(hdr: seq<byte>, len: nat, t: int): (h: SeviriHrec)
    requires t in {HrecSegmentIdentification as int, HrecSegmentLineQuality as int}
    requires SeviriRecordOk(hdr, len, t)
    ensures h.Valid() && h.hrecType == t
    ensures t == HrecSegmentIdentification as int ==> h.SegmentIdentification?
    ensures t == HrecSegmentLineQuality as int ==> h.SegmentLineQuality?
  {
    ScanFoundHasType(hdr, len, t, 0);
    DecodeSeviriHrec(hdr[ScanFrom(hdr, len, t, 0).offset..]).value
  }

  /** The coverage both readers compute from the image structure, image
      navigation and segment identification records of a header. */
  function HeaderCoverage(hdr: seq<byte>, len: nat): (cov: Coverage)
    requires XritRecordOk(hdr, len, HrecImageStructure) && XritRecordOk(hdr, len, HrecImageNavigation)
    requires SeviriRecordOk(hdr, len, HrecSegmentIdentification)
    ensures cov.Valid()
  {
    var st := XritRecord(hdr, len, HrecImageStructure);
    var nav := XritRecord(hdr, len, HrecImageNavigation);
    var si := SeviriRecord(hdr, len, HrecSegmentIdentification as int);
    SegmentCoverage("", si.channelId, nav.loff, nav.coff, st.nlin, st.ncol)
  }

  /** msevi_l15hrit_get_segment_coverage: the segment's coverage, or no
      coverage (return -1, *cov untouched) when the file does not open as an
      image file with a readable header. */
  function GetSegmentCoverage(file: seq<byte>): (r: Option<Coverage>)
    requires CoverageDefined(file)
    ensures r.None? <==> Opened(file).None?
    ensures r.Some? ==> r.value.Valid()
  {
    match Opened(file)
    case None => None
    case Some(o) => Some(HeaderCoverage(o.hdr, o.xf.headerLen))
  }

  /** The uncompressed payload taken as the host's (little-endian) uint16
      array. */
  function LeWords(data: seq<byte>): (w: seq<int>)
    ensures |w| == |data| / 2
    ensures forall i :: 0 <= i < |w| ==> 0 <= w[i] < U16 && w[i] % 256 == data[2 * i] && w[i] / 256 == data[2 * i + 1]
  {
    seq(|data| / 2, i requires 0 <= i < |data| / 2 => data[2 * i] as int + 256 * (data[2 * i + 1] as int))
  }

  /** A segment as msevi_l15hrit_read_segment returns it. */
  datatype Segment = Segment(
    nlin: int, ncol: int, depth: int, spacecraftId: int, channelId: int,
    coverage: Coverage, counts: seq<int>, lineSideInfo: seq<LineSideInfo>)

  /** msevi_l15hrit_read_segment: sizes and depth from the image structure
      record, coverage from the navigation offsets, spacecraft and channel
      from the segment identification record, line entries from the line
      quality record, and the counts either decompressed (compression > 0)
      or the raw payload. No segment when the file does not open as an
      image file with a readable header. */
  function SegmentOf(file: seq<byte>, decompressed: seq<int>): (r: Option<Segment>)
    requires SegmentDefined(file)
    ensures r.None? <==> Opened(file).None?
  {
    match Opened(file)
    case None => None
    case Some(o) =>
      var len := o.xf.headerLen;
      var st := XritRecord(o.hdr, len, HrecImageStructure);
      var si := SeviriRecord(o.hdr, len, HrecSegmentIdentification as int);
      var lq := SeviriRecord(o.hdr, len, HrecSegmentLineQuality as int);
      var data := ReadData(file, o.xf).value;
      Some(Segment(st.nlin, st.ncol, st.bpp, si.satId, si.channelId, HeaderCoverage(o.hdr, len),
                   if st.compression > 0 then decompressed else LeWords(data), lq.lineSideInfo))
  }

  /** Both readers place a segment identically: the segment read carries
      exactly the coverage get_segment_coverage reports, and one is
      available exactly when the other is. */
  lemma ReadAndCoverageAgree(file: seq<byte>, decompressed: seq<int>)
    requires SegmentDefined(file)
    ensures CoverageDefined(file)
    ensures SegmentOf(file, decompressed).Some? <==> GetSegmentCoverage(file).Some?
    ensures SegmentOf(file, decompressed).Some? ==>
              SegmentOf(file, decompressed).value.coverage == GetSegmentCoverage(file).value
  {
  }

  /** img holds the decoded segment seg field by field. */
  predicate Holds(img: Image, seg: Segment)
    reads img, img.counts, img.lineSideInfo
  {
    img.nlin == seg.nlin && img.ncol == seg.ncol && img.depth == seg.depth
    && img.spacecraftId == seg.spacecraftId && img.channelId == seg.channelId && img.segmentId == 0
    && img.coverage == seg.coverage && img.counts[..] == seg.counts && img.lineSideInfo[..] == seg.lineSideInfo
  }

  /** The header records msevi_l15hrit_read_segment needs, each looked
      up with xrit_find_hrec and decoded; the primary record is decoded too
      and then dropped. */
  method DecodeRecords(hdr: seq<byte>, len: nat)
    returns (st: Hrec, nav: Hrec, si: SeviriHrec, lines: array<LineSideInfo>)
    requires XritRecordOk(hdr, len, HrecPrimary)
    requires XritRecordOk(hdr, len, HrecImageStructure) && XritRecordOk(hdr, len, HrecImageNavigation)
    requires SeviriRecordOk(hdr, len, HrecSegmentIdentification)
    requires SeviriRecordOk(hdr, len, HrecSegmentLineQuality)
    ensures st == XritRecord(hdr, len, HrecImageStructure) && nav == XritRecord(hdr, len, HrecImageNavigation)
    ensures si == SeviriRecord(hdr, len, HrecSegmentIdentification as int)
    ensures lines[..] == SeviriRecord(hdr, len, HrecSegmentLineQuality as int).lineSideInfo
    ensures fresh(lines)
  {
    ScanFoundHasType(hdr, len, HrecPrimary, 0);
    ScanFoundHasType(hdr, len, HrecImageStructure, 0);
    ScanFoundHasType(hdr, len, HrecImageNavigation, 0);
    ScanFoundHasType(hdr, len, HrecSegmentIdentification as int, 0);
    ScanFoundHasType(hdr, len, HrecSegmentLineQuality as int, 0);
    var at := FindHrec(hdr, len, HrecPrimary);
    var prim := DecodeHrec(hdr[at.value..]);
    at := FindHrec(hdr, len, HrecImageStructure);
    st := DecodeHrec(hdr[at.value..]).value;
    at := FindHrec(hdr, len, HrecImageNavigation);
    nav := DecodeHrec(hdr[at.value..]).value;
    at := FindHrec(hdr, len, HrecSegmentIdentification as int);
    si := DecodeSeviriHrec(hdr[at.value..]).value;
    at := FindHrec(hdr, len, HrecSegmentLineQuality as int);
    lines := DecodeLineSideInfo(hdr[at.value..]);
  }

  /** msevi_l15hrit_read_segment: open the file, check it is an image
      file, read the header, decode its records, fill in a fresh image and
      attach the (decompressed) payload. */
  method ReadSegment(file: seq<byte>, decompressed: seq<int>) returns (img: Image?)
    requires SegmentDefined(file)
    ensures img == null <==> SegmentOf(file, decompressed).None?
    ensures img != null ==> fresh(img) && fresh(img.counts) && fresh(img.lineSideInfo)
                            && Holds(img, SegmentOf(file, decompressed).value)
  {
    var prefix := Open(file);
    if prefix.None? || prefix.value.ftype != FileTypeImage {
      return null;
    }
    var xf := prefix.value;
    var header := ReadHeader(file, xf);
    if header.None? {
      return null;
    }
    var hdr := header.value;
    var len := xf.headerLen;
    assert Opened(file) == Some(Opening(xf, hdr));
    var st, nav, si, lines := DecodeRecords(hdr, len);

    var cov := SegmentCoverage("", si.channelId, nav.loff, nav.coff, st.nlin, st.ncol);
    assert cov == HeaderCoverage(hdr, len);
    var data := ReadData(file, xf).value;
    var counts: array<int>;
    if st.compression > 0 {
      counts := new int[|decompressed|](k requires 0 <= k < |decompressed| => decompressed[k]);
    } else {
      var words := LeWords(data);
      counts := new int[|words|](k requires 0 <= k < |words| => words[k]);
    }
    assert counts[..] == if st.compression > 0 then decompressed else LeWords(data);
    ghost var seg := Segment(st.nlin, st.ncol, st.bpp, si.satId, si.channelId, cov, counts[..], lines[..]);
    assert SegmentOf(file, decompressed) == Some(seg);
    img := new Image.FromParts(st.nlin, st.ncol, st.bpp, si.satId, si.channelId, cov, counts, lines);
    assert Holds(img, seg);
  }

  // ---- msevi_l15hrit_read_image ----

  /** The rectangle read_image is asked for: bounds that fit a C int, not
      inverted by more than an empty row or column. */
  predicate ImageRequest(cov: Coverage)
  {
    InIntRange(cov) && cov.southernLine <= cov.northernLine + 1 && cov.easternColumn <= cov.westernColumn + 1
  }

  /** The coverage read_image tests a file against: the one
      get_segment_coverage reports, or, when that fails and leaves seg_cov
      untouched, whatever seg_cov held (stale). */
  function TestedCoverage(file: seq<byte>, stale: Coverage): (c: Coverage)
    requires CoverageDefined(file)
    ensures GetSegmentCoverage(file).Some? ==> c == GetSegmentCoverage(file).value
    ensures GetSegmentCoverage(file).None? ==> c == stale
  {
    match GetSegmentCoverage(file)
    case Some(c) => c
    case None => stale
  }

  /** A decoded segment map_segment can work on: its grid is exactly its
      coverage rectangle, with one line entry per line. */
  predicate SegmentFits(seg: Segment)
  {
    0 <= seg.nlin && 0 <= seg.ncol && InIntRange(seg.coverage)
    && seg.nlin == seg.coverage.northernLine - seg.coverage.southernLine + 1
    && GridShape(|seg.counts|, seg.coverage, seg.ncol) && |seg.lineSideInfo| == seg.nlin
  }

  /** One file as read_image meets it: its bytes, the counts the external
      decompressor returns for it, and the value the loop's uninitialised
      seg_cov holds if get_segment_coverage fails on it. */
  datatype SegmentFile = SegmentFile(bytes: seq<byte>, decompressed: seq<int>, stale: Coverage)

  /** What read_image relies on for one file: its coverage can be looked up,
      and, if it is read, it can be read and gives a segment map_segment
      can work on. */
  predicate FileUsable(f: SegmentFile, cov: Coverage)
  {
    CoverageDefined(f.bytes)
    && (Overlaps(cov, TestedCoverage(f.bytes, f.stale)) ==>
          SegmentDefined(f.bytes)
          && (SegmentOf(f.bytes, f.decompressed).Some? ==> SegmentFits(SegmentOf(f.bytes, f.decompressed).value)))
  }

  /** What read_image relies on for all its files. */
  predicate AllUsable(files: seq<SegmentFile>, cov: Coverage)
  {
    forall i | 0 <= i < |files| :: FileUsable(files[i], cov)
  }

  /** What read_image sees of one file: the coverage it tests the file
      against, whether that overlaps the image (the file is read), and the
      segment read from it (None when it is not read or cannot be). */
  datatype FileView = FileView(tested: Coverage, isRead: bool, segment: Option<Segment>)

  /** A file read_image reads and cannot read: the whole read fails. */
  predicate Fails(v: FileView)
  {
    v.isRead && v.segment.None?
  }

  /** A view map_segment can work on: a segment, when there is one, fits
      its grid. */
  predicate ViewFits(v: FileView)
  {
    v.segment.Some? ==> v.isRead && SegmentFits(v.segment.value)
  }

  /** The view read_image has of one usable file. */
  function ViewOf(f: SegmentFile, cov: Coverage): (v: FileView)
    requires FileUsable(f, cov)
    ensures ViewFits(v)
    ensures v.isRead <==> Overlaps(cov, TestedCoverage(f.bytes, f.stale))
    ensures Fails(v) <==> v.isRead && Opened(f.bytes).None?
  {
    var tested := TestedCoverage(f.bytes, f.stale);
    if Overlaps(cov, tested) then FileView(tested, true, SegmentOf(f.bytes, f.decompressed))
    else FileView(tested, false, None)
  }

  /** The views of all the files, in order. */
  function Views(files: seq<SegmentFile>, cov: Coverage): (vs: seq<FileView>)
    requires AllUsable(files, cov)
    ensures |vs| == |files|
  {
    seq(|files|, i requires 0 <= i < |files| && AllUsable(files, cov) => ViewOf(files[i], cov))
  }

  /** views[k] is what read_image sees of file k. */
  ghost predicate SeenAt(files: seq<SegmentFile>, cov: Coverage, views: seq<FileView>, k: int)
  {
    0 <= k < |files| && k < |views| && FileUsable(files[k], cov) && views[k] == ViewOf(files[k], cov)
  }

  /** views is what read_image sees of the files, one view per file. */
  ghost predicate Sees(files: seq<SegmentFile>, cov: Coverage, views: seq<FileView>)
  {
    |views| == |files| && forall k | 0 <= k < |files| :: SeenAt(files, cov, views, k)
  }

  lemma ViewsSeen(files: seq<SegmentFile>, cov: Coverage)
    requires AllUsable(files, cov)
    ensures Sees(files, cov, Views(files, cov))
  {
    forall k | 0 <= k < |files|
      ensures SeenAt(files, cov, Views(files, cov), k)
    {
    }
  }

  /** None of the first n files fails. */
  predicate NoneFail(views: seq<FileView>, n: nat)
    requires n <= |views|
  {
    n == 0 || (NoneFail(views, n - 1) && !Fails(views[n - 1]))
  }

  lemma {:induction false} NoneFailAll(views: seq<FileView>, n: nat)
    requires n <= |views|
    ensures NoneFail(views, n) <==> forall k | 0 <= k < n :: !Fails(views[k])
  {
    if n > 0 {
      NoneFailAll(views, n - 1);
    }
  }

  /** A prefix of files none of which fails is followed by shorter ones. */
  lemma {:induction false} NoneFailPrefix(views: seq<FileView>, m: nat, n: nat)
    requires m <= n <= |views|
    ensures NoneFail(views, n) ==> NoneFail(views, m)
    decreases n - m
  {
    if m < n {
      NoneFailPrefix(views, m, n - 1);
    }
  }

  /** The parts of an image that map_segment changes. */
  datatype Grid = Grid(counts: seq<int>, lineSideInfo: seq<LineSideInfo>, spacecraftId: int, channelId: int)

  function GridOf(img: Image): Grid
    reads img, img.counts, img.lineSideInfo
  {
    Grid(img.counts[..], img.lineSideInfo[..], img.spacecraftId, img.channelId)
  }

  /** map_segment of seg onto the grid g of coverage dc. */
  function MapGrid(g: Grid, dc: Coverage, seg: Segment): (r: Grid)
    requires GridShape(|g.counts|, dc, dc.westernColumn - dc.easternColumn + 1) && SegmentFits(seg)
    ensures |r.counts| == |g.counts| && |r.lineSideInfo| == |g.lineSideInfo|
  {
    var copied := OverlapLines(dc, seg.coverage) >= 0 && OverlapColumns(dc, seg.coverage) >= 0
                  && g.spacecraftId == 0;
    Grid(MappedCounts(g.counts, dc, dc.westernColumn - dc.easternColumn + 1, seg.counts, seg.coverage, seg.ncol),
         MappedLines(g.lineSideInfo, dc, seg.lineSideInfo, seg.coverage),
         if copied then seg.spacecraftId else g.spacecraftId,
         if copied then seg.channelId else g.channelId)
  }

  /** The grid of a freshly allocated image of coverage cov: zero counts,
      zero line entries, no spacecraft or channel. */
  function ZeroGrid(cov: Coverage): (g: Grid)
    requires ImageRequest(cov)
    ensures GridShape(|g.counts|, cov, cov.westernColumn - cov.easternColumn + 1)
    ensures |g.lineSideInfo| == cov.northernLine - cov.southernLine + 1
  {
    var nlin := cov.northernLine - cov.southernLine + 1;
    var ncol := cov.westernColumn - cov.easternColumn + 1;
    GridSizeIsProduct(nlin, ncol);
    Grid(seq(GridSize(nlin, ncol), _ => 0), seq(nlin, _ => ZeroLine), 0, 0)
  }

  /** The grid after one more file: its segment, if it has one, mapped
      onto g. */
  function Step(g: Grid, cov: Coverage, v: FileView): (r: Grid)
    requires GridShape(|g.counts|, cov, cov.westernColumn - cov.easternColumn + 1)
    ensures |r.counts| == |g.counts| && |r.lineSideInfo| == |g.lineSideInfo|
  {
    if v.segment.Some? && SegmentFits(v.segment.value) then MapGrid(g, cov, v.segment.value) else g
  }

  /** The grid read_image holds after the first n files: a zero grid of
      the requested coverage with the segment of every file read mapped onto
      it in file order. */
  function Assembled(views: seq<FileView>, cov: Coverage, n: nat): (g: Grid)
    requires ImageRequest(cov) && n <= |views|
    ensures GridShape(|g.counts|, cov, cov.westernColumn - cov.easternColumn + 1)
    ensures |g.lineSideInfo| == cov.northernLine - cov.southernLine + 1
  {
    if n == 0 then ZeroGrid(cov) else Step(Assembled(views, cov, n - 1), cov, views[n - 1])
  }

  /** map_segment of a segment read into seg, stated on the grids: img's
      grid becomes MapGrid of its old grid and the segment's value sv. */
  method MapDecoded(img: Image, seg: Image, ghost sv: Segment)
    requires img.Consistent() && Holds(seg, sv) && SegmentFits(sv)
    requires img.counts != seg.counts && img.lineSideInfo != seg.lineSideInfo
    modifies img, img.counts, img.lineSideInfo
    ensures img.Consistent()
    ensures img.coverage == old(img.coverage) && img.depth == old(img.depth) && img.segmentId == old(img.segmentId)
    ensures GridOf(img) == MapGrid(old(GridOf(img)), img.coverage, sv)
  {
    var _ := MapSegment(img, seg);
    assert Holds(seg, sv);
  }

  /** One turn of read_image's loop, on file i: look up its coverage
      and, when it overlaps the image, read the segment and map it onto img.
      ok is false exactly when the file is read and cannot be; wasRead says
      whether it was read. */
  method ReadFile(img: Image, files: seq<SegmentFile>, cov: Coverage, ghost views: seq<FileView>, i: nat)
    returns (ok: bool, wasRead: bool)
    requires Sees(files, cov, views) && i < |files| && Building(img, cov)
    modifies img, img.counts, img.lineSideInfo
    ensures Building(img, cov)
    ensures wasRead == views[i].isRead && (ok <==> !Fails(views[i]))
    ensures GridOf(img) == if ok then Step(old(GridOf(img)), cov, views[i]) else old(GridOf(img))
  {
    assert SeenAt(files, cov, views, i);
    var f := files[i];
    ghost var v := views[i];
    var segCov := GetSegmentCoverage(f.bytes);
    var tested := if segCov.Some? then segCov.value else f.stale;
    assert tested == TestedCoverage(f.bytes, f.stale);
    wasRead := Overlaps(cov, tested);
    ok := true;
    if wasRead {
      var seg := ReadSegment(f.bytes, f.decompressed);
      if seg == null {
        ok := false;
      } else {
        MapDecoded(img, seg, v.segment.value);
      }
    }
  }

  /** read_image after its first n files: none of them failed, and img
      holds the grid they assemble. */
  ghost predicate FilledTo(img: Image, views: seq<FileView>, cov: Coverage, n: nat)
    reads img, img.counts, img.lineSideInfo
  {
    ImageRequest(cov) && n <= |views| && Building(img, cov)
    && NoneFail(views, n) && GridOf(img) == Assembled(views, cov, n)
  }

  /** An image read_image is filling in: consistent, of the requested
      coverage, depth and segment number zero. */
  predicate Building(img: Image, cov: Coverage)
    reads img, img.counts, img.lineSideInfo
  {
    img.Consistent() && img.coverage == cov && img.depth == 0 && img.segmentId == 0
  }

  /** read_image's allocation: msevi_l15_image_alloc of the requested
      extent, with the requested coverage filled in. */
  method NewImage(cov: Coverage) returns (img: Image)
    requires ImageRequest(cov)
    ensures fresh(img) && fresh(img.counts) && fresh(img.lineSideInfo)
    ensures Building(img, cov) && GridOf(img) == ZeroGrid(cov)
  {
    var nlin := Extent(cov.southernLine, cov.northernLine);
    var ncol := Extent(cov.easternColumn, cov.westernColumn);
    img := new Image.Alloc(nlin, ncol);
    img.coverage := cov;
    assert img.counts[..] == seq(GridSize(nlin, ncol), _ => 0);
    assert img.lineSideInfo[..] == seq(nlin, _ => ZeroLine);
  }

  /** read_image's loop over the files, in order, onto img: stops at the
      first file that is read and cannot be. ok says whether none failed. */
  method ReadFiles(img: Image, files: seq<SegmentFile>, cov: Coverage, ghost views: seq<FileView>)
    returns (ok: bool)
    requires Sees(files, cov, views) && FilledTo(img, views, cov, 0)
    modifies img, img.counts, img.lineSideInfo
    ensures Building(img, cov)
    ensures (ok <==> NoneFail(views, |views|)) && (ok ==> FilledTo(img, views, cov, |views|))
  {
    var i := 0;
    while i < |files|
      invariant i <= |files| && FilledTo(img, views, cov, i)
    {
      var fileOk, _ := ReadFile(img, files, cov, views, i);
      if !fileOk {
        NoneFailPrefix(views, i + 1, |views|);
        return false;
      }
      i := i + 1;
    }
    return true;
  }

  /** msevi_l15hrit_read_image: allocate a zero image of the requested
      coverage, then for each file in turn look up its coverage and, when it
      overlaps, read the segment and map it onto the image. The first
      overlapping file that cannot be read makes the whole read fail. */
  method ReadImage(files: seq<SegmentFile>, cov: Coverage) returns (img: Image?)
    requires AllUsable(files, cov) && ImageRequest(cov)
    ensures var views := Views(files, cov);
            img == null <==> exists i | 0 <= i < |views| :: Fails(views[i])
    ensures img != null ==> Building(img, cov) && GridOf(img) == Assembled(Views(files, cov), cov, |files|)
  {
    ghost var views := Views(files, cov);
    ViewsSeen(files, cov);
    img := NewImage(cov);
    var ok := ReadFiles(img, files, cov, views);
    NoneFailAll(views, |views|);
    if !ok {
      img := null;
    }
  }
}
