/** msevi_l15hrit_read_epilogue: the version byte and the image production
    statistics record of the Level 1.5 trailer, decoded from the data
    field of an epilogue file. The record starts at byte 1 and its parts
    are read at fixed offsets; laid out one after the other they fill the
    record up to byte 341, the start of the navigation extraction record. */
module Epilogue {
  import opened Common
  import opened Endian
  import opened CdsTime
  import opened Coverages
  import opened Xrit
  import opened L15Layout

  /** File type of an epilogue file (MSEVI_L15HRIT_EPILOGUE). */
  const EpilogueFileType: int := 129

  /** Number of channels (MSEVI_NR_CHAN). */
  const ChannelCount: nat := 12

  // ---- Actual scanning summary (record offset 2, data offset 3) ----

  datatype ScanningSummary = ScanningSummary(
    nominalImageScanning: byte, reducedScan: byte,
    forwardScanStart: Cds, forwardScanEnd: Cds)
  {
    predicate Valid() { forwardScanStart.Valid() && forwardScanEnd.Valid() }
  }

  /** Two flag bytes and two time stamps. */
  const ScanningSummarySize: nat := 14

  function ScanningSummaryAt(bs: seq<byte>, off: nat): (s: ScanningSummary)
    requires off + ScanningSummarySize <= |bs|
    ensures s.Valid()
  {
    ScanningSummary(bs[off], bs[off + 1], CdsAt(bs, off + 2), CdsAt(bs, off + 8))
  }

  function EncodeScanningSummary(s: ScanningSummary): (bs: seq<byte>)
    requires s.Valid()
    ensures |bs| == ScanningSummarySize
  {
    [s.nominalImageScanning, s.reducedScan] + EncodeCds(s.forwardScanStart) + EncodeCds(s.forwardScanEnd)
  }

  lemma ScanningSummaryPlaced(bs: seq<byte>, p: nat, s: ScanningSummary)
    requires s.Valid() && Placed(bs, p, EncodeScanningSummary(s))
    ensures p + ScanningSummarySize <= |bs| && ScanningSummaryAt(bs, p) == s
  {
    var flags := [s.nominalImageScanning, s.reducedScan];
    var t0 := EncodeCds(s.forwardScanStart);
    var t1 := EncodeCds(s.forwardScanEnd);
    PlacedParts(bs, p, flags + t0, t1);
    PlacedParts(bs, p, flags, t0);
    CdsPlaced(bs, p + 2, s.forwardScanStart);
    CdsPlaced(bs, p + 8, s.forwardScanEnd);
  }

  // ---- Reception summary statistics (data offset 29) ----

  /** Per channel: planned, missing, corrupted and replaced Level 1.0 line
      counts. */
  datatype ReceptionStats = ReceptionStats(
    planned: seq<nat>, missing: seq<nat>, corrupted: seq<nat>, replaced: seq<nat>)
  {
    predicate Valid()
    {
      && |planned| == ChannelCount && |missing| == ChannelCount
      && |corrupted| == ChannelCount && |replaced| == ChannelCount
      && FitIn(planned, 4) && FitIn(missing, 4) && FitIn(corrupted, 4) && FitIn(replaced, 4)
    }
  }

  /** Four arrays of 12 BE32 counts. */
  const ReceptionStatsSize: nat := 192

  /** Channel i's counts at 4 * i, 4 * (12 + i), 4 * (24 + i) and 4 * (36 + i). */
  function ReceptionStatsAt(bs: seq<byte>, off: nat): (r: ReceptionStats)
    requires off + ReceptionStatsSize <= |bs|
    ensures r.Valid()
  {
    Pow256Values();
    ReceptionStats(BeFields(bs, off, 4, ChannelCount), BeFields(bs, off + 48, 4, ChannelCount),
                   BeFields(bs, off + 96, 4, ChannelCount), BeFields(bs, off + 144, 4, ChannelCount))
  }

  function EncodeReceptionStats(r: ReceptionStats): (bs: seq<byte>)
    requires r.Valid()
    ensures |bs| == ReceptionStatsSize
  {
    EncodeFields(r.planned, 4) + EncodeFields(r.missing, 4)
    + EncodeFields(r.corrupted, 4) + EncodeFields(r.replaced, 4)
  }

  lemma ReceptionStatsPlaced(bs: seq<byte>, p: nat, r: ReceptionStats)
    requires r.Valid() && Placed(bs, p, EncodeReceptionStats(r))
    ensures p + ReceptionStatsSize <= |bs| && ReceptionStatsAt(bs, p) == r
  {
    var a := EncodeFields(r.planned, 4);
    var b := EncodeFields(r.missing, 4);
    var c := EncodeFields(r.corrupted, 4);
    var d := EncodeFields(r.replaced, 4);
    PlacedParts(bs, p, a + b + c, d);
    PlacedParts(bs, p, a + b, c);
    PlacedParts(bs, p, a, b);
    FieldsPlaced(bs, p, r.planned, 4);
    FieldsPlaced(bs, p + 48, r.missing, 4);
    FieldsPlaced(bs, p + 96, r.corrupted, 4);
    FieldsPlaced(bs, p + 144, r.replaced, 4);
  }

  // ---- L15 image validity (data offset 221) ----

  /** Six flag bytes per channel, copied as they are. */
  datatype ImageValidity = ImageValidity(
    nominalImage: byte, nonNominalBecauseIncomplete: byte,
    nonNominalRadiometricQuality: byte, nonNominalGeometricQuality: byte,
    nonNominalTimeliness: byte, nonNominalIncompleteL15: byte)

  const ImageValiditySize: nat := 6

  function ImageValidityAt(bs: seq<byte>, off: nat): (v: ImageValidity)
    requires off + ImageValiditySize <= |bs|
  {
    ImageValidity(bs[off], bs[off + 1], bs[off + 2], bs[off + 3], bs[off + 4], bs[off + 5])
  }

  function EncodeImageValidity(v: ImageValidity): (bs: seq<byte>)
  {
    [v.nominalImage, v.nonNominalBecauseIncomplete, v.nonNominalRadiometricQuality,
     v.nonNominalGeometricQuality, v.nonNominalTimeliness, v.nonNominalIncompleteL15]
  }

  /** A validity entry read where its six flags have been written gives
      them back, and the encoding is ImageValiditySize bytes long. */
  lemma ImageValidityPlaced(bs: seq<byte>, p: nat, v: ImageValidity)
    requires Placed(bs, p, EncodeImageValidity(v))
    ensures |EncodeImageValidity(v)| == ImageValiditySize
    ensures p + ImageValiditySize <= |bs| && ImageValidityAt(bs, p) == v
  {
    var e := EncodeImageValidity(v);
    assert bs[p + 5] == e[5] && bs[p + 4] == e[4] && bs[p + 3] == e[3];
  }

  /** The validity entries of the 12 channels, one every ImageValiditySize bytes. */
  function ImageValiditiesAt(bs: seq<byte>, off: nat): (vs: seq<ImageValidity>)
    requires off + ImageValiditySize * ChannelCount <= |bs|
    ensures |vs| == ChannelCount
  {
    seq(ChannelCount, i requires 0 <= i < ChannelCount => ImageValidityAt(bs, off + ImageValiditySize * i))
  }

  /** The validity loop of read_epilogue: a cursor that starts at off and
      advances by six bytes after each channel. */
  method ReadImageValidities(bs: seq<byte>, off: nat) returns (vs: seq<ImageValidity>)
    requires off + ImageValiditySize * ChannelCount <= |bs|
    ensures vs == ImageValiditiesAt(bs, off)
  {
    vs := [];
    var p := off;
    while |vs| < ChannelCount
      invariant |vs| <= ChannelCount && p == off + ImageValiditySize * |vs|
      invariant forall i | 0 <= i < |vs| :: vs[i] == ImageValidityAt(bs, off + ImageValiditySize * i)
    {
      vs := vs + [ImageValidityAt(bs, p)];
      p := p + ImageValiditySize;
    }
  }

  function EncodeImageValidities(vs: seq<ImageValidity>): (bs: seq<byte>)
    ensures |bs| == ImageValiditySize * |vs|
  {
    var parts := seq(|vs|, i requires 0 <= i < |vs| => EncodeImageValidity(vs[i]));
    ConcatLength(parts, ImageValiditySize);
    Concat(parts)
  }

  lemma ImageValiditiesPlaced(bs: seq<byte>, p: nat, vs: seq<ImageValidity>)
    requires |vs| == ChannelCount && Placed(bs, p, EncodeImageValidities(vs))
    ensures p + ImageValiditySize * ChannelCount <= |bs| && ImageValiditiesAt(bs, p) == vs
  {
    var parts := seq(|vs|, i requires 0 <= i < |vs| => EncodeImageValidity(vs[i]));
    forall i | 0 <= i < ChannelCount
      ensures ImageValidityAt(bs, p + ImageValiditySize * i) == vs[i]
    {
      ConcatPlaced(bs, p, parts, ImageValiditySize, i);
      ImageValidityPlaced(bs, p + ImageValiditySize * i, vs[i]);
    }
  }

  // ---- The image production statistics record ----

  datatype ProductionStats = ProductionStats(
    satelliteId: nat,
    scanningSummary: ScanningSummary,
    receptionStats: ReceptionStats,
    imageValidity: seq<ImageValidity>,
    actualCoverageVisIr: Coverage,
    actualCoverageLowerHrv: Coverage,
    actualCoverageUpperHrv: Coverage)
  {
    predicate Valid()
    {
      && satelliteId < U16 && scanningSummary.Valid() && receptionStats.Valid()
      && |imageValidity| == ChannelCount
      && actualCoverageVisIr.Valid() && actualCoverageVisIr.channel == ""
      && actualCoverageLowerHrv.Valid() && actualCoverageLowerHrv.channel == ""
      && actualCoverageUpperHrv.Valid() && actualCoverageUpperHrv.channel == ""
    }
  }

  /** Bytes 17 .. 28 of the data field (the rest of the scanning summary
      and the radiometric behaviour) are skipped. */
  const SkippedSize: nat := 12

  /** Offsets within the record (the data field offsets less one): the
      satellite id at 0, the scanning summary at 2, the reception
      statistics at 28, the validity flags at 220 and the three coverages
      at 292, 308 and 324. */
  function ProductionStatsAt(bs: seq<byte>, off: nat): (s: ProductionStats)
    requires off + TrailerRecLen[1] <= |bs|
    ensures s.Valid()
  {
    Pow256Values();
    ProductionStats(BeAt(bs, off, 2), ScanningSummaryAt(bs, off + 2), ReceptionStatsAt(bs, off + 28),
                    ImageValiditiesAt(bs, off + 220),
                    CoverageAt(bs, off + 292), CoverageAt(bs, off + 308), CoverageAt(bs, off + 324))
  }

  /** The record laid out part after part, with the skipped bytes written
      as zero: the parts fill the record exactly. */
  function EncodeProductionStats(s: ProductionStats): (bs: seq<byte>)
    requires s.Valid()
    ensures |bs| == TrailerRecLen[1]
  {
    (BeBytes(s.satelliteId, 2) + EncodeScanningSummary(s.scanningSummary) + seq(SkippedSize, _ => 0))
    + (EncodeReceptionStats(s.receptionStats) + EncodeImageValidities(s.imageValidity))
    + (EncodeCoverage(s.actualCoverageVisIr) + EncodeCoverage(s.actualCoverageLowerHrv)
       + EncodeCoverage(s.actualCoverageUpperHrv))
  }

  lemma ProductionStatsPlaced(bs: seq<byte>, p: nat, s: ProductionStats)
    requires s.Valid() && Placed(bs, p, EncodeProductionStats(s))
    ensures p + TrailerRecLen[1] <= |bs| && ProductionStatsAt(bs, p) == s
  {
    var head := BeBytes(s.satelliteId, 2) + EncodeScanningSummary(s.scanningSummary) + seq(SkippedSize, _ => 0);
    var stats := EncodeReceptionStats(s.receptionStats) + EncodeImageValidities(s.imageValidity);
    var covs := EncodeCoverage(s.actualCoverageVisIr) + EncodeCoverage(s.actualCoverageLowerHrv)
                + EncodeCoverage(s.actualCoverageUpperHrv);
    PlacedParts(bs, p, head + stats, covs);
    PlacedParts(bs, p, head, stats);
    HeadPlaced(bs, p, s.satelliteId, s.scanningSummary);
    PlacedParts(bs, p + 28, EncodeReceptionStats(s.receptionStats), EncodeImageValidities(s.imageValidity));
    ReceptionStatsPlaced(bs, p + 28, s.receptionStats);
    ImageValiditiesPlaced(bs, p + 220, s.imageValidity);
    CoveragesPlaced(bs, p + 292, s.actualCoverageVisIr, s.actualCoverageLowerHrv, s.actualCoverageUpperHrv);
  }

  lemma HeadPlaced(bs: seq<byte>, p: nat, id: nat, ss: ScanningSummary)
    requires id < U16 && ss.Valid()
    requires Placed(bs, p, BeBytes(id, 2) + EncodeScanningSummary(ss) + seq(SkippedSize, _ => 0))
    ensures p + 16 <= |bs| && BeAt(bs, p, 2) == id && ScanningSummaryAt(bs, p + 2) == ss
  {
    Pow256Values();
    PlacedParts(bs, p, BeBytes(id, 2) + EncodeScanningSummary(ss), seq(SkippedSize, _ => 0));
    PlacedParts(bs, p, BeBytes(id, 2), EncodeScanningSummary(ss));
    BeAtPlaced(bs, p, id, 2);
    ScanningSummaryPlaced(bs, p + 2, ss);
  }

  // ---- The trailer ----

  datatype Trailer = Trailer(version: byte, productionStats: ProductionStats)

  /** The version byte at 0 and the production statistics record at its
      offset. The decoder reads nothing past the end of that record. */
  function TrailerAt(data: seq<byte>): (t: Trailer)
    requires TrailerRecOff[2] <= |data|
    ensures t.productionStats.Valid()
  {
    TrailerOffsetsAreSums();
    Trailer(data[TrailerRecOff[0]], ProductionStatsAt(data, TrailerRecOff[1]))
  }

  function EncodeTrailer(t: Trailer): (bs: seq<byte>)
    requires t.productionStats.Valid()
    ensures |bs| == TrailerRecOff[2]
  {
    [t.version] + EncodeProductionStats(t.productionStats)
  }

  /** Decoding the first TrailerRecOff[2] bytes as laid out by the encoder
      gives the trailer back, whatever follows them. */
  lemma TrailerRoundTrip(t: Trailer, rest: seq<byte>)
    requires t.productionStats.Valid()
    ensures TrailerAt(EncodeTrailer(t) + rest) == t
  {
    var bs := EncodeTrailer(t) + rest;
    var ps := EncodeProductionStats(t.productionStats);
    assert bs[1..1 + |ps|] == ps;
    ProductionStatsPlaced(bs, 1, t.productionStats);
  }

  /** The data field of an epilogue file is long enough for the decoder,
      which reads without checking. */
  predicate DataLongEnough(file: seq<byte>)
  {
    Open(file).Some? ==>
      var xf := Open(file).value;
      xf.ftype == EpilogueFileType && ReadData(file, xf).Some? ==> TrailerRecOff[2] <= |ReadData(file, xf).value|
  }

  /** msevi_l15hrit_read_epilogue: no trailer for a file that does not open,
      is of another type or has no data field; otherwise the decoding of the
      data field. */
  function ReadEpilogue(file: seq<byte>): (r: Option<Trailer>)
    requires DataLongEnough(file)
    ensures r.Some? <==> Open(file).Some? && Open(file).value.ftype == EpilogueFileType
                         && ReadData(file, Open(file).value).Some?
    ensures r.Some? ==> r.value.productionStats.Valid()
                        && r.value == TrailerAt(ReadData(file, Open(file).value).value)
  {
    match Open(file)
    case None => None
    case Some(xf) =>
      if xf.ftype != EpilogueFileType then None
      else match ReadData(file, xf)
        case None => None
        case Some(data) => Some(TrailerAt(data))
  }

  /** An epilogue file whose data field starts with an encoded trailer is
      long enough to decode, and reading it gives that trailer back. */
  lemma ReadEpilogueOfEncoded(file: seq<byte>, t: Trailer, rest: seq<byte>)
    requires Open(file).Some? && Open(file).value.ftype == EpilogueFileType
    requires t.productionStats.Valid()
    requires ReadData(file, Open(file).value) == Some(EncodeTrailer(t) + rest)
    ensures DataLongEnough(file) && ReadEpilogue(file) == Some(t)
  {
    TrailerRoundTrip(t, rest);
  }
}
