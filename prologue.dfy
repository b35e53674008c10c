/** msevi_l15hrit_read_prologue: the parts of the Level 1.5 header that
    the C code decodes from the data field of a prologue file. Each part is
    read at a fixed offset from the start of its header record; floating
    point fields are kept as the raw IEEE bit patterns that the big-endian
    copy leaves in them. Fields the C code never fills (the version, the
    satellite operations, attitude and UTC correlation, the radiometric
    processing summary) stay zero there and are not modelled. */
module Prologue {
  import opened Common
  import opened Endian
  import opened CdsTime
  import opened Coverages
  import opened Xrit
  import opened L15Layout

  /** File type of a prologue file (MSEVI_L15HRIT_PROLOGUE). */
  const PrologueFileType: int := 128

  // ---- Satellite definition (satellite status record, offset 0) ----

  datatype SatelliteDefinition = SatelliteDefinition(
    satelliteId: nat,
    nominalLongitude: nat,   // float, as its bit pattern
    satelliteStatus: byte)
  {
    predicate Valid() { satelliteId < U16 && nominalLongitude < U32 }
  }

  const SatelliteDefinitionSize: nat := 7

  /** BE16 id at 0, BE32 longitude at 2, the status byte at 6. */
  function SatelliteDefinitionAt(bs: seq<byte>, off: nat): (d: SatelliteDefinition)
    requires off + SatelliteDefinitionSize <= |bs|
    ensures d.Valid()
  {
    Pow256Values();
    SatelliteDefinition(BeAt(bs, off, 2), BeAt(bs, off + 2, 4), bs[off + 6])
  }

  function EncodeSatelliteDefinition(d: SatelliteDefinition): (bs: seq<byte>)
    requires d.Valid()
    ensures |bs| == SatelliteDefinitionSize
  {
    BeBytes(d.satelliteId, 2) + BeBytes(d.nominalLongitude, 4) + [d.satelliteStatus]
  }

  lemma SatelliteDefinitionPlaced(bs: seq<byte>, p: nat, d: SatelliteDefinition)
    requires d.Valid() && Placed(bs, p, EncodeSatelliteDefinition(d))
    ensures p + SatelliteDefinitionSize <= |bs| && SatelliteDefinitionAt(bs, p) == d
  {
    Pow256Values();
    var a := BeBytes(d.satelliteId, 2);
    var b := BeBytes(d.nominalLongitude, 4);
    PlacedParts(bs, p, a + b, [d.satelliteStatus]);
    PlacedParts(bs, p, a, b);
    BeAtPlaced(bs, p, d.satelliteId, 2);
    BeAtPlaced(bs, p + 2, d.nominalLongitude, 4);
  }

  // ---- Orbit coefficients (satellite status record, offset 35) ----

  /** One Chebyshev coefficient set: validity interval and eight
      coefficients (doubles, as bit patterns) per position and velocity
      component. */
  datatype OrbitCoef = OrbitCoef(
    startTime: Cds, endTime: Cds,
    x: seq<nat>, y: seq<nat>, z: seq<nat>,
    vx: seq<nat>, vy: seq<nat>, vz: seq<nat>)
  {
    predicate Valid()
    {
      && startTime.Valid() && endTime.Valid()
      && |x| == 8 && |y| == 8 && |z| == 8 && |vx| == 8 && |vy| == 8 && |vz| == 8
      && FitIn(x, 8) && FitIn(y, 8) && FitIn(z, 8) && FitIn(vx, 8) && FitIn(vy, 8) && FitIn(vz, 8)
    }
  }

  /** The distance between consecutive coefficient sets: two time stamps
      and six arrays of eight doubles. */
  const OrbitCoefSize: nat := 396

  /** Times at 0 and 6, then the six arrays at 12, 76, 140, 204, 268 and
      332. The C code repeats the six array copies eight times over; each
      repetition writes the same values. */
  function OrbitCoefAt(bs: seq<byte>, off: nat): (c: OrbitCoef)
    requires off + OrbitCoefSize <= |bs|
    ensures c.Valid()
  {
    OrbitCoef(CdsAt(bs, off), CdsAt(bs, off + 6),
              BeFields(bs, off + 12, 8, 8), BeFields(bs, off + 76, 8, 8),
              BeFields(bs, off + 140, 8, 8), BeFields(bs, off + 204, 8, 8),
              BeFields(bs, off + 268, 8, 8), BeFields(bs, off + 332, 8, 8))
  }

  /** The coefficient set laid out field after field: its length is the
      stride 12 + 6 * 64 by which the C code advances. */
  function EncodeOrbitCoef(c: OrbitCoef): (bs: seq<byte>)
    requires c.Valid()
    ensures |bs| == OrbitCoefSize
  {
    EncodeCds(c.startTime) + EncodeCds(c.endTime)
    + EncodeFields(c.x, 8) + EncodeFields(c.y, 8) + EncodeFields(c.z, 8)
    + EncodeFields(c.vx, 8) + EncodeFields(c.vy, 8) + EncodeFields(c.vz, 8)
  }

  lemma OrbitCoefPlaced(bs: seq<byte>, p: nat, c: OrbitCoef)
    requires c.Valid() && Placed(bs, p, EncodeOrbitCoef(c))
    ensures p + OrbitCoefSize <= |bs| && OrbitCoefAt(bs, p) == c
  {
    var t0 := EncodeCds(c.startTime);
    var t1 := EncodeCds(c.endTime);
    var ex := EncodeFields(c.x, 8);
    var ey := EncodeFields(c.y, 8);
    var ez := EncodeFields(c.z, 8);
    var evx := EncodeFields(c.vx, 8);
    var evy := EncodeFields(c.vy, 8);
    var evz := EncodeFields(c.vz, 8);
    PlacedParts(bs, p, t0 + t1 + ex + ey + ez + evx + evy, evz);
    PlacedParts(bs, p, t0 + t1 + ex + ey + ez + evx, evy);
    PlacedParts(bs, p, t0 + t1 + ex + ey + ez, evx);
    PlacedParts(bs, p, t0 + t1 + ex + ey, ez);
    PlacedParts(bs, p, t0 + t1 + ex, ey);
    PlacedParts(bs, p, t0 + t1, ex);
    PlacedParts(bs, p, t0, t1);
    CdsPlaced(bs, p, c.startTime);
    CdsPlaced(bs, p + 6, c.endTime);
    FieldsPlaced(bs, p + 12, c.x, 8);
    FieldsPlaced(bs, p + 76, c.y, 8);
    FieldsPlaced(bs, p + 140, c.z, 8);
    FieldsPlaced(bs, p + 204, c.vx, 8);
    FieldsPlaced(bs, p + 268, c.vy, 8);
    FieldsPlaced(bs, p + 332, c.vz, 8);
  }

  /** Number of coefficient sets in the orbit record. */
  const OrbitCoefCount: nat := 100

  /** The n coefficient sets from off, each OrbitCoefSize after the last. */
  function OrbitCoefsAt(bs: seq<byte>, off: nat, n: nat): (cs: seq<OrbitCoef>)
    requires off + OrbitCoefSize * n <= |bs|
    ensures |cs| == n && forall i | 0 <= i < n :: cs[i].Valid()
  {
    seq(n, i requires 0 <= i < n => OrbitCoefAt(bs, off + OrbitCoefSize * i))
  }

  /** The coefficient loop of read_prologue: a cursor that starts at off
      and advances by the stride after each set. */
  method ReadOrbitCoefs(bs: seq<byte>, off: nat) returns (cs: seq<OrbitCoef>)
    requires off + OrbitCoefSize * OrbitCoefCount <= |bs|
    ensures cs == OrbitCoefsAt(bs, off, OrbitCoefCount)
  {
    cs := [];
    var p := off;
    while |cs| < OrbitCoefCount
      invariant |cs| <= OrbitCoefCount && p == off + OrbitCoefSize * |cs|
      invariant forall i | 0 <= i < |cs| :: cs[i] == OrbitCoefAt(bs, off + OrbitCoefSize * i)
    {
      cs := cs + [OrbitCoefAt(bs, p)];
      p := p + OrbitCoefSize;
    }
  }

  datatype Orbit = Orbit(periodStartTime: Cds, periodEndTime: Cds, coefs: seq<OrbitCoef>)
  {
    predicate Valid()
    {
      periodStartTime.Valid() && periodEndTime.Valid() && |coefs| == OrbitCoefCount
      && forall i | 0 <= i < |coefs| :: coefs[i].Valid()
    }
  }

  const OrbitSize: nat := 12 + OrbitCoefSize * OrbitCoefCount

  /** Period start and end at 0 and 6, the coefficient sets from 12. */
  function OrbitAt(bs: seq<byte>, off: nat): (o: Orbit)
    requires off + OrbitSize <= |bs|
    ensures o.Valid()
  {
    Orbit(CdsAt(bs, off), CdsAt(bs, off + 6), OrbitCoefsAt(bs, off + 12, OrbitCoefCount))
  }

  /** The coefficient sets laid out one after the other. */
  function EncodeOrbitCoefs(cs: seq<OrbitCoef>): (bs: seq<byte>)
    requires forall i | 0 <= i < |cs| :: cs[i].Valid()
    ensures |bs| == OrbitCoefSize * |cs|
  {
    var parts := seq(|cs|, i requires 0 <= i < |cs| => EncodeOrbitCoef(cs[i]));
    ConcatLength(parts, OrbitCoefSize);
    Concat(parts)
  }

  function EncodeOrbit(o: Orbit): (bs: seq<byte>)
    requires o.Valid()
    ensures |bs| == OrbitSize
  {
    EncodeCds(o.periodStartTime) + EncodeCds(o.periodEndTime) + EncodeOrbitCoefs(o.coefs)
  }

  lemma OrbitPlaced(bs: seq<byte>, p: nat, o: Orbit)
    requires o.Valid() && Placed(bs, p, EncodeOrbit(o))
    ensures p + OrbitSize <= |bs| && OrbitAt(bs, p) == o
  {
    var t0 := EncodeCds(o.periodStartTime);
    var t1 := EncodeCds(o.periodEndTime);
    PlacedParts(bs, p, t0 + t1, EncodeOrbitCoefs(o.coefs));
    PlacedParts(bs, p, t0, t1);
    CdsPlaced(bs, p, o.periodStartTime);
    CdsPlaced(bs, p + 6, o.periodEndTime);
    OrbitCoefsPlaced(bs, p + 12, o.coefs);
  }

  /** The coefficient sets laid out one after the other are read back at the
      stride. */
  lemma OrbitCoefsPlaced(bs: seq<byte>, p: nat, cs: seq<OrbitCoef>)
    requires forall i | 0 <= i < |cs| :: cs[i].Valid()
    requires Placed(bs, p, EncodeOrbitCoefs(cs))
    ensures p + OrbitCoefSize * |cs| <= |bs| && OrbitCoefsAt(bs, p, |cs|) == cs
  {
    forall i | 0 <= i < |cs|
      ensures OrbitCoefAt(bs, p + OrbitCoefSize * i) == cs[i]
    {
      OrbitCoefPlacedAt(bs, p, cs, i);
    }
  }

  lemma OrbitCoefPlacedAt(bs: seq<byte>, p: nat, cs: seq<OrbitCoef>, i: nat)
    requires forall j | 0 <= j < |cs| :: cs[j].Valid()
    requires Placed(bs, p, EncodeOrbitCoefs(cs)) && i < |cs|
    ensures p + OrbitCoefSize * i + OrbitCoefSize <= |bs|
    ensures OrbitCoefAt(bs, p + OrbitCoefSize * i) == cs[i]
  {
    var parts := seq(|cs|, j requires 0 <= j < |cs| => EncodeOrbitCoef(cs[j]));
    ConcatPlaced(bs, p, parts, OrbitCoefSize, i);
    OrbitCoefPlaced(bs, p + OrbitCoefSize * i, cs[i]);
  }

  // ---- Planned acquisition time (image acquisition record, offset 0) ----

  datatype PlannedAcquisitionTime = PlannedAcquisitionTime(
    trueRepeatCycleStart: Cds, plannedForwardScanEnd: Cds, plannedRepeatCycleEnd: Cds)
  {
    predicate Valid()
    {
      trueRepeatCycleStart.Valid() && plannedForwardScanEnd.Valid() && plannedRepeatCycleEnd.Valid()
    }
  }

  /** Three time stamps 10 bytes apart, of which the first six are read. */
  const PlannedAcquisitionTimeSize: nat := 26

  function PlannedAcquisitionTimeAt(bs: seq<byte>, off: nat): (t: PlannedAcquisitionTime)
    requires off + PlannedAcquisitionTimeSize <= |bs|
    ensures t.Valid()
  {
    PlannedAcquisitionTime(CdsAt(bs, off), CdsAt(bs, off + 10), CdsAt(bs, off + 20))
  }

  /** The three time stamps, each followed by four bytes the decoder skips
      (written as zero). */
  function EncodePlannedAcquisitionTime(t: PlannedAcquisitionTime): (bs: seq<byte>)
    requires t.Valid()
    ensures |bs| == PlannedAcquisitionTimeSize
  {
    var skip: seq<byte> := [0, 0, 0, 0];
    EncodeCds(t.trueRepeatCycleStart) + skip
    + EncodeCds(t.plannedForwardScanEnd) + skip
    + EncodeCds(t.plannedRepeatCycleEnd)
  }

  lemma PlannedAcquisitionTimePlaced(bs: seq<byte>, p: nat, t: PlannedAcquisitionTime)
    requires t.Valid() && Placed(bs, p, EncodePlannedAcquisitionTime(t))
    ensures p + PlannedAcquisitionTimeSize <= |bs| && PlannedAcquisitionTimeAt(bs, p) == t
  {
    var skip: seq<byte> := [0, 0, 0, 0];
    var a := EncodeCds(t.trueRepeatCycleStart);
    var b := EncodeCds(t.plannedForwardScanEnd);
    var c := EncodeCds(t.plannedRepeatCycleEnd);
    PlacedParts(bs, p, a + skip + b + skip, c);
    PlacedParts(bs, p, a + skip + b, skip);
    PlacedParts(bs, p, a + skip, b);
    PlacedParts(bs, p, a, skip);
    CdsPlaced(bs, p, t.trueRepeatCycleStart);
    CdsPlaced(bs, p + 10, t.plannedForwardScanEnd);
    CdsPlaced(bs, p + 20, t.plannedRepeatCycleEnd);
  }

  // ---- Image description record ----

  datatype ReferenceGrid = ReferenceGrid(
    numberOfLines: nat, numberOfColumns: nat,
    lineDirGridStep: nat, columnDirGridStep: nat,   // floats, as bit patterns
    gridOrigin: byte)
  {
    predicate Valid()
    {
      numberOfLines < U32 && numberOfColumns < U32 && lineDirGridStep < U32 && columnDirGridStep < U32
    }
  }

  const ReferenceGridSize: nat := 17

  /** Four BE32 fields at 0, 4, 8 and 12, the origin byte at 16. */
  function ReferenceGridAt(bs: seq<byte>, off: nat): (g: ReferenceGrid)
    requires off + ReferenceGridSize <= |bs|
    ensures g.Valid()
  {
    Pow256Values();
    var f := BeFields(bs, off, 4, 4);
    ReferenceGrid(f[0], f[1], f[2], f[3], bs[off + 16])
  }

  function EncodeReferenceGrid(g: ReferenceGrid): (bs: seq<byte>)
    requires g.Valid()
    ensures |bs| == ReferenceGridSize
  {
    EncodeFields([g.numberOfLines, g.numberOfColumns, g.lineDirGridStep, g.columnDirGridStep], 4)
    + [g.gridOrigin]
  }

  lemma ReferenceGridPlaced(bs: seq<byte>, p: nat, g: ReferenceGrid)
    requires g.Valid() && Placed(bs, p, EncodeReferenceGrid(g))
    ensures p + ReferenceGridSize <= |bs| && ReferenceGridAt(bs, p) == g
  {
    Pow256Values();
    var vs := [g.numberOfLines, g.numberOfColumns, g.lineDirGridStep, g.columnDirGridStep];
    PlacedParts(bs, p, EncodeFields(vs, 4), [g.gridOrigin]);
    FieldsPlaced(bs, p, vs, 4);
  }

  datatype ImageDescription = ImageDescription(
    typeOfProjection: byte,
    longitudeOfSsp: nat,   // float, as its bit pattern
    referenceGridVisIr: ReferenceGrid,
    referenceGridHrv: ReferenceGrid,
    plannedCoverageVisIr: Coverage,
    plannedCoverageHrvLower: Coverage,
    plannedCoverageHrvUpper: Coverage,
    imageProcDirection: byte,
    pixelGenDirection: byte,
    plannedChanProcessing: seq<byte>)
  {
    predicate Valid()
    {
      && longitudeOfSsp < U32
      && referenceGridVisIr.Valid() && referenceGridHrv.Valid()
      && plannedCoverageVisIr.Valid() && plannedCoverageVisIr.channel == ""
      && plannedCoverageHrvLower.Valid() && plannedCoverageHrvLower.channel == ""
      && plannedCoverageHrvUpper.Valid() && plannedCoverageHrvUpper.channel == ""
      && |plannedChanProcessing| == 12
    }
  }

  /** Projection at 0 and 1, grids at 5 and 22, coverages at 39, 55 and 71,
      image production bytes at 87, 88 and 89 .. 100. */
  function ImageDescriptionAt(bs: seq<byte>, off: nat): (d: ImageDescription)
    requires off + HeaderRecLen[4] <= |bs|
    ensures d.Valid()
  {
    Pow256Values();
    ImageDescription(bs[off], BeAt(bs, off + 1, 4),
                     ReferenceGridAt(bs, off + 5), ReferenceGridAt(bs, off + 22),
                     CoverageAt(bs, off + 39), CoverageAt(bs, off + 55), CoverageAt(bs, off + 71),
                     bs[off + 87], bs[off + 88], bs[off + 89..off + 101])
  }

  /** The fields laid out one after the other fill the image description
      record exactly. */
  function EncodeImageDescription(d: ImageDescription): (bs: seq<byte>)
    requires d.Valid()
    ensures |bs| == HeaderRecLen[4]
  {
    ([d.typeOfProjection] + BeBytes(d.longitudeOfSsp, 4))
    + (EncodeReferenceGrid(d.referenceGridVisIr) + EncodeReferenceGrid(d.referenceGridHrv))
    + (EncodeCoverage(d.plannedCoverageVisIr) + EncodeCoverage(d.plannedCoverageHrvLower)
       + EncodeCoverage(d.plannedCoverageHrvUpper))
    + ([d.imageProcDirection, d.pixelGenDirection] + d.plannedChanProcessing)
  }

  lemma ImageDescriptionPlaced(bs: seq<byte>, p: nat, d: ImageDescription)
    requires d.Valid() && Placed(bs, p, EncodeImageDescription(d))
    ensures p + HeaderRecLen[4] <= |bs| && ImageDescriptionAt(bs, p) == d
  {
    var head := [d.typeOfProjection] + BeBytes(d.longitudeOfSsp, 4);
    var grids := EncodeReferenceGrid(d.referenceGridVisIr) + EncodeReferenceGrid(d.referenceGridHrv);
    var covs := EncodeCoverage(d.plannedCoverageVisIr) + EncodeCoverage(d.plannedCoverageHrvLower)
                + EncodeCoverage(d.plannedCoverageHrvUpper);
    var prod := [d.imageProcDirection, d.pixelGenDirection] + d.plannedChanProcessing;
    PlacedParts(bs, p, head + grids + covs, prod);
    PlacedParts(bs, p, head + grids, covs);
    PlacedParts(bs, p, head, grids);
    ProjectionPlaced(bs, p, d.typeOfProjection, d.longitudeOfSsp);
    GridsPlaced(bs, p + 5, d.referenceGridVisIr, d.referenceGridHrv);
    CoveragesPlaced(bs, p + 39, d.plannedCoverageVisIr, d.plannedCoverageHrvLower, d.plannedCoverageHrvUpper);
    ProductionPlaced(bs, p + 87, d.imageProcDirection, d.pixelGenDirection, d.plannedChanProcessing);
  }

  lemma ProjectionPlaced(bs: seq<byte>, p: nat, t: byte, lon: nat)
    requires lon < U32 && Placed(bs, p, [t] + BeBytes(lon, 4))
    ensures p + 5 <= |bs| && bs[p] == t && BeAt(bs, p + 1, 4) == lon
  {
    Pow256Values();
    PlacedParts(bs, p, [t], BeBytes(lon, 4));
    BeAtPlaced(bs, p + 1, lon, 4);
  }

  lemma GridsPlaced(bs: seq<byte>, p: nat, g0: ReferenceGrid, g1: ReferenceGrid)
    requires g0.Valid() && g1.Valid() && Placed(bs, p, EncodeReferenceGrid(g0) + EncodeReferenceGrid(g1))
    ensures p + 2 * ReferenceGridSize <= |bs|
    ensures ReferenceGridAt(bs, p) == g0 && ReferenceGridAt(bs, p + ReferenceGridSize) == g1
  {
    PlacedParts(bs, p, EncodeReferenceGrid(g0), EncodeReferenceGrid(g1));
    ReferenceGridPlaced(bs, p, g0);
    ReferenceGridPlaced(bs, p + ReferenceGridSize, g1);
  }

  lemma ProductionPlaced(bs: seq<byte>, p: nat, d0: byte, d1: byte, chans: seq<byte>)
    requires |chans| == 12 && Placed(bs, p, [d0, d1] + chans)
    ensures p + 14 <= |bs| && bs[p] == d0 && bs[p + 1] == d1 && bs[p + 2..p + 14] == chans
  {
    PlacedParts(bs, p, [d0, d1], chans);
  }

  // ---- L15 image calibration (radiometric processing record, offset 72) ----

  datatype Calibration = Calibration(calSlope: nat, calOffset: nat)   // doubles, as bit patterns
  {
    predicate Valid() { calSlope < U64 && calOffset < U64 }
  }

  /** Number of channels (MSEVI_NCHAN). */
  const ChannelCount: nat := 12

  /** Slope and offset of one channel. */
  const CalibrationSize: nat := 16

  /** Channel i: slope at 16 * i, offset at 16 * i + 8. */
  function CalibrationsAt(bs: seq<byte>, off: nat): (cs: seq<Calibration>)
    requires off + CalibrationSize * ChannelCount <= |bs|
    ensures |cs| == ChannelCount && forall i | 0 <= i < ChannelCount :: cs[i].Valid()
  {
    Pow256Values();
    seq(ChannelCount, i requires 0 <= i < ChannelCount =>
      Calibration(BeAt(bs, off + CalibrationSize * i, 8), BeAt(bs, off + CalibrationSize * i + 8, 8)))
  }

  function EncodeCalibration(c: Calibration): (bs: seq<byte>)
    ensures |bs| == CalibrationSize
  {
    BeBytes(c.calSlope, 8) + BeBytes(c.calOffset, 8)
  }

  function EncodeCalibrations(cs: seq<Calibration>): (bs: seq<byte>)
    ensures |bs| == CalibrationSize * |cs|
  {
    var parts := seq(|cs|, i requires 0 <= i < |cs| => EncodeCalibration(cs[i]));
    ConcatLength(parts, CalibrationSize);
    Concat(parts)
  }

  /** The calibration of channel i reads back from its slot. */
  lemma CalibrationPlaced(bs: seq<byte>, p: nat, cs: seq<Calibration>, i: nat)
    requires |cs| == ChannelCount && forall k | 0 <= k < |cs| :: cs[k].Valid()
    requires Placed(bs, p, EncodeCalibrations(cs)) && i < ChannelCount
    ensures p + CalibrationSize * i + 16 <= |bs|
    ensures BeAt(bs, p + CalibrationSize * i, 8) == cs[i].calSlope
    ensures BeAt(bs, p + CalibrationSize * i + 8, 8) == cs[i].calOffset
  {
    var parts := seq(|cs|, k requires 0 <= k < |cs| => EncodeCalibration(cs[k]));
    var q := p + CalibrationSize * i;
    ConcatPlaced(bs, p, parts, CalibrationSize, i);
    PlacedParts(bs, q, BeBytes(cs[i].calSlope, 8), BeBytes(cs[i].calOffset, 8));
    BeAtPlaced(bs, q, cs[i].calSlope, 8);
    BeAtPlaced(bs, q + 8, cs[i].calOffset, 8);
  }

  lemma CalibrationsPlaced(bs: seq<byte>, p: nat, cs: seq<Calibration>)
    requires |cs| == ChannelCount && forall i | 0 <= i < |cs| :: cs[i].Valid()
    requires Placed(bs, p, EncodeCalibrations(cs))
    ensures p + CalibrationSize * ChannelCount <= |bs| && CalibrationsAt(bs, p) == cs
  {
    CalibrationPlaced(bs, p, cs, ChannelCount - 1);
    forall i | 0 <= i < ChannelCount
      ensures CalibrationsAt(bs, p)[i] == cs[i]
    {
      CalibrationPlaced(bs, p, cs, i);
    }
  }

  // ---- Geometric processing record ----

  datatype GeometricProcessing = GeometricProcessing(
    ewFocalPlane: seq<nat>, nsFocalPlane: seq<nat>,   // floats, as bit patterns
    earthModelType: byte,
    equatorialRadius: nat, northPolarRadius: nat, southPolarRadius: nat)   // doubles
  {
    predicate Valid()
    {
      && |ewFocalPlane| == ChannelCount && |nsFocalPlane| == ChannelCount
      && FitIn(ewFocalPlane, 4) && FitIn(nsFocalPlane, 4)
      && equatorialRadius < U64 && northPolarRadius < U64 && southPolarRadius < U64
    }
  }

  /** Length of each of the two optical axis distance arrays (42 floats), of
      which only the first 12 are read. */
  const FocalPlaneSize: nat := 168

  const GeometricProcessingSize: nat := 361

  /** The first 12 of each 42-entry focal plane array at 0 and 168, the
      earth model type at 336 and its three radii at 337, 345 and 353. */
  function GeometricProcessingAt(bs: seq<byte>, off: nat): (g: GeometricProcessing)
    requires off + GeometricProcessingSize <= |bs|
    ensures g.Valid()
  {
    Pow256Values();
    GeometricProcessing(BeFields(bs, off, 4, ChannelCount), BeFields(bs, off + FocalPlaneSize, 4, ChannelCount),
                        bs[off + 336],
                        BeAt(bs, off + 337, 8), BeAt(bs, off + 345, 8), BeAt(bs, off + 353, 8))
  }

  /** The record laid out with the 30 unread entries of each focal plane
      array written as zero. */
  function EncodeGeometricProcessing(g: GeometricProcessing): (bs: seq<byte>)
    requires g.Valid()
    ensures |bs| == GeometricProcessingSize
  {
    var unread: seq<byte> := seq(FocalPlaneSize - 4 * ChannelCount, _ => 0);
    EncodeFields(g.ewFocalPlane, 4) + unread + EncodeFields(g.nsFocalPlane, 4) + unread
    + [g.earthModelType]
    + BeBytes(g.equatorialRadius, 8) + BeBytes(g.northPolarRadius, 8) + BeBytes(g.southPolarRadius, 8)
  }

  lemma GeometricProcessingPlaced(bs: seq<byte>, p: nat, g: GeometricProcessing)
    requires g.Valid() && Placed(bs, p, EncodeGeometricProcessing(g))
    ensures p + GeometricProcessingSize <= |bs| && GeometricProcessingAt(bs, p) == g
  {
    Pow256Values();
    var unread: seq<byte> := seq(FocalPlaneSize - 4 * ChannelCount, _ => 0);
    var ew := EncodeFields(g.ewFocalPlane, 4);
    var ns := EncodeFields(g.nsFocalPlane, 4);
    var t := [g.earthModelType];
    var r0 := BeBytes(g.equatorialRadius, 8);
    var r1 := BeBytes(g.northPolarRadius, 8);
    var r2 := BeBytes(g.southPolarRadius, 8);
    PlacedParts(bs, p, ew + unread + ns + unread + t + r0 + r1, r2);
    PlacedParts(bs, p, ew + unread + ns + unread + t + r0, r1);
    PlacedParts(bs, p, ew + unread + ns + unread + t, r0);
    PlacedParts(bs, p, ew + unread + ns + unread, t);
    PlacedParts(bs, p, ew + unread + ns, unread);
    PlacedParts(bs, p, ew + unread, ns);
    PlacedParts(bs, p, ew, unread);
    FieldsPlaced(bs, p, g.ewFocalPlane, 4);
    FieldsPlaced(bs, p + FocalPlaneSize, g.nsFocalPlane, 4);
    BeAtPlaced(bs, p + 337, g.equatorialRadius, 8);
    BeAtPlaced(bs, p + 345, g.northPolarRadius, 8);
    BeAtPlaced(bs, p + 353, g.southPolarRadius, 8);
  }

  // ---- The header ----

  datatype Header = Header(
    satelliteDefinition: SatelliteDefinition,
    orbit: Orbit,
    plannedAcquisitionTime: PlannedAcquisitionTime,
    imageDescription: ImageDescription,
    calibration: seq<Calibration>,
    geometricProcessing: GeometricProcessing)
  {
    predicate Valid()
    {
      && satelliteDefinition.Valid() && orbit.Valid() && plannedAcquisitionTime.Valid()
      && imageDescription.Valid() && geometricProcessing.Valid()
      && |calibration| == ChannelCount && forall i | 0 <= i < |calibration| :: calibration[i].Valid()
    }
  }

  /** Where each part is read in the data field: the satellite definition
      at the start of the satellite status record, the orbit 7 + 28 bytes
      into it, the acquisition times at the start of the image acquisition
      record, the image description record, the calibration 72 bytes into
      the radiometric processing record and the geometric processing
      record. */
  const SatelliteDefinitionOff: nat := HeaderRecOff[1]
  const OrbitOff: nat := HeaderRecOff[1] + 7 + 28
  const PlannedAcquisitionTimeOff: nat := HeaderRecOff[2]
  const ImageDescriptionOff: nat := HeaderRecOff[4]
  const CalibrationOff: nat := HeaderRecOff[5] + 72
  const GeometricProcessingOff: nat := HeaderRecOff[6]

  /** The bytes of the data field that the decoder reads: up to the end of
      the geometric processing part. */
  const PrologueReadSize: nat := GeometricProcessingOff + GeometricProcessingSize

  /** Every part lies inside its own header record. */
  lemma PartsInsideRecords()
    ensures HeaderRecOff[1] <= SatelliteDefinitionOff && SatelliteDefinitionOff + SatelliteDefinitionSize <= OrbitOff
    ensures OrbitOff + OrbitSize <= HeaderRecOff[2]
    ensures PlannedAcquisitionTimeOff + PlannedAcquisitionTimeSize <= HeaderRecOff[3]
    ensures ImageDescriptionOff + HeaderRecLen[4] == HeaderRecOff[5]
    ensures HeaderRecOff[5] <= CalibrationOff && CalibrationOff + CalibrationSize * ChannelCount <= HeaderRecOff[6]
    ensures GeometricProcessingOff + GeometricProcessingSize <= HeaderRecOff[7]
  {
  }

  /** The decoding of the data field of a prologue. */
  function HeaderAt(data: seq<byte>): (h: Header)
    requires PrologueReadSize <= |data|
    ensures h.Valid()
  {
    Header(SatelliteDefinitionAt(data, SatelliteDefinitionOff),
           OrbitAt(data, OrbitOff),
           PlannedAcquisitionTimeAt(data, PlannedAcquisitionTimeOff),
           ImageDescriptionAt(data, ImageDescriptionOff),
           CalibrationsAt(data, CalibrationOff),
           GeometricProcessingAt(data, GeometricProcessingOff))
  }

  /** A data field holding the encoding of every part at its offset. */
  predicate LaidOut(data: seq<byte>, h: Header)
    requires h.Valid()
  {
    && Placed(data, SatelliteDefinitionOff, EncodeSatelliteDefinition(h.satelliteDefinition))
    && Placed(data, OrbitOff, EncodeOrbit(h.orbit))
    && Placed(data, PlannedAcquisitionTimeOff, EncodePlannedAcquisitionTime(h.plannedAcquisitionTime))
    && Placed(data, ImageDescriptionOff, EncodeImageDescription(h.imageDescription))
    && Placed(data, CalibrationOff, EncodeCalibrations(h.calibration))
    && Placed(data, GeometricProcessingOff, EncodeGeometricProcessing(h.geometricProcessing))
  }

  /** Decoding a data field in which every part of a header is laid out at
      its offset gives that header back. */
  lemma HeaderOfLaidOut(data: seq<byte>, h: Header)
    requires h.Valid() && LaidOut(data, h)
    ensures PrologueReadSize <= |data| && HeaderAt(data) == h
  {
    SatelliteDefinitionPlaced(data, SatelliteDefinitionOff, h.satelliteDefinition);
    OrbitPlaced(data, OrbitOff, h.orbit);
    PlannedAcquisitionTimePlaced(data, PlannedAcquisitionTimeOff, h.plannedAcquisitionTime);
    ImageDescriptionPlaced(data, ImageDescriptionOff, h.imageDescription);
    CalibrationsPlaced(data, CalibrationOff, h.calibration);
    GeometricProcessingPlaced(data, GeometricProcessingOff, h.geometricProcessing);
  }

  /** The data field of a prologue file is long enough for the decoder,
      which reads without checking. */
  predicate DataLongEnough(file: seq<byte>)
    requires Open(file).Some?
  {
    var xf := Open(file).value;
    xf.ftype == PrologueFileType && ReadData(file, xf).Some? ==> PrologueReadSize <= |ReadData(file, xf).value|
  }

  /** msevi_l15hrit_read_prologue: no header for a file of another type or
      without a data field; otherwise the decoding of the data field. The
      result of xrit_fopen is used without a check, so the file must open. */
  function ReadPrologue(file: seq<byte>): (r: Option<Header>)
    requires Open(file).Some? && DataLongEnough(file)
    ensures r.Some? <==> Open(file).value.ftype == PrologueFileType && ReadData(file, Open(file).value).Some?
    ensures r.Some? ==> r.value.Valid() && r.value == HeaderAt(ReadData(file, Open(file).value).value)
  {
    var xf := Open(file).value;
    if xf.ftype != PrologueFileType then None
    else match ReadData(file, xf)
      case None => None
      case Some(data) => Some(HeaderAt(data))
  }

  /** A prologue file whose data field lays out a header is long enough to
      decode, and reading it gives that header back. */
  lemma ReadPrologueOfLaidOut(file: seq<byte>, h: Header)
    requires Open(file).Some? && Open(file).value.ftype == PrologueFileType
    requires ReadData(file, Open(file).value).Some?
    requires h.Valid() && LaidOut(ReadData(file, Open(file).value).value, h)
    ensures DataLongEnough(file) && ReadPrologue(file) == Some(h)
  {
    HeaderOfLaidOut(ReadData(file, Open(file).value).value, h);
  }
}
