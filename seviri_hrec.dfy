// SEVIRI-specific header records of a Level 1.5 HRIT image segment:
// the segment identification record (type 128) and the segment line
// quality record (type 129), as decoded by msevi_l15_hrit_decode_hrec.

module SeviriHrec {
  import opened Common
  import opened Endian
  import opened CdsTime

  const HrecSegmentIdentification: byte := 128
  const HrecSegmentLineQuality: byte := 129

  /** Bytes of one line entry of the line quality record. */
  const LineEntrySize: nat := 13

  /** Per-line side information of an image line (struct msevi_l15_line_side_info). */
  datatype LineSideInfo = LineSideInfo(
    nrInGrid: int,
    acquisitionTime: Cds,
    validity: byte,
    radiometricQuality: byte,
    geometricQuality: byte)
  {
    predicate Valid() { IsU32(nrInGrid) && acquisitionTime.Valid() }
  }

  /** The all-zero line entry that calloc leaves behind. */
  const ZeroLine := LineSideInfo(0, Cds(0, 0), 0, 0, 0)

  datatype SeviriHrec =
    | SegmentIdentification(
        hrecType: byte, hrecLen: nat,
        satId: byte, channelId: byte,
        segmSeqNr: nat, plannedStartSegmSeqNr: nat, plannedEndSegmSeqNr: nat,
        dataFieldRepresentation: byte)
    | SegmentLineQuality(hrecType: byte, hrecLen: nat, lineSideInfo: seq<LineSideInfo>)
  {
    predicate Valid() {
      IsU16(hrecLen) &&
      match this
      case SegmentIdentification(t, _, _, _, seq0, start, end, _) =>
        t == HrecSegmentIdentification && IsU16(seq0) && IsU16(start) && IsU16(end)
      case SegmentLineQuality(t, len, lines) =>
        t == HrecSegmentLineQuality && |lines| == LineCount(len)
        && forall i :: 0 <= i < |lines| ==> lines[i].Valid()
    }
  }

  /** Number of line entries, `(hrec_len - 3) / 13` in C int arithmetic:
      a record shorter than its 3-byte head has none. */
  function LineCount(hrecLen: nat): (n: nat)
    ensures hrecLen <= 3 ==> n == 0
    ensures hrecLen > 3 ==> 3 + LineEntrySize * n <= hrecLen < 3 + LineEntrySize * (n + 1)
  {
    if hrecLen < 3 then
      assert CDiv(hrecLen - 3, 13) == 0;
      0
    else
      CDiv(hrecLen - 3, 13)
  }

  /** The 13-byte line entry at off: grid line, acquisition day and
      millisecond, and three quality bytes. */
  function LineEntryAt(rec: seq<byte>, off: nat): (e: LineSideInfo)
    requires off + LineEntrySize <= |rec|
    ensures e.Valid()
  {
    LineSideInfo(Be32(rec, off), Cds(Be16(rec, off + 4), Be32(rec, off + 6)),
                 rec[off + 10], rec[off + 11], rec[off + 12])
  }

  /** The n line entries that follow the 3-byte record head. */
  function LineEntries(rec: seq<byte>, n: nat): (lines: seq<LineSideInfo>)
    requires 3 + LineEntrySize * n <= |rec|
    ensures |lines| == n
  {
    seq(n, i requires 0 <= i < n => LineEntryAt(rec, 3 + LineEntrySize * i))
  }

  /** What the decoder needs of the bytes at hrec: the head, and the body
      its type reads. */
  predicate Readable(rec: seq<byte>)
  {
    |rec| >= 3 &&
    (rec[0] == HrecSegmentIdentification ==> |rec| >= 13) &&
    (rec[0] == HrecSegmentLineQuality ==> 3 + LineEntrySize * LineCount(Be16(rec, 1)) <= |rec|)
  }

  /** msevi_l15_hrit_decode_hrec. The two-byte copy into the one-byte
      sat_id keeps byte 3 and spills byte 4 into channel_id, which byte 5
      then overwrites. Other types give NULL. */
  function DecodeSeviriHrec(rec: seq<byte>): (r: Option<SeviriHrec>)
    requires Readable(rec)
    ensures r.Some? <==> rec[0] == HrecSegmentIdentification || rec[0] == HrecSegmentLineQuality
    ensures r.Some? ==> r.value.Valid() && r.value.hrecType == rec[0] && r.value.hrecLen == Be16(rec, 1)
  {
    var len := Be16(rec, 1);
    if rec[0] == HrecSegmentIdentification then
      Some(SegmentIdentification(rec[0], len, rec[3], rec[5],
                                 Be16(rec, 6), Be16(rec, 8), Be16(rec, 10), rec[12]))
    else if rec[0] == HrecSegmentLineQuality then
      Some(SegmentLineQuality(rec[0], len, LineEntries(rec, LineCount(len))))
    else
      None
  }

  /** The segment identification record stores only the first byte of the
      two-byte spacecraft id: the high byte of the big-endian value. */
  lemma SatIdIsHighByte(rec: seq<byte>)
    requires Readable(rec) && rec[0] == HrecSegmentIdentification
    ensures DecodeSeviriHrec(rec).value.satId == Be16(rec, 3) / 256
  {
  }

  /** Byte 4 of a segment identification record (the low byte of the
      spacecraft id) is never part of the decoded record. */
  lemma DecodeIgnoresByte4(rec: seq<byte>, b: byte)
    requires Readable(rec) && rec[0] == HrecSegmentIdentification
    ensures Readable(rec[4 := b]) && DecodeSeviriHrec(rec[4 := b]) == DecodeSeviriHrec(rec)
  {
  }

  /** msevi_l15_hrit_decode_hrec's fill loop: the calloc'ed array of line
      entries, filled one 13-byte slot at a time. */
  method DecodeLineSideInfo(rec: seq<byte>) returns (lines: array<LineSideInfo>)
    requires |rec| >= 3 && 3 + LineEntrySize * LineCount(Be16(rec, 1)) <= |rec|
    ensures lines[..] == LineEntries(rec, LineCount(Be16(rec, 1)))
    ensures fresh(lines)
  {
    var nlin := LineCount(Be16(rec, 1));
    lines := new LineSideInfo[nlin](_ => ZeroLine);
    var entry := 3;
    var i := 0;
    while i < nlin
      invariant 0 <= i <= nlin
      invariant entry == 3 + LineEntrySize * i
      invariant lines[..i] == LineEntries(rec, nlin)[..i]
    {
      lines[i] := LineEntryAt(rec, entry);
      entry := entry + LineEntrySize;
      i := i + 1;
    }
  }

  // ---- Encoding, the partner of the decoder ----

  function EncodeLineEntry(e: LineSideInfo): (bs: seq<byte>)
    requires e.Valid()
    ensures |bs| == LineEntrySize
  {
    BeBytes(e.nrInGrid, 4) + BeBytes(e.acquisitionTime.days, 2) + BeBytes(e.acquisitionTime.msec, 4)
    + [e.validity, e.radiometricQuality, e.geometricQuality]
  }

  function EncodeLineEntries(lines: seq<LineSideInfo>): (bs: seq<byte>)
    requires forall i :: 0 <= i < |lines| ==> lines[i].Valid()
    ensures |bs| == LineEntrySize * |lines|
  {
    if lines == [] then [] else EncodeLineEntry(lines[0]) + EncodeLineEntries(lines[1..])
  }

  function EncodeSeviriHrec(h: SeviriHrec): (bs: seq<byte>)
    requires h.Valid()
    ensures |bs| >= 3 && bs[0] == h.hrecType
    ensures h.SegmentIdentification? ==> |bs| == 13
    ensures h.SegmentLineQuality? ==> |bs| == 3 + LineEntrySize * |h.lineSideInfo|
  {
    var head := [h.hrecType] + BeBytes(h.hrecLen, 2);
    match h
    case SegmentIdentification(_, _, sat, chan, seq0, start, end, rep) =>
      head + [sat, 0, chan] + BeBytes(seq0, 2) + BeBytes(start, 2) + BeBytes(end, 2) + [rep]
    case SegmentLineQuality(_, _, lines) =>
      head + EncodeLineEntries(lines)
  }

  /** A line entry reads back from its own encoding. */
  lemma LineEntryOfEncoding(e: LineSideInfo)
    requires e.Valid()
    ensures LineEntryAt(EncodeLineEntry(e), 0) == e
  {
    var b0 := BeBytes(e.nrInGrid, 4);
    var b1 := BeBytes(e.acquisitionTime.days, 2);
    var b2 := BeBytes(e.acquisitionTime.msec, 4);
    var q := [e.validity, e.radiometricQuality, e.geometricQuality];
    var p1 := b0 + b1;
    var p2 := p1 + b2;
    var enc := p2 + q;
    assert enc[0..4] == b0 by { SliceOfFirst(p2, q, 0, 4); SliceOfFirst(p1, b2, 0, 4); SliceOfFirst(b0, b1, 0, 4); }
    Be32OfBytes(enc, 0, e.nrInGrid);
    assert enc[4..6] == b1 by { SliceOfFirst(p2, q, 4, 6); SliceOfFirst(p1, b2, 4, 6); SliceOfLast(b0, b1); }
    Be16OfBytes(enc, 4, e.acquisitionTime.days);
    assert enc[6..10] == b2 by { SliceOfFirst(p2, q, 6, 10); SliceOfLast(p1, b2); }
    Be32OfBytes(enc, 6, e.acquisitionTime.msec);
  }

  /** A line entry depends on its own 13 bytes only. */
  lemma LineEntryAtSlice(rec: seq<byte>, off: nat)
    requires off + LineEntrySize <= |rec|
    ensures LineEntryAt(rec, off) == LineEntryAt(rec[off..off + LineEntrySize], 0)
  {
  }

  /** Entry i of the encoded entries sits at byte 13 * i. */
  lemma {:induction false} EncodedEntryAt(lines: seq<LineSideInfo>, i: nat)
    requires forall k :: 0 <= k < |lines| ==> lines[k].Valid()
    requires i < |lines|
    ensures EncodeLineEntries(lines)[LineEntrySize * i..LineEntrySize * i + LineEntrySize]
            == EncodeLineEntry(lines[i])
  {
    var first := EncodeLineEntry(lines[0]);
    var rest := EncodeLineEntries(lines[1..]);
    assert EncodeLineEntries(lines) == first + rest;
    if i == 0 {
      SliceOfFirst(first, rest, 0, LineEntrySize);
    } else {
      EncodedEntryAt(lines[1..], i - 1);
      SliceOfSecond(first, rest, LineEntrySize * (i - 1), LineEntrySize * (i - 1) + LineEntrySize);
    }
  }

  /** The three-byte head reads back whatever follows it. */
  lemma HeadReadsBack(t: byte, len: nat, rest: seq<byte>)
    requires IsU16(len)
    ensures Be16([t] + BeBytes(len, 2) + rest, 1) == len
  {
    var head := [t] + BeBytes(len, 2);
    var bs := head + rest;
    assert bs[1..3] == BeBytes(len, 2) by { SliceOfLast([t], BeBytes(len, 2)); SliceOfFirst(head, rest, 1, 3); }
    Be16OfBytes(bs, 1, len);
  }

  /** Decoding an encoded record gives it back. */
  lemma DecodeEncode(h: SeviriHrec)
    requires h.Valid()
    ensures Readable(EncodeSeviriHrec(h)) && DecodeSeviriHrec(EncodeSeviriHrec(h)) == Some(h)
  {
    match h
    case SegmentIdentification(_, _, _, _, _, _, _, _) => DecodeEncodeIdentification(h);
    case SegmentLineQuality(_, _, _) => DecodeEncodeLineQuality(h);
  }

  lemma DecodeEncodeIdentification(h: SeviriHrec)
    requires h.Valid() && h.SegmentIdentification?
    ensures Readable(EncodeSeviriHrec(h)) && DecodeSeviriHrec(EncodeSeviriHrec(h)) == Some(h)
  {
    var head := [h.hrecType] + BeBytes(h.hrecLen, 2);
    var p0 := head + [h.satId, 0, h.channelId];
    var b0 := BeBytes(h.segmSeqNr, 2);
    var b1 := BeBytes(h.plannedStartSegmSeqNr, 2);
    var b2 := BeBytes(h.plannedEndSegmSeqNr, 2);
    var p1 := p0 + b0;
    var p2 := p1 + b1;
    var p3 := p2 + b2;
    var last := [h.dataFieldRepresentation];
    var bs := p3 + last;
    assert bs == EncodeSeviriHrec(h);
    assert bs == head + bs[3..];
    HeadReadsBack(h.hrecType, h.hrecLen, bs[3..]);
    assert bs[6..8] == b0 by {
      SliceOfFirst(p3, last, 6, 8); SliceOfFirst(p2, b2, 6, 8); SliceOfFirst(p1, b1, 6, 8); SliceOfLast(p0, b0);
    }
    Be16OfBytes(bs, 6, h.segmSeqNr);
    assert bs[8..10] == b1 by { SliceOfFirst(p3, last, 8, 10); SliceOfFirst(p2, b2, 8, 10); SliceOfLast(p1, b1); }
    Be16OfBytes(bs, 8, h.plannedStartSegmSeqNr);
    assert bs[10..12] == b2 by { SliceOfFirst(p3, last, 10, 12); SliceOfLast(p2, b2); }
    Be16OfBytes(bs, 10, h.plannedEndSegmSeqNr);
  }

  lemma DecodeEncodeLineQuality(h: SeviriHrec)
    requires h.Valid() && h.SegmentLineQuality?
    ensures Readable(EncodeSeviriHrec(h)) && DecodeSeviriHrec(EncodeSeviriHrec(h)) == Some(h)
  {
    var lines := h.lineSideInfo;
    var head := [h.hrecType] + BeBytes(h.hrecLen, 2);
    var enc := EncodeLineEntries(lines);
    var bs := head + enc;
    assert bs == EncodeSeviriHrec(h);
    HeadReadsBack(h.hrecType, h.hrecLen, enc);
    forall i | 0 <= i < |lines|
      ensures LineEntries(bs, |lines|)[i] == lines[i]
    {
      EncodedLineAt(head, lines, i);
    }
    assert LineEntries(bs, |lines|) == lines;
  }

  /** Entry i of a line quality record built from lines reads back as
      lines[i]. */
  lemma EncodedLineAt(head: seq<byte>, lines: seq<LineSideInfo>, i: nat)
    requires |head| == 3 && i < |lines|
    requires forall k :: 0 <= k < |lines| ==> lines[k].Valid()
    ensures LineEntryAt(head + EncodeLineEntries(lines), 3 + LineEntrySize * i) == lines[i]
  {
    var enc := EncodeLineEntries(lines);
    var bs := head + enc;
    var off := LineEntrySize * i;
    EncodedEntryAt(lines, i);
    SliceOfSecond(head, enc, off, off + LineEntrySize);
    assert bs[3 + off..3 + off + LineEntrySize] == EncodeLineEntry(lines[i]);
    LineEntryAtSlice(bs, 3 + off);
    LineEntryOfEncoding(lines[i]);
  }

  /** Re-encoding a decoded record gives back exactly the bytes the
      decoder read, with byte 4 of a segment identification record zeroed. */
  lemma EncodeDecodeIdentification(rec: seq<byte>)
    requires Readable(rec) && rec[0] == HrecSegmentIdentification
    ensures EncodeSeviriHrec(DecodeSeviriHrec(rec).value) == rec[..13][4 := 0]
  {
    BytesOfBeAt(rec, 1, 2);
    BytesOfBeAt(rec, 6, 2);
    BytesOfBeAt(rec, 8, 2);
    BytesOfBeAt(rec, 10, 2);
    Be16IsBeValue(rec, 1);
    Be16IsBeValue(rec, 6);
    Be16IsBeValue(rec, 8);
    Be16IsBeValue(rec, 10);
    var bs := EncodeSeviriHrec(DecodeSeviriHrec(rec).value);
    assert forall k | 0 <= k < 13 :: bs[k] == rec[..13][4 := 0][k];
  }
}
