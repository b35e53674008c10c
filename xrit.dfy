/** The CGMS LRIT/HRIT container (CGMS 03, "LRIT/HRIT Global Specification",
    section 4): a file is a chain of type-tagged header records followed by
    the data field. The primary header record at offset 0 carries the file
    type, the total header length in bytes and the data length in bits
    (src/cgms_xrit.c). A file is modelled by its contents; opening,
    seeking and closing are not modelled. */
module Xrit {
  import opened Common
  import opened Endian

  /** File types (cgms_xrit.h). */
  const FileTypeImage: int := 0
  const FileTypeGtsMsg: int := 1
  const FileTypeAlphanum: int := 2
  const FileTypeEncryptionKey: int := 3

  /** Header record types (cgms_xrit.h). */
  const HrecPrimary: int := 0
  const HrecImageStructure: int := 1
  const HrecImageNavigation: int := 2
  const HrecImageDataFunction: int := 3
  const HrecAnnotation: int := 4
  const HrecTimeStamp: int := 5
  const HrecAncillaryText: int := 6
  const HrecKeyHeader: int := 7

  /** `struct xrit_file` without the stream: file type, header length in
      bytes, data length in bits. */
  datatype XritFile = XritFile(ftype: int, headerLen: int, dataLen: int)

  /** The 16-byte frame prefix read by xrit_fopen: type byte 3, BE32 header
      length at 4, BE64 data length at 8. */
  function ParsePrefix(buf: seq<byte>): (xf: XritFile)
    requires |buf| >= 16
    ensures 0 <= xf.ftype < 256 && IsU32(xf.headerLen) && 0 <= xf.dataLen < U64
    ensures xf.headerLen == BeAt(buf, 4, 4) && xf.dataLen == BeAt(buf, 8, 8)
  {
    Be32IsBeValue(buf, 4);
    Be64IsBeValue(buf, 8);
    Pow256Values();
    XritFile(buf[3], Be32(buf, 4), Be64(buf, 8))
  }

  /** xrit_fopen as written: `fread` of 16 bytes into a stack buffer whose
      result is tested with `r < 0`, which a count of items read never is.
      A file shorter than 16 bytes is accepted, and the bytes past its end
      are whatever the buffer held before (`junk`). */
  function OpenAsWritten(file: seq<byte>, junk: seq<byte>): (xf: XritFile)
    requires |junk| == 16
    ensures |file| >= 16 ==> xf == ParsePrefix(file[..16])
  {
    var buf := if |file| >= 16 then file[..16] else file + junk[|file|..];
    ParsePrefix(buf)
  }

  /** Two stale buffers that make the same empty file open with different
      header lengths. */
  lemma OpenAsWrittenDependsOnJunk()
    ensures OpenAsWritten([], seq(16, i => 0)).headerLen == 0
    ensures OpenAsWritten([], seq(16, i => if i == 7 then 1 else 0)).headerLen == 1
  {
    var z: seq<byte> := seq(16, i => 0);
    var o: seq<byte> := seq(16, i => if i == 7 then 1 else 0);
    assert [] + z[0..] == z;
    assert [] + o[0..] == o;
    Be32IsBeValue(z, 4);
    Be32IsBeValue(o, 4);
  }

  /** xrit_fopen with the short read detected: a file without a complete
      16-byte prefix is refused. */
  function Open(file: seq<byte>): (r: Option<XritFile>)
    ensures r.None? <==> |file| < 16
    ensures r.Some? ==> r.value.ftype == file[3]
                        && r.value.headerLen == BeAt(file, 4, 4)
                        && r.value.dataLen == BeAt(file, 8, 8)
  {
    if |file| < 16 then None
    else
      assert file[..16][4..8] == file[4..8] && file[..16][8..16] == file[8..16];
      Some(ParsePrefix(file[..16]))
  }

  /** Wherever the corrected open succeeds, it agrees with the code as
      written, whatever the stale buffer held. */
  lemma OpenAgreesWithAsWritten(file: seq<byte>, junk: seq<byte>)
    requires |junk| == 16 && Open(file).Some?
    ensures Open(file).value == OpenAsWritten(file, junk)
  {
  }

  /** xrit_read_header: header_len bytes from offset 0. `fread` of one item
      of size 0 reports no item read, so an empty header is a failure, as is
      a file shorter than the header. */
  function ReadHeader(file: seq<byte>, xf: XritFile): (r: Option<seq<byte>>)
    requires xf.headerLen >= 0
    ensures r.Some? <==> 0 < xf.headerLen <= |file|
    ensures r.Some? ==> r.value == file[..xf.headerLen] && |r.value| == xf.headerLen
  {
    if xf.headerLen == 0 || |file| < xf.headerLen then None
    else Some(file[..xf.headerLen])
  }

  /** The data field size in bytes: the bit count rounded up, computed in
      64-bit `size_t` arithmetic. */
  function DataBytes(dataLen: int): (n: int)
    requires 0 <= dataLen < U64
    ensures n >= 0
  {
    Wrap64(dataLen + 7) / 8
  }

  /** For every bit count that does not wrap, the data size is the least
      number of bytes holding that many bits. */
  lemma DataBytesIsCeiling(dataLen: int)
    requires 0 <= dataLen < U64 - 7
    ensures DataBytes(dataLen) * 8 >= dataLen
    ensures DataBytes(dataLen) * 8 < dataLen + 8
  {
  }

  /** xrit_read_data: DataBytes(data_len) bytes starting at header_len;
      like the header, an empty read is reported as a failure. */
  function ReadData(file: seq<byte>, xf: XritFile): (r: Option<seq<byte>>)
    requires xf.headerLen >= 0 && 0 <= xf.dataLen < U64
    ensures r.Some? <==> 0 < DataBytes(xf.dataLen) && xf.headerLen + DataBytes(xf.dataLen) <= |file|
    ensures r.Some? ==> |r.value| == DataBytes(xf.dataLen)
                        && forall i :: 0 <= i < |r.value| ==> r.value[i] == file[xf.headerLen + i]
  {
    var n := DataBytes(xf.dataLen);
    if n == 0 || |file| < xf.headerLen + n then None
    else Some(file[xf.headerLen..xf.headerLen + n])
  }

  /** The outcome of the record scan of xrit_find_hrec. */
  datatype Scan =
    | Found(offset: nat)   // the record at offset has the requested type
    | NotFound             // the cursor passed the end without a match
    | Loops                // a zero record length before the end: the C loop never ends
    | ReadsPastEnd         // a type or length byte lies beyond the buffer

  /** The record length field of the record at cur. */
  function RecLen(hdr: seq<byte>, cur: nat): nat
    requires cur + 3 <= |hdr|
  {
    Be16(hdr, cur + 1)
  }

  /** The scan of xrit_find_hrec from cursor cur: the record at cur is always
      examined (a do-while loop); a match stops the scan; otherwise the cursor
      moves on by the record length and the scan goes on while it is below
      len. */
  function ScanFrom(hdr: seq<byte>, len: nat, t: int, cur: nat): Scan
    decreases len - cur
  {
    if cur + 3 > |hdr| then ReadsPastEnd
    else if hdr[cur] == t then Found(cur)
    else if cur + RecLen(hdr, cur) >= len then NotFound
    else if RecLen(hdr, cur) == 0 then Loops
    else ScanFrom(hdr, len, t, cur + RecLen(hdr, cur))
  }

  /** A record the scan finds lies in the buffer, at or after the cursor,
      and has the requested type. */
  lemma {:induction false} ScanFoundHasType(hdr: seq<byte>, len: nat, t: int, cur: nat)
    requires ScanFrom(hdr, len, t, cur).Found?
    ensures var o := ScanFrom(hdr, len, t, cur).offset;
            cur <= o && o + 3 <= |hdr| && hdr[o] == t
    decreases len - cur
  {
    if hdr[cur] != t {
      ScanFoundHasType(hdr, len, t, cur + RecLen(hdr, cur));
    }
  }

  /** offs is a walk of the record chain from cur: each offset is the
      previous one plus the previous record's length, and each step lands
      below len. */
  predicate Walk(hdr: seq<byte>, len: nat, cur: nat, offs: seq<nat>)
    decreases |offs|
  {
    && |offs| >= 1 && offs[0] == cur && cur + 3 <= |hdr|
    && (|offs| > 1 ==>
          offs[1] == cur + RecLen(hdr, cur) && offs[1] < len && Walk(hdr, len, offs[1], offs[1..]))
  }

  /** None of the records at the given offsets has type t. */
  predicate NoneOfType(hdr: seq<byte>, t: int, offs: seq<nat>)
  {
    forall i :: 0 <= i < |offs| ==> offs[i] < |hdr| && hdr[offs[i]] != t
  }

  /** A found record ends a walk on which it is the first record of type t. */
  lemma {:induction false} ScanFoundWalk(hdr: seq<byte>, len: nat, t: int, cur: nat, o: nat)
    requires ScanFrom(hdr, len, t, cur) == Found(o)
    ensures exists offs :: Walk(hdr, len, cur, offs) && offs[|offs| - 1] == o
                           && o < |hdr| && hdr[o] == t && NoneOfType(hdr, t, offs[..|offs| - 1])
    decreases len - cur
  {
    if hdr[cur] == t {
      assert Walk(hdr, len, cur, [cur]) && [cur][..0] == [];
    } else {
      var next := cur + RecLen(hdr, cur);
      ScanFoundWalk(hdr, len, t, next, o);
      var offs :| Walk(hdr, len, next, offs) && offs[|offs| - 1] == o
                  && o < |hdr| && hdr[o] == t && NoneOfType(hdr, t, offs[..|offs| - 1]);
      var offs' := [cur] + offs;
      assert offs'[1..] == offs;
      assert offs'[..|offs'| - 1] == [cur] + offs[..|offs| - 1];
      assert Walk(hdr, len, cur, offs');
    }
  }

  /** Conversely, the first record of type t on a walk is what the scan finds. */
  lemma {:induction false} WalkScanFound(hdr: seq<byte>, len: nat, t: int, cur: nat, offs: seq<nat>)
    requires Walk(hdr, len, cur, offs)
    requires offs[|offs| - 1] < |hdr| && hdr[offs[|offs| - 1]] == t
    requires NoneOfType(hdr, t, offs[..|offs| - 1])
    ensures ScanFrom(hdr, len, t, cur) == Found(offs[|offs| - 1])
    decreases |offs|
  {
    if |offs| > 1 {
      assert hdr[offs[0]] != t;
      var rest := offs[1..];
      assert rest[..|rest| - 1] == offs[..|offs| - 1][1..];
      WalkScanFound(hdr, len, t, offs[1], rest);
    }
  }

  /** No match is reported only after a walk on which no record has type t
      and whose last record ends at or beyond len. */
  lemma {:induction false} ScanNotFoundWalk(hdr: seq<byte>, len: nat, t: int, cur: nat)
    requires ScanFrom(hdr, len, t, cur) == NotFound
    ensures exists offs :: Walk(hdr, len, cur, offs) && NoneOfType(hdr, t, offs)
                           && offs[|offs| - 1] + 3 <= |hdr|
                           && offs[|offs| - 1] + RecLen(hdr, offs[|offs| - 1]) >= len
    decreases len - cur
  {
    if cur + RecLen(hdr, cur) >= len {
      assert Walk(hdr, len, cur, [cur]);
    } else {
      var next := cur + RecLen(hdr, cur);
      ScanNotFoundWalk(hdr, len, t, next);
      var offs :| Walk(hdr, len, next, offs) && NoneOfType(hdr, t, offs)
                  && offs[|offs| - 1] + 3 <= |hdr|
                  && offs[|offs| - 1] + RecLen(hdr, offs[|offs| - 1]) >= len;
      var offs' := [cur] + offs;
      assert offs'[1..] == offs;
      assert Walk(hdr, len, cur, offs');
      assert offs'[|offs'| - 1] == offs[|offs| - 1];
    }
  }

  /** xrit_find_hrec: the cursor loop over the record chain of a header of
      len bytes. The C code is defined only when the scan neither loops nor
      reads beyond the buffer. */
  method FindHrec(hdr: seq<byte>, len: nat, t: int) returns (r: Option<nat>)
    requires ScanFrom(hdr, len, t, 0).Found? || ScanFrom(hdr, len, t, 0).NotFound?
    ensures ScanFrom(hdr, len, t, 0).Found? ==> r == Some(ScanFrom(hdr, len, t, 0).offset)
    ensures ScanFrom(hdr, len, t, 0).NotFound? ==> r.None?
    ensures r.Some? ==> r.value + 3 <= |hdr| && hdr[r.value] == t
  {
    var cur: nat := 0;
    var curType: int;
    var curLen: nat;
    while true
      invariant cur == 0 || cur < len
      invariant ScanFrom(hdr, len, t, cur) == ScanFrom(hdr, len, t, 0)
      decreases len - cur
    {
      curType := hdr[cur];
      curLen := Be16(hdr, cur + 1);
      if curType == t {
        break;
      }
      cur := cur + curLen;
      if !(cur < len) {
        break;
      }
    }
    if curType == t {
      r := Some(cur);
    } else {
      r := None;
    }
  }

  /** The header records decoded by xrit_decode_hrec (cgms_xrit.h); every
      variant keeps the type byte and the BE16 record length. */
  datatype Hrec =
    | Primary(hrecType: int, hrecLen: int, fileType: int, headerLen: int, dataLen: int)
    | ImageStructure(hrecType: int, hrecLen: int, bpp: int, ncol: int, nlin: int, compression: int)
    | ImageNavigation(hrecType: int, hrecLen: int, projection: seq<byte>,
                      cfac: int, lfac: int, coff: int, loff: int)
  {
    /** Every field fits its C type and the type byte names the variant. */
    predicate Valid()
    {
      && 0 <= hrecType < 256 && IsU16(hrecLen)
      && match this
         case Primary(_, _, ft, hl, dl) =>
           hrecType == HrecPrimary && 0 <= ft < 256 && IsU32(hl) && 0 <= dl < U64
         case ImageStructure(_, _, bpp, ncol, nlin, comp) =>
           hrecType == HrecImageStructure && 0 <= bpp < 256 && IsU16(ncol) && IsU16(nlin) && 0 <= comp < 256
         case ImageNavigation(_, _, proj, cfac, lfac, coff, loff) =>
           hrecType == HrecImageNavigation && |proj| == 32
           && IsU32(cfac) && IsU32(lfac) && IsU32(coff) && IsU32(loff)
    }
  }

  /** Bytes the decoder reads for a record of type t (16, 9 or 51 for the
      three known types, only the type and length otherwise). */
  function DecodedSize(t: int): nat
  {
    if t == HrecPrimary then 16
    else if t == HrecImageStructure then 9
    else if t == HrecImageNavigation then 51
    else 3
  }

  /** xrit_decode_hrec: fixed-offset decoding of record types 0, 1 and 2;
      any other type gives no record. */
  function DecodeHrec(rec: seq<byte>): (r: Option<Hrec>)
    requires |rec| >= 3 && |rec| >= DecodedSize(rec[0])
    ensures r.Some? <==> rec[0] in {HrecPrimary, HrecImageStructure, HrecImageNavigation}
    ensures r.Some? ==> r.value.Valid() && r.value.hrecType == rec[0] && r.value.hrecLen == BeAt(rec, 1, 2)
  {
    Be16IsBeValue(rec, 1);
    var t := rec[0];
    var len := Be16(rec, 1);
    if t == HrecPrimary then
      Some(Primary(t, len, rec[3], Be32(rec, 4), Be64(rec, 8)))
    else if t == HrecImageStructure then
      Some(ImageStructure(t, len, rec[3], Be16(rec, 4), Be16(rec, 6), rec[8]))
    else if t == HrecImageNavigation then
      Some(ImageNavigation(t, len, rec[3..35], Be32(rec, 35), Be32(rec, 39), Be32(rec, 43), Be32(rec, 47)))
    else
      None
  }

  /** The record layout written out byte by byte: the inverse of DecodeHrec. */
  function EncodeHrec(h: Hrec): (bs: seq<byte>)
    requires h.Valid()
    ensures |bs| == DecodedSize(h.hrecType)
  {
    var head := [h.hrecType as byte] + BeBytes(h.hrecLen, 2);
    match h
    case Primary(_, _, ft, hl, dl) =>
      head + [ft as byte] + BeBytes(hl, 4) + BeBytes(dl, 8)
    case ImageStructure(_, _, bpp, ncol, nlin, comp) =>
      head + [bpp as byte] + BeBytes(ncol, 2) + BeBytes(nlin, 2) + [comp as byte]
    case ImageNavigation(_, _, proj, cfac, lfac, coff, loff) =>
      head + proj + BeBytes(cfac, 4) + BeBytes(lfac, 4) + BeBytes(coff, 4) + BeBytes(loff, 4)
  }

  /** Decoding an encoded record gives the record back. */
  lemma DecodeEncode(h: Hrec)
    requires h.Valid()
    ensures |EncodeHrec(h)| >= 3 && EncodeHrec(h)[0] == h.hrecType
    ensures DecodeHrec(EncodeHrec(h)) == Some(h)
  {
    var bs := EncodeHrec(h);
    var head := [h.hrecType as byte] + BeBytes(h.hrecLen, 2);
    Pow256Values();
    BeAtOfBytes([h.hrecType as byte], h.hrecLen, 2, bs[3..]);
    assert bs == [h.hrecType as byte] + BeBytes(h.hrecLen, 2) + bs[3..];
    Be16IsBeValue(bs, 1);
    match h
    case Primary(_, _, ft, hl, dl) =>
      DecodeEncodePrimary(head, ft, hl, dl);
    case ImageStructure(_, _, bpp, ncol, nlin, comp) =>
      DecodeEncodeStructure(head, bpp, ncol, nlin, comp);
    case ImageNavigation(_, _, proj, cfac, lfac, coff, loff) =>
      DecodeEncodeNavigation(head, proj, cfac, lfac, coff, loff);
  }

  lemma DecodeEncodePrimary(head: seq<byte>, ft: byte, hl: nat, dl: nat)
    requires |head| == 3 && hl < U32 && dl < U64
    ensures var bs := head + [ft] + BeBytes(hl, 4) + BeBytes(dl, 8);
            bs[3] == ft && Be32(bs, 4) == hl && Be64(bs, 8) == dl
  {
    Pow256Values();
    var bs := head + [ft] + BeBytes(hl, 4) + BeBytes(dl, 8);
    BeAtOfBytes(head + [ft], hl, 4, BeBytes(dl, 8));
    BeAtOfBytes(head + [ft] + BeBytes(hl, 4), dl, 8, []);
    assert bs == head + [ft] + BeBytes(hl, 4) + BeBytes(dl, 8) + [];
    Be32IsBeValue(bs, 4);
    Be64IsBeValue(bs, 8);
  }

  lemma DecodeEncodeStructure(head: seq<byte>, bpp: byte, ncol: nat, nlin: nat, comp: byte)
    requires |head| == 3 && ncol < U16 && nlin < U16
    ensures var bs := head + [bpp] + BeBytes(ncol, 2) + BeBytes(nlin, 2) + [comp];
            bs[3] == bpp && Be16(bs, 4) == ncol && Be16(bs, 6) == nlin && bs[8] == comp
  {
    Pow256Values();
    var bs := head + [bpp] + BeBytes(ncol, 2) + BeBytes(nlin, 2) + [comp];
    BeAtOfBytes(head + [bpp], ncol, 2, BeBytes(nlin, 2) + [comp]);
    BeAtOfBytes(head + [bpp] + BeBytes(ncol, 2), nlin, 2, [comp]);
    assert bs == head + [bpp] + BeBytes(ncol, 2) + (BeBytes(nlin, 2) + [comp]);
    Be16IsBeValue(bs, 4);
    Be16IsBeValue(bs, 6);
  }

  lemma DecodeEncodeNavigation(head: seq<byte>, proj: seq<byte>, cfac: nat, lfac: nat, coff: nat, loff: nat)
    requires |head| == 3 && |proj| == 32 && cfac < U32 && lfac < U32 && coff < U32 && loff < U32
    ensures var bs := head + proj + BeBytes(cfac, 4) + BeBytes(lfac, 4) + BeBytes(coff, 4) + BeBytes(loff, 4);
            bs[3..35] == proj && Be32(bs, 35) == cfac && Be32(bs, 39) == lfac
            && Be32(bs, 43) == coff && Be32(bs, 47) == loff
  {
    var b0 := BeBytes(cfac, 4);
    var b1 := BeBytes(lfac, 4);
    var b2 := BeBytes(coff, 4);
    var b3 := BeBytes(loff, 4);
    var p1 := head + proj;
    var p2 := p1 + b0;
    var p3 := p2 + b1;
    var p4 := p3 + b2;
    var bs := p4 + b3;
    assert |p4| == 47 && |p3| == 43 && |p2| == 39 && |p1| == 35;
    assert bs[47..51] == b3 by { SliceOfLast(p4, b3); }
    Be32OfBytes(bs, 47, loff);
    assert bs[43..47] == b2 by { SliceOfFirst(p4, b3, 43, 47); SliceOfLast(p3, b2); }
    Be32OfBytes(bs, 43, coff);
    assert bs[39..43] == b1 by {
      SliceOfFirst(p4, b3, 39, 43); SliceOfFirst(p3, b2, 39, 43); SliceOfLast(p2, b1);
    }
    Be32OfBytes(bs, 39, lfac);
    assert bs[35..39] == b0 by {
      SliceOfFirst(p4, b3, 35, 39); SliceOfFirst(p3, b2, 35, 39); SliceOfFirst(p2, b1, 35, 39);
      SliceOfLast(p1, b0);
    }
    Be32OfBytes(bs, 35, cfac);
    assert bs[3..35] == proj by {
      SliceOfFirst(p4, b3, 3, 35); SliceOfFirst(p3, b2, 3, 35); SliceOfFirst(p2, b1, 3, 35);
      SliceOfFirst(p1, b0, 3, 35); SliceOfLast(head, proj);
    }
  }

  /** The decoder reads exactly the bytes of the fixed layout: encoding the
      decoded record gives them back. */
  lemma EncodeDecode(rec: seq<byte>)
    requires |rec| >= 3 && |rec| >= DecodedSize(rec[0]) && DecodeHrec(rec).Some?
    ensures EncodeHrec(DecodeHrec(rec).value) == rec[..DecodedSize(rec[0])]
  {
    Be16IsBeValue(rec, 1);
    BytesOfBeAt(rec, 1, 2);
    if rec[0] == HrecPrimary {
      EncodeDecodePrimary(rec);
    } else if rec[0] == HrecImageStructure {
      EncodeDecodeStructure(rec);
    } else {
      EncodeDecodeNavigation(rec);
    }
  }

  lemma EncodeDecodePrimary(rec: seq<byte>)
    requires |rec| >= 16 && rec[0] == HrecPrimary
    ensures EncodeHrec(DecodeHrec(rec).value) == rec[..16]
  {
    Be16IsBeValue(rec, 1);
    BytesOfBeAt(rec, 1, 2);
    Be32IsBeValue(rec, 4);
    BytesOfBeAt(rec, 4, 4);
    Be64IsBeValue(rec, 8);
    BytesOfBeAt(rec, 8, 8);
    assert rec[..16] == [rec[0]] + rec[1..3] + [rec[3]] + rec[4..8] + rec[8..16];
  }

  lemma EncodeDecodeStructure(rec: seq<byte>)
    requires |rec| >= 9 && rec[0] == HrecImageStructure
    ensures EncodeHrec(DecodeHrec(rec).value) == rec[..9]
  {
    Be16IsBeValue(rec, 1);
    BytesOfBeAt(rec, 1, 2);
    Be16IsBeValue(rec, 4);
    BytesOfBeAt(rec, 4, 2);
    Be16IsBeValue(rec, 6);
    BytesOfBeAt(rec, 6, 2);
    assert rec[..9] == [rec[0]] + rec[1..3] + [rec[3]] + rec[4..6] + rec[6..8] + [rec[8]];
  }

  lemma EncodeDecodeNavigation(rec: seq<byte>)
    requires |rec| >= 51 && rec[0] == HrecImageNavigation
    ensures EncodeHrec(DecodeHrec(rec).value) == rec[..51]
  {
    Be16IsBeValue(rec, 1);
    BytesOfBeAt(rec, 1, 2);
    Be32IsBeValue(rec, 35);
    BytesOfBeAt(rec, 35, 4);
    Be32IsBeValue(rec, 39);
    BytesOfBeAt(rec, 39, 4);
    Be32IsBeValue(rec, 43);
    BytesOfBeAt(rec, 43, 4);
    Be32IsBeValue(rec, 47);
    BytesOfBeAt(rec, 47, 4);
    assert rec[..51] == [rec[0]] + rec[1..3] + rec[3..35] + rec[35..39] + rec[39..43] + rec[43..47] + rec[47..51];
  }

  /** The primary record at the start of a header repeats the frame prefix
      that xrit_fopen parses. */
  lemma PrimaryRepeatsPrefix(file: seq<byte>)
    requires |file| >= 16 && file[0] == HrecPrimary
    ensures DecodeHrec(file).Some?
    ensures var p := DecodeHrec(file).value;
            var xf := Open(file).value;
            p.fileType == xf.ftype && p.headerLen == xf.headerLen && p.dataLen == xf.dataLen
  {
    Be32IsBeValue(file, 4);
    Be64IsBeValue(file, 8);
  }
}
