/** Record layout of the SEVIRI Level 1.5 prologue and epilogue data
    fields (msevi_l15hrit.c): the tables of record lengths and offsets, and
    the fixed-width big-endian pieces the record decoders are made of.

    Every decoder reads "at" an offset, as the C code reads at `rec_ptr +
    k`; every piece has an encoder that lays the piece out as consecutive
    bytes, and a round-trip lemma says that a decoder applied where an
    encoding has been placed gives the value back. The length of an
    encoding is thus the distance the C code advances between pieces. */
module L15Layout {
  import opened Common
  import opened Endian
  import opened CdsTime
  import opened Coverages

  /** header_rec_len: version, satellite status, image acquisition,
      celestial events, image description, radiometric processing,
      geometric processing, IMPF configuration. */
  const HeaderRecLen: seq<nat> := [0, 60134, 700, 326058, 101, 20815, 17653, 19786]

  /** header_rec_off: where each of those records starts, then the end. */
  const HeaderRecOff: seq<nat> := [0, 0, 60134, 60834, 386892, 386993, 407808, 425461, 445247]

  /** trailer_rec_len: version, image production statistics, navigation
      extraction, radiometric quality, geometric quality, timeliness and
      completeness; the seventh entry is not initialised and is 0. */
  const TrailerRecLen: seq<nat> := [1, 340, 5680, 371256, 2916, 132, 0]

  /** trailer_rec_off as written; the eighth entry is not initialised. */
  const TrailerRecOffAsWritten: seq<nat> := [0, 1, 341, 6021, 377277, 380193, 390325, 0]

  /** trailer_rec_off with the end entry that the lengths give. */
  const TrailerRecOff: seq<nat> := [0, 1, 341, 6021, 377277, 380193, 380325, 0]

  /** Where record k starts when the records follow each other without gaps:
      the sum of the first k lengths. */
  function Start(lens: seq<nat>, k: nat): nat
    requires k <= |lens|
  {
    if k == 0 then 0 else Start(lens, k - 1) + lens[k - 1]
  }

  /** Every header offset is the sum of the lengths before it, so each
      record ends where the next one starts. */
  lemma HeaderOffsetsAreSums()
    ensures forall k | 0 <= k < |HeaderRecOff| :: HeaderRecOff[k] == Start(HeaderRecLen, k)
    ensures forall k | 0 <= k < |HeaderRecLen| :: HeaderRecOff[k + 1] == HeaderRecOff[k] + HeaderRecLen[k]
  {
    assert Start(HeaderRecLen, 8) == 445247 by {
      assert Start(HeaderRecLen, 1) == 0;
      assert Start(HeaderRecLen, 2) == 60134;
      assert Start(HeaderRecLen, 3) == 60834;
      assert Start(HeaderRecLen, 4) == 386892;
      assert Start(HeaderRecLen, 5) == 386993;
      assert Start(HeaderRecLen, 6) == 407808;
      assert Start(HeaderRecLen, 7) == 425461;
    }
  }

  /** The trailer offsets as written follow the lengths up to the start of
      the timeliness record, but the end entry is 10000 past the end of
      that record. */
  lemma TrailerEndAsWrittenIsNotTheSum()
    ensures forall k | 0 <= k < 5 :: TrailerRecOffAsWritten[k + 1] == TrailerRecOffAsWritten[k] + TrailerRecLen[k]
    ensures TrailerRecOffAsWritten[6] != TrailerRecOffAsWritten[5] + TrailerRecLen[5]
    ensures TrailerRecOffAsWritten[6] == Start(TrailerRecLen, 6) + 10000
  {
    assert Start(TrailerRecLen, 6) == 380325 by {
      assert Start(TrailerRecLen, 1) == 1;
      assert Start(TrailerRecLen, 2) == 341;
      assert Start(TrailerRecLen, 3) == 6021;
      assert Start(TrailerRecLen, 4) == 377277;
      assert Start(TrailerRecLen, 5) == 380193;
    }
  }

  /** With the corrected end entry every trailer offset up to the end is the
      sum of the lengths before it. */
  lemma TrailerOffsetsAreSums()
    ensures forall k | 0 <= k <= 6 :: TrailerRecOff[k] == Start(TrailerRecLen, k)
    ensures forall k | 0 <= k < 6 :: TrailerRecOff[k + 1] == TrailerRecOff[k] + TrailerRecLen[k]
  {
    assert Start(TrailerRecLen, 6) == 380325 by {
      assert Start(TrailerRecLen, 1) == 1;
      assert Start(TrailerRecLen, 2) == 341;
      assert Start(TrailerRecLen, 3) == 6021;
      assert Start(TrailerRecLen, 4) == 377277;
      assert Start(TrailerRecLen, 5) == 380193;
    }
  }

  // ---- Placed encodings ----

  /** The bytes enc occur in bs starting at p. */
  predicate Placed(bs: seq<byte>, p: nat, enc: seq<byte>)
  {
    p + |enc| <= |bs| && bs[p..p + |enc|] == enc
  }

  /** A concatenation placed at p places its two parts one after the other. */
  lemma PlacedParts(bs: seq<byte>, p: nat, a: seq<byte>, b: seq<byte>)
    requires Placed(bs, p, a + b)
    ensures Placed(bs, p, a) && Placed(bs, p + |a|, b)
  {
    assert bs[p..p + |a|] == (a + b)[..|a|];
    assert bs[p + |a|..p + |a| + |b|] == (a + b)[|a|..];
  }

  /** The concatenation of parts. */
  function Concat(parts: seq<seq<byte>>): (bs: seq<byte>)
  {
    if |parts| == 0 then [] else parts[0] + Concat(parts[1..])
  }

  /** Parts of equal length k: part i starts k * i bytes into the concatenation. */
  lemma {:induction false} ConcatPlaced(bs: seq<byte>, p: nat, parts: seq<seq<byte>>, k: nat, i: nat)
    requires forall j | 0 <= j < |parts| :: |parts[j]| == k
    requires Placed(bs, p, Concat(parts)) && i < |parts|
    ensures |Concat(parts)| == k * |parts|
    ensures Placed(bs, p + k * i, parts[i])
    decreases i
  {
    ConcatLength(parts, k);
    assert Concat(parts) == parts[0] + Concat(parts[1..]);
    PlacedParts(bs, p, parts[0], Concat(parts[1..]));
    if i > 0 {
      ConcatPlaced(bs, p + k, parts[1..], k, i - 1);
      assert p + k + k * (i - 1) == p + k * i;
    }
  }

  lemma {:induction false} ConcatLength(parts: seq<seq<byte>>, k: nat)
    requires forall j | 0 <= j < |parts| :: |parts[j]| == k
    ensures |Concat(parts)| == k * |parts|
  {
    if |parts| > 0 {
      ConcatLength(parts[1..], k);
      assert k * |parts| == k + k * (|parts| - 1);
    }
  }

  /** A w-byte big-endian field placed at p reads back as its value. */
  lemma BeAtPlaced(bs: seq<byte>, p: nat, v: nat, w: nat)
    requires v < Pow256(w) && Placed(bs, p, BeBytes(v, w))
    ensures BeAt(bs, p, w) == v
  {
    BeValueOfBytes(v, w);
  }

  // ---- Arrays of big-endian fields ----

  /** memcpy_beNNtoh of n elements of w bytes from byte off: element i is
      the field at off + w * i. */
  function BeFields(bs: seq<byte>, off: nat, w: nat, n: nat): (vs: seq<nat>)
    requires off + w * n <= |bs|
    ensures |vs| == n && forall i | 0 <= i < n :: vs[i] < Pow256(w)
  {
    seq(n, i requires 0 <= i < n => BeAt(bs, off + w * i, w))
  }

  /** Every element fits in w bytes. */
  predicate FitIn(vs: seq<nat>, w: nat)
  {
    forall i | 0 <= i < |vs| :: vs[i] < Pow256(w)
  }

  /** The elements written one after the other, w bytes each, most
      significant byte first. */
  function EncodeFields(vs: seq<nat>, w: nat): (bs: seq<byte>)
    ensures |bs| == w * |vs|
  {
    var parts := seq(|vs|, i requires 0 <= i < |vs| => BeBytes(vs[i], w));
    ConcatLength(parts, w);
    Concat(parts)
  }

  /** The field array decoder reads back the elements that were encoded. */
  lemma FieldsPlaced(bs: seq<byte>, p: nat, vs: seq<nat>, w: nat)
    requires FitIn(vs, w) && Placed(bs, p, EncodeFields(vs, w))
    ensures p + w * |vs| <= |bs|
    ensures BeFields(bs, p, w, |vs|) == vs
  {
    var parts := seq(|vs|, i requires 0 <= i < |vs| => BeBytes(vs[i], w));
    forall i | 0 <= i < |vs|
      ensures BeAt(bs, p + w * i, w) == vs[i]
    {
      ConcatPlaced(bs, p, parts, w, i);
      BeAtPlaced(bs, p + w * i, vs[i], w);
    }
  }

  // ---- Time stamps and coverages ----

  /** A CDS time stamp: BE16 days, then BE32 milliseconds. */
  const CdsSize: nat := 6

  function CdsAt(bs: seq<byte>, off: nat): (t: Cds)
    requires off + CdsSize <= |bs|
    ensures t.Valid()
  {
    Pow256Values();
    Cds(BeAt(bs, off, 2), BeAt(bs, off + 2, 4))
  }

  function EncodeCds(t: Cds): (bs: seq<byte>)
    requires t.Valid()
    ensures |bs| == CdsSize
  {
    BeBytes(t.days, 2) + BeBytes(t.msec, 4)
  }

  lemma CdsPlaced(bs: seq<byte>, p: nat, t: Cds)
    requires t.Valid() && Placed(bs, p, EncodeCds(t))
    ensures p + CdsSize <= |bs| && CdsAt(bs, p) == t
  {
    Pow256Values();
    PlacedParts(bs, p, BeBytes(t.days, 2), BeBytes(t.msec, 4));
    BeAtPlaced(bs, p, t.days, 2);
    BeAtPlaced(bs, p + 2, t.msec, 4);
  }

  /** A coverage in a header record: four BE32 bounds (south, north, east,
      west); the channel name is not stored and stays empty. */
  const CoverageSize: nat := 16

  function CoverageAt(bs: seq<byte>, off: nat): (c: Coverage)
    requires off + CoverageSize <= |bs|
    ensures c.Valid() && c.channel == ""
  {
    Pow256Values();
    var f := BeFields(bs, off, 4, 4);
    Coverage("", f[0], f[1], f[2], f[3])
  }

  function EncodeCoverage(c: Coverage): (bs: seq<byte>)
    requires c.Valid()
    ensures |bs| == CoverageSize
  {
    EncodeFields([c.southernLine, c.northernLine, c.easternColumn, c.westernColumn], 4)
  }

  lemma CoveragePlaced(bs: seq<byte>, p: nat, c: Coverage)
    requires c.Valid() && c.channel == "" && Placed(bs, p, EncodeCoverage(c))
    ensures p + CoverageSize <= |bs| && CoverageAt(bs, p) == c
  {
    Pow256Values();
    var vs := [c.southernLine, c.northernLine, c.easternColumn, c.westernColumn];
    FieldsPlaced(bs, p, vs, 4);
  }

  /** Three coverages in a row, as the prologue's planned coverages and the
      epilogue's actual coverages are stored: VIS/IR, lower HRV, upper HRV. */
  lemma CoveragesPlaced(bs: seq<byte>, p: nat, c0: Coverage, c1: Coverage, c2: Coverage)
    requires c0.Valid() && c1.Valid() && c2.Valid() && c0.channel == "" && c1.channel == "" && c2.channel == ""
    requires Placed(bs, p, EncodeCoverage(c0) + EncodeCoverage(c1) + EncodeCoverage(c2))
    ensures p + 3 * CoverageSize <= |bs|
    ensures CoverageAt(bs, p) == c0 && CoverageAt(bs, p + CoverageSize) == c1
            && CoverageAt(bs, p + 2 * CoverageSize) == c2
  {
    PlacedParts(bs, p, EncodeCoverage(c0) + EncodeCoverage(c1), EncodeCoverage(c2));
    PlacedParts(bs, p, EncodeCoverage(c0), EncodeCoverage(c1));
    CoveragePlaced(bs, p, c0);
    CoveragePlaced(bs, p + CoverageSize, c1);
    CoveragePlaced(bs, p + 2 * CoverageSize, c2);
  }
}
