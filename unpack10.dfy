/** Unpacking of SEVIRI Level 1.5 counts stored as a stream of 10-bit
    values, most significant bit first, into 16-bit words
    (unpack_10bit_to_16bit in memutils.c). Four 10-bit values occupy five
    bytes, so element k starts in byte 5·(k/4) + k%4 at bit 2·(k%4). The
    source buffer is `uint8_t`, modelled as `bv8`. */
module Unpack10 {

  /** Per-phase tables of the C code: element k uses row k % 4. */
  const LOff: seq<nat> := [0, 1, 2, 3]
  const LMask: seq<bv16> := [0xFFC0, 0x3FF0, 0x0FFC, 0x03FF]
  const LShift: seq<bv16> := [6, 4, 2, 0]

  /** Index of the first of the two bytes holding element k. */
  function SrcOff(k: nat): (o: nat)
    ensures 8 * o <= 10 * k <= 8 * o + 6
  {
    k / 4 * 5 + LOff[k % 4]
  }

  /** Single-bit masks of a byte and of a 16-bit word, most significant
      bit first. */
  function BitMask(d: nat): bv8
    requires d < 8
  {
    0x80 >> d
  }

  function WordMask(c: nat): bv16
    requires c < 16
  {
    0x8000 >> c
  }

  /** Reference definition: bit b of the byte stream, counted from the most
      significant bit of byte 0. */
  function StreamBit(s: seq<bv8>, b: nat): (x: bv16)
    requires b < 8 * |s|
    ensures x <= 1
  {
    if s[b / 8] & BitMask(b % 8) != 0 then 1 else 0
  }

  /** Reference definition: the len-bit field at bit offset start, read
      bit by bit, most significant bit first. */
  function StreamField(s: seq<bv8>, start: nat, len: nat): bv16
    requires len <= 16
    requires start + len <= 8 * |s|
  {
    if len == 0 then 0
    else (StreamField(s, start, len - 1) << 1) | StreamBit(s, start + len - 1)
  }

  /** Element k of the 10-bit stream. */
  function Element(s: seq<bv8>, k: nat): bv16
    requires SrcOff(k) + 2 <= |s|
  {
    StreamField(s, 10 * k, 10)
  }

  /** The elements off .. off+cnt-1 of the stream. */
  function Elements(s: seq<bv8>, off: nat, cnt: nat): (r: seq<bv16>)
    requires cnt > 0 ==> SrcOff(off + cnt - 1) + 2 <= |s|
    ensures |r| == cnt
  {
    seq(cnt, i requires 0 <= i < cnt => SrcOffMonotone(off + i, off + cnt - 1); Element(s, off + i))
  }

  lemma SrcOffMonotone(k: nat, k': nat)
    requires k <= k'
    ensures SrcOff(k) <= SrcOff(k')
  {
  }

  /** Bit d < 8 of byte q is bit 8·q + d of the stream. */
  lemma BitPosition(q: nat, d: nat)
    requires d < 8
    ensures (8 * q + d) / 8 == q && (8 * q + d) % 8 == d
  {
  }

  /** The two bytes at p as one big-endian 16-bit word. */
  function Window(s: seq<bv8>, p: nat): bv16
    requires p + 1 < |s|
  {
    ((s[p] as bv16) << 8) | s[p + 1] as bv16
  }

  /** Bit c of a 16-bit word, counted from the most significant bit. */
  function WordBit(w: bv16, c: nat): bv16
    requires c < 16
  {
    if w & WordMask(c) != 0 then 1 else 0
  }

  /** The n-bit field at bit c of a 16-bit word, read most significant bit first. */
  function WordField(w: bv16, o: nat, n: nat): bv16
    requires o + n <= 16
  {
    if n == 0 then 0 else (WordField(w, o, n - 1) << 1) | WordBit(w, o + n - 1)
  }

  lemma HighMask(c: nat)
    requires c < 8
    ensures WordMask(c) == (BitMask(c) as bv16) << 8
  {
  }

  lemma LowMask(c: nat)
    requires 8 <= c < 16
    ensures WordMask(c) == BitMask(c - 8) as bv16
  {
  }

  lemma HighBit(hi: bv8, lo: bv8, m: bv8)
    ensures (hi & m != 0) == ((((hi as bv16) << 8) | lo as bv16) & ((m as bv16) << 8) != 0)
  {
  }

  lemma LowBit(hi: bv8, lo: bv8, m: bv8)
    ensures (lo & m != 0) == ((((hi as bv16) << 8) | lo as bv16) & (m as bv16) != 0)
  {
  }

  /** Bit c of the stream counted from byte p is bit c of the window at p. */
  lemma BitOfWindow(s: seq<bv8>, p: nat, c: nat)
    requires p + 1 < |s| && c < 16
    ensures StreamBit(s, 8 * p + c) == WordBit(Window(s, p), c)
  {
    if c < 8 {
      BitPosition(p, c);
      HighMask(c);
      HighBit(s[p], s[p + 1], BitMask(c));
    } else {
      BitPosition(p + 1, c - 8);
      LowMask(c);
      LowBit(s[p], s[p + 1], BitMask(c - 8));
    }
  }

  /** A field that lies within the two bytes at p reads the same from the
      stream as from their window. */
  lemma {:induction false} WindowField(s: seq<bv8>, p: nat, o: nat, n: nat)
    requires p + 1 < |s| && o + n <= 16
    ensures StreamField(s, 8 * p + o, n) == WordField(Window(s, p), o, n)
  {
    if n > 0 {
      BitOfWindow(s, p, o + n - 1);
      WindowField(s, p, o, n - 1);
    }
  }

  /** Row by row: the mask and shift of each row of the C tables extract
      the 10-bit field at bit 0, 2, 4 or 6 of the word. */
  lemma WordField10At0(w: bv16)
    ensures WordField(w, 0, 10) == (w & 0xFFC0) >> 6
  {
    // Name every intermediate field so that each level is unfolded once.
    var f := [WordField(w, 0, 0), WordField(w, 0, 1), WordField(w, 0, 2), WordField(w, 0, 3), WordField(w, 0, 4),
              WordField(w, 0, 5), WordField(w, 0, 6), WordField(w, 0, 7), WordField(w, 0, 8), WordField(w, 0, 9)];
  }

  lemma WordField10At2(w: bv16)
    ensures WordField(w, 2, 10) == (w & 0x3FF0) >> 4
  {
    // Name every intermediate field so that each level is unfolded once.
    var f := [WordField(w, 2, 0), WordField(w, 2, 1), WordField(w, 2, 2), WordField(w, 2, 3), WordField(w, 2, 4),
              WordField(w, 2, 5), WordField(w, 2, 6), WordField(w, 2, 7), WordField(w, 2, 8), WordField(w, 2, 9)];
  }

  lemma WordField10At4(w: bv16)
    ensures WordField(w, 4, 10) == (w & 0x0FFC) >> 2
  {
    // Name every intermediate field so that each level is unfolded once.
    var f := [WordField(w, 4, 0), WordField(w, 4, 1), WordField(w, 4, 2), WordField(w, 4, 3), WordField(w, 4, 4),
              WordField(w, 4, 5), WordField(w, 4, 6), WordField(w, 4, 7), WordField(w, 4, 8), WordField(w, 4, 9)];
  }

  lemma WordField10At6(w: bv16)
    ensures WordField(w, 6, 10) == (w & 0x03FF) >> 0
  {
    // Name every intermediate field so that each level is unfolded once.
    var f := [WordField(w, 6, 0), WordField(w, 6, 1), WordField(w, 6, 2), WordField(w, 6, 3), WordField(w, 6, 4),
              WordField(w, 6, 5), WordField(w, 6, 6), WordField(w, 6, 7), WordField(w, 6, 8), WordField(w, 6, 9)];
  }

  /** Element k for each of the four phases k % 4. */
  lemma MaskShiftIsElement0(s: seq<bv8>, k: nat)
    requires SrcOff(k) + 2 <= |s| && k % 4 == 0
    ensures (Window(s, SrcOff(k)) & LMask[k % 4]) >> LShift[k % 4] == Element(s, k)
    ensures Element(s, k) < 1024
  {
    var p := SrcOff(k);
    assert 10 * k == 8 * p + 0;
    WindowField(s, p, 0, 10);
    WordField10At0(Window(s, p));
  }

  lemma MaskShiftIsElement1(s: seq<bv8>, k: nat)
    requires SrcOff(k) + 2 <= |s| && k % 4 == 1
    ensures (Window(s, SrcOff(k)) & LMask[k % 4]) >> LShift[k % 4] == Element(s, k)
    ensures Element(s, k) < 1024
  {
    var p := SrcOff(k);
    assert 10 * k == 8 * p + 2;
    WindowField(s, p, 2, 10);
    WordField10At2(Window(s, p));
  }

  lemma MaskShiftIsElement2(s: seq<bv8>, k: nat)
    requires SrcOff(k) + 2 <= |s| && k % 4 == 2
    ensures (Window(s, SrcOff(k)) & LMask[k % 4]) >> LShift[k % 4] == Element(s, k)
    ensures Element(s, k) < 1024
  {
    var p := SrcOff(k);
    assert 10 * k == 8 * p + 4;
    WindowField(s, p, 4, 10);
    WordField10At4(Window(s, p));
  }

  lemma MaskShiftIsElement3(s: seq<bv8>, k: nat)
    requires SrcOff(k) + 2 <= |s| && k % 4 == 3
    ensures (Window(s, SrcOff(k)) & LMask[k % 4]) >> LShift[k % 4] == Element(s, k)
    ensures Element(s, k) < 1024
  {
    var p := SrcOff(k);
    assert 10 * k == 8 * p + 6;
    WindowField(s, p, 6, 10);
    WordField10At6(Window(s, p));
  }

  /** One step of the C loop: the two bytes at SrcOff(k), combined big-endian,
      masked and shifted by row k % 4 of the tables, are element k of the
      bit stream. */
  lemma MaskShiftIsElement(s: seq<bv8>, k: nat)
    requires SrcOff(k) + 2 <= |s|
    ensures (Window(s, SrcOff(k)) & LMask[k % 4]) >> LShift[k % 4] == Element(s, k)
    ensures Element(s, k) < 1024
  {
    match k % 4
    case 0 => MaskShiftIsElement0(s, k);
    case 1 => MaskShiftIsElement1(s, k);
    case 2 => MaskShiftIsElement2(s, k);
    case 3 => MaskShiftIsElement3(s, k);
  }

  /** The C code adds the low byte to the shifted high byte; the two do
      not overlap, so the sum is the window. */
  lemma WindowSum(s: seq<bv8>, p: nat)
    requires p + 1 < |s|
    ensures ((s[p] as bv16) << 8) + s[p + 1] as bv16 == Window(s, p)
  {
    var hi, lo := s[p], s[p + 1];
    assert ((hi as bv16) << 8) + lo as bv16 == ((hi as bv16) << 8) | lo as bv16;
  }

  /** Every unpacked value fits in 10 bits. */
  lemma ElementsBounded(s: seq<bv8>, off: nat, cnt: nat)
    requires cnt > 0 ==> SrcOff(off + cnt - 1) + 2 <= |s|
    ensures forall i :: 0 <= i < cnt ==> Elements(s, off, cnt)[i] < 1024
  {
    forall i | 0 <= i < cnt
      ensures Elements(s, off, cnt)[i] < 1024
    {
      SrcOffMonotone(off + i, off + cnt - 1);
      MaskShiftIsElement(s, off + i);
    }
  }

  /** Unpacking a range equals unpacking its two halves one after the other. */
  lemma ElementsSplit(s: seq<bv8>, off: nat, a: nat, cnt: nat)
    requires a <= cnt
    requires cnt > 0 ==> SrcOff(off + cnt - 1) + 2 <= |s|
    ensures a > 0 ==> SrcOff(off + a - 1) + 2 <= |s|
    ensures Elements(s, off, cnt) == Elements(s, off, a) + Elements(s, off + a, cnt - a)
  {
    if a > 0 {
      SrcOffMonotone(off + a - 1, off + cnt - 1);
    }
  }

  /** Only the bytes up to the last element's second byte are read: the
      unpacked values do not change when everything after them is cut off. */
  lemma {:induction false} ElementsReadOnlyPrefix(s: seq<bv8>, off: nat, cnt: nat)
    requires cnt > 0 && SrcOff(off + cnt - 1) + 2 <= |s|
    ensures Elements(s[..SrcOff(off + cnt - 1) + 2], off, cnt) == Elements(s, off, cnt)
  {
    var t := s[..SrcOff(off + cnt - 1) + 2];
    forall k | off <= k < off + cnt
      ensures SrcOff(k) + 2 <= |t| && Element(t, k) == Element(s, k)
    {
      SrcOffMonotone(k, off + cnt - 1);
      var p := SrcOff(k);
      assert Window(t, p) == Window(s, p);
      assert 10 * k == 8 * p + 2 * (k % 4);
      WindowField(s, p, 2 * (k % 4), 10);
      WindowField(t, p, 2 * (k % 4), 10);
    }
  }

  /** The body of the C loop for one element: the two source bytes are
      combined into dest[i], which is then masked and shifted in place by
      row k % 4 of the tables. */
  method UnpackOne(src: seq<bv8>, dest: array<bv16>, i: nat, k: nat)
    requires i < dest.Length && SrcOff(k) + 2 <= |src|
    modifies dest
    ensures dest[i] == Element(src, k)
    ensures forall j :: 0 <= j < dest.Length && j != i ==> dest[j] == old(dest[j])
  {
    var r := k % 4;
    var soff := k / 4 * 5 + LOff[r];
    dest[i] := ((src[soff] as bv16) << 8) + src[soff + 1] as bv16;
    dest[i] := dest[i] & LMask[r];
    dest[i] := dest[i] >> LShift[r];
    WindowSum(src, soff);
    MaskShiftIsElement(src, k);
  }

  /** unpack_10bit_to_16bit: element off+i of the stream goes to dest[i]
      for i < cnt, and nothing beyond dest[cnt-1] is written. */
  method Unpack10To16(src: seq<bv8>, dest: array<bv16>, off: nat, cnt: nat)
    requires cnt <= dest.Length
    requires cnt > 0 ==> SrcOff(off + cnt - 1) + 2 <= |src|
    modifies dest
    ensures dest[..cnt] == Elements(src, off, cnt)
    ensures forall k :: cnt <= k < dest.Length ==> dest[k] == old(dest[k])
  {
    var i := 0;
    while i < cnt
      invariant 0 <= i <= cnt
      invariant i > 0 ==> SrcOff(off + i - 1) + 2 <= |src|
      invariant dest[..i] == Elements(src, off, i)
      invariant forall k :: cnt <= k < dest.Length ==> dest[k] == old(dest[k])
    {
      SrcOffMonotone(off + i, off + cnt - 1);
      UnpackOne(src, dest, i, off + i);
      ElementsSplit(src, off, i, i + 1);
      assert dest[..i + 1] == dest[..i] + [dest[i]];
      i := i + 1;
    }
  }
}
