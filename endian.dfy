/** Big-endian integer fields of the HRIT byte stream (memcpy_endian.h).
    Every multi-byte field of the container format is stored most
    significant byte first. */
module Endian {
  import opened Common

  /** 256^n, the number of values an n-byte field can hold. */
  function Pow256(n: nat): (r: nat)
    ensures r >= 1
  {
    if n == 0 then 1 else 256 * Pow256(n - 1)
  }

  /** The unsigned value of bytes read most significant first. */
  function BeValue(bs: seq<byte>): (v: nat)
    ensures v < Pow256(|bs|)
  {
    if |bs| == 0 then 0 else BeValue(bs[..|bs| - 1]) * 256 + bs[|bs| - 1]
  }

  /** The n-byte big-endian encoding of v (its low 8n bits). */
  function BeBytes(v: nat, n: nat): (bs: seq<byte>)
    ensures |bs| == n
  {
    if n == 0 then [] else BeBytes(v / 256, n - 1) + [v % 256]
  }

  lemma {:induction false} BeValueOfBytes(v: nat, n: nat)
    requires v < Pow256(n)
    ensures BeValue(BeBytes(v, n)) == v
  {
    if n > 0 {
      var bs := BeBytes(v, n);
      assert bs[..n - 1] == BeBytes(v / 256, n - 1);
      BeValueOfBytes(v / 256, n - 1);
    }
  }

  lemma {:induction false} BytesOfBeValue(bs: seq<byte>)
    ensures BeBytes(BeValue(bs), |bs|) == bs
  {
    if |bs| > 0 {
      var n := |bs|;
      var front := bs[..n - 1];
      assert BeValue(bs) / 256 == BeValue(front);
      BytesOfBeValue(front);
      assert bs == front + [bs[n - 1]];
    }
  }

  /** The w-byte big-endian field starting at byte off of s, by the
      reference definition (0 when the field does not fit, which no caller
      below asks for). */
  function BeAt(s: seq<byte>, off: nat, w: nat): (v: nat)
    ensures v < Pow256(w)
  {
    if off + w <= |s| then BeValue(s[off..off + w]) else 0
  }

  /** be16toh applied to the two bytes at off. */
  function Be16(s: seq<byte>, off: nat): (v: nat)
    requires off + 2 <= |s|
    ensures v < U16
  {
    256 * (s[off] as int) + s[off + 1] as int
  }

  /** be32toh applied to the four bytes at off. */
  function Be32(s: seq<byte>, off: nat): (v: nat)
    requires off + 4 <= |s|
    ensures v < U32
  {
    0x100_0000 * (s[off] as int) + 0x1_0000 * (s[off + 1] as int) + 0x100 * (s[off + 2] as int) + s[off + 3] as int
  }

  /** be64toh applied to the eight bytes at off. */
  function Be64(s: seq<byte>, off: nat): (v: nat)
    requires off + 8 <= |s|
    ensures v < Pow256(8)
  {
    assert Pow256(8) == U32 * U32;
    U32 * Be32(s, off) + Be32(s, off + 4)
  }

  /** An n-byte encoding placed anywhere in a buffer reads back as its value. */
  lemma BeAtOfBytes(pre: seq<byte>, v: nat, n: nat, post: seq<byte>)
    requires v < Pow256(n)
    ensures BeAt(pre + BeBytes(v, n) + post, |pre|, n) == v
  {
    var s := pre + BeBytes(v, n) + post;
    assert s[|pre|..|pre| + n] == BeBytes(v, n);
    BeValueOfBytes(v, n);
  }

  /** A field read back and re-encoded gives the bytes it was read from. */
  lemma BytesOfBeAt(s: seq<byte>, off: nat, n: nat)
    requires off + n <= |s|
    ensures BeBytes(BeAt(s, off, n), n) == s[off..off + n]
  {
    BytesOfBeValue(s[off..off + n]);
  }

  lemma Pow256Values()
    ensures Pow256(1) == 256 && Pow256(2) == U16 && Pow256(4) == U32 && Pow256(8) == U64
  {
  }

  /** The byte-swapping decoders agree with the reference definition. */
  lemma Be16IsBeValue(s: seq<byte>, off: nat)
    requires off + 2 <= |s|
    ensures Be16(s, off) == BeAt(s, off, 2)
  {
    var bs := s[off..off + 2];
    assert bs[..1][..0] == [];
    assert BeValue(bs[..1]) == bs[0];
  }

  /** A two-byte big-endian field reads back as the value it was written from,
      wherever it sits. */
  lemma Be16OfBytes(s: seq<byte>, off: nat, v: nat)
    requires v < U16 && off + 2 <= |s| && s[off..off + 2] == BeBytes(v, 2)
    ensures Be16(s, off) == v
  {
    Pow256Values();
    BeAtOfBytes([], v, 2, []);
    assert BeBytes(v, 2) == [] + BeBytes(v, 2) + [];
    Be16IsBeValue(s, off);
  }

  /** A four-byte big-endian field reads back as the value it was written from,
      wherever it sits. */
  lemma Be32OfBytes(s: seq<byte>, off: nat, v: nat)
    requires v < U32 && off + 4 <= |s| && s[off..off + 4] == BeBytes(v, 4)
    ensures Be32(s, off) == v
  {
    Pow256Values();
    BeAtOfBytes([], v, 4, []);
    assert BeBytes(v, 4) == [] + BeBytes(v, 4) + [];
    Be32IsBeValue(s, off);
  }

  lemma Be32IsBeValue(s: seq<byte>, off: nat)
    requires off + 4 <= |s|
    ensures Be32(s, off) == BeAt(s, off, 4)
  {
    var bs := s[off..off + 4];
    assert bs[..3][..2][..1][..0] == [];
    assert BeValue(bs[..1]) == bs[0];
    assert BeValue(bs[..2]) == 256 * (bs[0] as int) + bs[1] as int by { assert bs[..2][..1] == bs[..1]; }
    assert BeValue(bs[..3]) == 0x1_0000 * (bs[0] as int) + 0x100 * (bs[1] as int) + bs[2] as int by { assert bs[..3][..2] == bs[..2]; }
  }

  lemma ShiftAdd(x: int, p: int, y: int, last: int)
    ensures (x * p + y) * 256 + last == x * (p * 256) + (y * 256 + last)
  {
  }

  lemma {:induction false} BeValueAppend(a: seq<byte>, b: seq<byte>)
    ensures BeValue(a + b) == BeValue(a) * Pow256(|b|) + BeValue(b)
  {
    if |b| > 0 {
      var ab := a + b;
      var b' := b[..|b| - 1];
      assert ab[..|ab| - 1] == a + b';
      BeValueAppend(a, b');
      var x: int := BeValue(a);
      var p: int := Pow256(|b'|);
      var y: int := BeValue(b');
      var last: int := b[|b| - 1];
      assert BeValue(ab) == BeValue(a + b') * 256 + last;
      ShiftAdd(x, p, y, last);
    } else {
      assert a + b == a;
    }
  }

  lemma Be64IsBeValue(s: seq<byte>, off: nat)
    requires off + 8 <= |s|
    ensures Be64(s, off) == BeAt(s, off, 8)
  {
    Be32IsBeValue(s, off);
    Be32IsBeValue(s, off + 4);
    assert s[off..off + 8] == s[off..off + 4] + s[off + 4..off + 8];
    BeValueAppend(s[off..off + 4], s[off + 4..off + 8]);
    assert Pow256(4) == U32;
  }

  /** The w-byte elements i = 0 .. n-1 of a big-endian array starting at byte s. */
  predicate CopiedBigEndian(dest: seq<int>, d: nat, src: seq<byte>, s: nat, n: nat, w: nat)
    requires d + n <= |dest|
  {
    forall i :: 0 <= i < n ==> dest[d + i] == BeAt(src, s + w * i, w)
  }

  /** The common loop of memcpy_be16toh, memcpy_be32toh and memcpy_be64toh:
      n elements of w bytes each are converted from big-endian and stored
      in dest[d ..], walking the source and destination cursors forward. */
  method CopyBigEndian(dest: array<int>, d: nat, src: seq<byte>, s: nat, n: nat, w: nat)
    requires d + n <= dest.Length
    modifies dest
    ensures CopiedBigEndian(dest[..], d, src, s, n, w)
    ensures forall k :: 0 <= k < dest.Length && !(d <= k < d + n) ==> dest[k] == old(dest[k])
  {
    var i := 0;
    var sp := s;
    while i < n
      invariant 0 <= i <= n
      invariant sp == s + w * i
      invariant forall j :: 0 <= j < i ==> dest[d + j] == BeAt(src, s + w * j, w)
      invariant forall k :: 0 <= k < dest.Length && !(d <= k < d + i) ==> dest[k] == old(dest[k])
    {
      dest[d + i] := BeAt(src, sp, w);
      assert sp + w == s + w * (i + 1);
      sp := sp + w;
      i := i + 1;
    }
  }

  method MemcpyBe16ToH(dest: array<int>, d: nat, src: seq<byte>, s: nat, n: nat)
    requires d + n <= dest.Length && s + 2 * n <= |src|
    modifies dest
    ensures forall i :: 0 <= i < n ==> dest[d + i] == 256 * (src[s + 2 * i] as int) + src[s + 2 * i + 1] as int
    ensures forall k :: 0 <= k < dest.Length && !(d <= k < d + n) ==> dest[k] == old(dest[k])
  {
    CopyBigEndian(dest, d, src, s, n, 2);
    forall i | 0 <= i < n
      ensures dest[d + i] == Be16(src, s + 2 * i)
    {
      Be16IsBeValue(src, s + 2 * i);
      assert dest[..][d + i] == dest[d + i];
    }
  }

  method MemcpyBe32ToH(dest: array<int>, d: nat, src: seq<byte>, s: nat, n: nat)
    requires d + n <= dest.Length && s + 4 * n <= |src|
    modifies dest
    ensures forall i :: 0 <= i < n ==> dest[d + i] == Be32(src, s + 4 * i)
    ensures forall k :: 0 <= k < dest.Length && !(d <= k < d + n) ==> dest[k] == old(dest[k])
  {
    CopyBigEndian(dest, d, src, s, n, 4);
    forall i | 0 <= i < n
      ensures dest[d + i] == Be32(src, s + 4 * i)
    {
      Be32IsBeValue(src, s + 4 * i);
      assert dest[..][d + i] == dest[d + i];
    }
  }

  method MemcpyBe64ToH(dest: array<int>, d: nat, src: seq<byte>, s: nat, n: nat)
    requires d + n <= dest.Length && s + 8 * n <= |src|
    modifies dest
    ensures forall i :: 0 <= i < n ==> dest[d + i] == Be64(src, s + 8 * i)
    ensures forall k :: 0 <= k < dest.Length && !(d <= k < d + n) ==> dest[k] == old(dest[k])
  {
    CopyBigEndian(dest, d, src, s, n, 8);
    forall i | 0 <= i < n
      ensures dest[d + i] == Be64(src, s + 8 * i)
    {
      Be64IsBeValue(src, s + 8 * i);
      assert dest[..][d + i] == dest[d + i];
    }
  }

  /** The non-swapping branch of the three copies: n·w bytes copied as they are.
      Read back as big-endian elements they give the same values as the
      swapping loop, which is why the two branches agree on a big-endian host. */
  lemma {:induction false} PlainCopyReadsTheSame(src: seq<byte>, s: nat, n: nat, w: nat, i: nat)
    requires s + w * n <= |src| && i < n
    ensures w * i + w <= w * n
    ensures BeAt(src[s..s + w * n], w * i, w) == BeAt(src, s + w * i, w)
  {
    assert w * i + w == w * (i + 1) <= w * n;
    assert src[s..s + w * n][w * i..w * i + w] == src[s + w * i..s + w * i + w];
  }
}
