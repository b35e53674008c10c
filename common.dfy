/** Integer widths, bytes and the option type shared by every module.
    The C code works on fixed-width unsigned integers; here they are
    unbounded integers with explicit ranges, and wrap-around is written out
    where the C code relies on it. */
module Common {

  /** One byte of a file or a header buffer (C `uint8_t`). */
  type byte = b: int | 0 <= b < 256

  const U16: int := 0x1_0000
  const U32: int := 0x1_0000_0000
  const U64: int := 0x1_0000_0000_0000_0000
  const I31: int := 0x8000_0000

  predicate IsU16(x: int) { 0 <= x < U16 }
  predicate IsU32(x: int) { 0 <= x < U32 }

  /** Reduction modulo 2^16, as a C assignment to `uint16_t` does. */
  function Wrap16(x: int): (r: int)
    ensures IsU16(r)
    ensures IsU16(x) ==> r == x
    ensures (r - x) % U16 == 0
  {
    x % U16
  }

  /** Reduction modulo 2^32, as C `uint32_t` arithmetic does. */
  function Wrap32(x: int): (r: int)
    ensures IsU32(r)
    ensures IsU32(x) ==> r == x
    ensures (r - x) % U32 == 0
  {
    x % U32
  }

  /** Reduction modulo 2^64, as C `uint64_t`/`size_t` arithmetic does. */
  function Wrap64(x: int): (r: int)
    ensures 0 <= r < U64
    ensures 0 <= x < U64 ==> r == x
  {
    x % U64
  }

  datatype Option<T> = None | Some(value: T)

  /** 2^n. */
  function Pow2(n: nat): (r: nat)
    ensures r >= 1
    ensures n >= 1 ==> r % 2 == 0
  {
    if n == 0 then 1 else 2 * Pow2(n - 1)
  }

  /** C `tolower` in the "C" locale: only 'A'..'Z' change. */
  function ToLower(c: char): (r: char)
    ensures 'A' <= c <= 'Z' ==> r as int == c as int + 32
    ensures !('A' <= c <= 'Z') ==> r == c
  {
    if 'A' <= c <= 'Z' then (c as int + 32) as char else c
  }

  function Min(a: int, b: int): int { if a < b then a else b }
  function Max(a: int, b: int): int { if a > b then a else b }

  /** The second part of a concatenation is found right after the first. */
  lemma SliceOfLast<T>(a: seq<T>, b: seq<T>)
    ensures (a + b)[|a|..|a| + |b|] == b
  {
  }

  /** Slicing within the second part of a concatenation ignores the first. */
  lemma SliceOfSecond<T>(a: seq<T>, b: seq<T>, i: nat, j: nat)
    requires i <= j <= |b|
    ensures (a + b)[|a| + i..|a| + j] == b[i..j]
  {
  }

  /** Slicing within the first part of a concatenation ignores the second. */
  lemma SliceOfFirst<T>(a: seq<T>, b: seq<T>, i: nat, j: nat)
    requires i <= j <= |a|
    ensures (a + b)[i..j] == a[i..j]
  {
  }
}
