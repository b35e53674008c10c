/** CCSDS Day Segmented time code (CCSDS 301.0-B, section 3.3) as used by
    the SEVIRI HRIT files: a 16-bit day count since 1958-01-01 and a
    32-bit millisecond of day, and its conversion to and from Unix
    seconds (cds_time.c). */
module CdsTime {
  import opened Common

  /** Julian dates of the two epochs (timeutils.h). */
  const EpochTai: real := 2436204.5
  const EpochUnix: real := 2440587.5

  /** Days between 1958-01-01 and 1970-01-01: the C constant `day_off`. */
  const DayOff: int := (EpochUnix - EpochTai).Floor

  const SecondsPerDay: int := 86400

  /** `struct cds_time`: both fields are unsigned, 16 and 32 bits wide. */
  datatype Cds = Cds(days: int, msec: int)
  {
    predicate Valid() { IsU16(days) && IsU32(msec) }
  }

  /** C division of a signed 64-bit `time_t`: truncation toward zero. */
  function CDiv(a: int, b: int): (q: int)
    requires b > 0
    ensures a >= 0 ==> q == a / b
    ensures a < 0 ==> q == -((-a) / b)
  {
    if a >= 0 then a / b else -((-a) / b)
  }

  /** C remainder: takes the sign of the dividend. */
  function CRem(a: int, b: int): (r: int)
    requires b > 0
    ensures a == b * CDiv(a, b) + r
    ensures a >= 0 ==> 0 <= r < b
    ensures a < 0 ==> -b < r <= 0
  {
    a - b * CDiv(a, b)
  }

  /** time_cds2unix: the day count is rebased to 1970 in a uint16 (so a
      day before 1970 wraps), the milliseconds are rounded half-up to whole
      seconds in uint32 arithmetic. The day product is exact here; the C
      code forms it in a 32-bit int (see CdsToUnixFitsInt). */
  function CdsToUnix(ct: Cds): (t: int)
    requires ct.Valid()
    ensures t >= 0
    ensures ct.msec + 500 < SecondsPerDay * 1000 ==>
      t / SecondsPerDay == Wrap16(ct.days - DayOff) && t % SecondsPerDay == (ct.msec + 500) / 1000
  {
    Wrap32(ct.msec + 500) / 1000 + Wrap16(ct.days - DayOff) * SecondsPerDay
  }

  /** time_unix2cds: truncating division and remainder by 86400, the day
      count stored in a uint16 and then rebased, the milliseconds stored in
      a uint32. */
  function UnixToCds(t: int): (ct: Cds)
    ensures ct.Valid()
    ensures t >= 0 ==> ct.msec < SecondsPerDay * 1000 && ct.msec % 1000 == 0
    ensures t >= 0 ==> ct.msec == (t % SecondsPerDay) * 1000
    ensures t >= 0 ==> ct.days == (t / SecondsPerDay + DayOff) % U16
  {
    var days := Wrap16(CDiv(t, SecondsPerDay));
    var msec := Wrap32(CRem(t, SecondsPerDay) * 1000);
    Cds(Wrap16(days + DayOff), msec)
  }

  lemma DayOffIs4383()
    ensures DayOff == 4383
  {
  }

  /** Unix time to CDS and back is the identity for every time from 1970 on
      whose day count stays within the range where the C product
      days·86400 does not overflow an int. */
  lemma UnixRoundTrip(t: int)
    requires 0 <= t && t / SecondsPerDay <= 24855
    ensures CdsToUnix(UnixToCds(t)) == t
  {
    var ct := UnixToCds(t);
    var d := t / SecondsPerDay;
    var r := t % SecondsPerDay;
    assert ct.days == d + DayOff;
    assert Wrap16(ct.days - DayOff) == d;
    assert ct.msec == r * 1000;
    assert Wrap32(ct.msec + 500) == r * 1000 + 500;
    assert (r * 1000 + 500) / 1000 == r;
  }

  /** The C code multiplies the rebased day count by 86400 in a 32-bit
      int: that product is exact exactly up to day 24855 after 1970. */
  lemma CdsToUnixFitsInt(ct: Cds)
    requires ct.Valid()
    ensures Wrap16(ct.days - DayOff) <= 24855 <==> Wrap16(ct.days - DayOff) * SecondsPerDay < I31
  {
  }

  /** A day count before 1970 is not negative after rebasing: it wraps
      through uint16 to a time more than 167 years after 1970. */
  lemma EarlyDaysWrap(ct: Cds)
    requires ct.Valid() && ct.days < DayOff
    ensures CdsToUnix(ct) >= (U16 - DayOff) * SecondsPerDay
    ensures CdsToUnix(ct) == Wrap32(ct.msec + 500) / 1000 + (ct.days - DayOff + U16) * SecondsPerDay
  {
  }

  /** CDS to Unix and back reproduces the instant rounded to the nearest
      second (half-up), for every valid CDS time from 1970 whose rounded
      day still fits the day counter. */
  lemma {:induction false} CdsRoundTrip(ct: Cds)
    requires ct.Valid() && ct.msec < SecondsPerDay * 1000
    requires DayOff <= ct.days < U16 - 1
    ensures var back := UnixToCds(CdsToUnix(ct));
            var ms := (ct.days - DayOff) * SecondsPerDay * 1000 + ct.msec;
            (back.days - DayOff) * SecondsPerDay * 1000 + back.msec == (ms + 500) / 1000 * 1000
  {
    var t := CdsToUnix(ct);
    var d := ct.days - DayOff;
    var ms := d * SecondsPerDay * 1000 + ct.msec;
    assert Wrap16(ct.days - DayOff) == d;
    assert Wrap32(ct.msec + 500) == ct.msec + 500;
    assert t == (ct.msec + 500) / 1000 + d * SecondsPerDay;
    assert (ms + 500) / 1000 == t by {
      assert ms + 500 == d * SecondsPerDay * 1000 + (ct.msec + 500);
      DivAddThousands(ct.msec + 500, d * SecondsPerDay);
    }
    var back := UnixToCds(t);
    assert t / SecondsPerDay == d || t / SecondsPerDay == d + 1;
    assert back.days == t / SecondsPerDay + DayOff;
    assert back.msec == (t % SecondsPerDay) * 1000;
    assert t == SecondsPerDay * (t / SecondsPerDay) + t % SecondsPerDay;
  }

  lemma DivAddThousands(a: nat, k: nat)
    ensures (k * 1000 + a) / 1000 == k + a / 1000
  {
  }
}
