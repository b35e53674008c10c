/** The strptime-like time string parser of src/timeutils.c: char2tm reads
    one fixed-width numeric field into a broken-down time, utctimestr2tm
    walks a format and a string side by side, converting at each
    %-specifier and matching every other format character literally. */
module TimeParse {
  import opened Common

  // ---- sscanf("%d") ----

  predicate IsDigit(c: char) { '0' <= c <= '9' }

  /** The characters isspace accepts in the C locale. */
  predicate IsSpace(c: char)
  {
    c == ' ' || c == '\t' || c == '\n' || c == 11 as char || c == 12 as char || c == '\r'
  }

  predicate AllDigits(d: string) { forall k | 0 <= k < |d| :: IsDigit(d[k]) }

  /** The decimal value of a run of digits. */
  function Value(d: string): (v: nat)
    requires AllDigits(d)
  {
    if |d| == 0 then 0 else 10 * Value(d[..|d| - 1]) + (d[|d| - 1] as int - '0' as int)
  }

  function Pow10(n: nat): (p: nat)
    ensures p >= 1
  {
    if n == 0 then 1 else 10 * Pow10(n - 1)
  }

  /** n digits hold a value below 10^n. */
  lemma {:induction false} ValueBound(d: string)
    requires AllDigits(d)
    ensures Value(d) < Pow10(|d|)
  {
    if |d| > 0 {
      ValueBound(d[..|d| - 1]);
    }
  }

  /** Appending a digit multiplies the value by ten and adds the digit. */
  lemma ValueSnoc(d: string, c: char)
    requires AllDigits(d) && IsDigit(c)
    ensures AllDigits(d + [c])
    ensures Value(d + [c]) == 10 * Value(d) + (c as int - '0' as int)
  {
    assert (d + [c])[..|d|] == d;
  }

  /** The value of two digits. */
  lemma TwoDigits(a: char, b: char)
    requires IsDigit(a) && IsDigit(b)
    ensures AllDigits([a, b])
    ensures Value([a, b]) == 10 * (a as int - '0' as int) + (b as int - '0' as int)
  {
    ValueSnoc([], a);
    ValueSnoc([a], b);
    assert [a] + [b] == [a, b];
  }

  /** The first position at or after i that is not white space. */
  function SkipSpace(t: string, i: nat): (j: nat)
    requires i <= |t|
    ensures i <= j <= |t|
    ensures forall k | i <= k < j :: IsSpace(t[k])
    ensures j == |t| || !IsSpace(t[j])
    decreases |t| - i
  {
    if i < |t| && IsSpace(t[i]) then SkipSpace(t, i + 1) else i
  }

  /** The end of the run of digits starting at i. */
  function DigitsEnd(t: string, i: nat): (j: nat)
    requires i <= |t|
    ensures i <= j <= |t| && AllDigits(t[i..j])
    ensures j == |t| || !IsDigit(t[j])
    decreases |t| - i
  {
    if i < |t| && IsDigit(t[i]) then DigitsEnd(t, i + 1) else i
  }

  /** sscanf(t, "%d", &v) == 1: white space, an optional sign, then at
      least one digit; the value of the longest such run. No conversion
      at all gives none. */
  function ScanInt(t: string): (r: Option<int>)
  {
    var i := SkipSpace(t, 0);
    var signed := i < |t| && (t[i] == '-' || t[i] == '+');
    var j := if signed then i + 1 else i;
    var e := DigitsEnd(t, j);
    var v: int := Value(t[j..e]);
    if e == j then None
    else if signed && t[i] == '-' then Some(-v)
    else Some(v)
  }

  /** A field of digits only scans as its decimal value. */
  lemma ScanDigits(d: string)
    requires |d| > 0 && AllDigits(d)
    ensures ScanInt(d) == Some(Value(d))
  {
    assert SkipSpace(d, 0) == 0;
    assert DigitsEnd(d, 0) == |d|;
    assert d[0..|d|] == d;
  }

  /** A field that starts with anything but white space, a sign or a digit
      does not scan. */
  lemma ScanFails(t: string)
    requires |t| > 0 && !IsSpace(t[0]) && !IsDigit(t[0]) && t[0] != '-' && t[0] != '+'
    ensures ScanInt(t).None?
  {
    assert SkipSpace(t, 0) == 0;
  }

  // ---- struct tm and char2tm ----

  /** The fields of struct tm that the parser writes. */
  datatype TmField = Year | YearDay | Month | MonthDay | Hour | Minute | Second

  datatype TmValues = TmValues(year: int, yday: int, mon: int, mday: int, hour: int, min: int, sec: int)

  /** The broken-down time with field f set to v and the others kept. */
  function Store(t: TmValues, f: TmField, v: int): (t': TmValues)
    ensures f == Year ==> t' == t.(year := v)
    ensures f == YearDay ==> t' == t.(yday := v)
    ensures f == Month ==> t' == t.(mon := v)
    ensures f == MonthDay ==> t' == t.(mday := v)
    ensures f == Hour ==> t' == t.(hour := v)
    ensures f == Minute ==> t' == t.(min := v)
    ensures f == Second ==> t' == t.(sec := v)
  {
    match f
    case Year => t.(year := v)
    case YearDay => t.(yday := v)
    case Month => t.(mon := v)
    case MonthDay => t.(mday := v)
    case Hour => t.(hour := v)
    case Minute => t.(min := v)
    case Second => t.(sec := v)
  }

  /** strncpy(buf, ptr, n): at most n characters from position p, fewer at
      the end of the string. */
  function Buf(s: string, p: nat, n: nat): (b: string)
    requires p <= |s|
    ensures |b| == Min(n, |s| - p)
  {
    s[p..Min(p + n, |s|)]
  }

  /** One conversion: the field written, the value stored and the number
      of characters the string pointer then advances. */
  datatype Conv = Conv(field: TmField, value: int, width: nat)

  /** The known specifiers. */
  predicate Specifier(conv: char)
  {
    conv == 'Y' || conv == 'y' || conv == 'j' || conv == 'm' || conv == 'd'
    || conv == 'H' || conv == 'M' || conv == 'S'
  }

  /** The number of characters a specifier consumes: 4 for %Y, 3 for %j,
      2 for the others. */
  function Width(conv: char): nat
  {
    if conv == 'Y' then 4 else if conv == 'j' then 3 else 2
  }

  /** char2tm as a function: the conversion of specifier conv at position p
      of s, or none for an unknown specifier or a field that does not scan.
      %j scans the rest of the string, not its 3-character buffer. */
  function Conversion(s: string, p: nat, conv: char): (c: Option<Conv>)
    requires p <= |s|
    ensures c.Some? ==> Specifier(conv) && c.value.width == Width(conv)
    ensures !Specifier(conv) ==> c.None?
  {
    var n := Width(conv);
    var scanned := if conv == 'j' then ScanInt(s[p..]) else ScanInt(Buf(s, p, n));
    if !Specifier(conv) || scanned.None? then None
    else
      var v := scanned.value;
      match conv
      case 'Y' => Some(Conv(Year, v - 1900, n))
      case 'y' => Some(Conv(Year, if v <= 68 then v + 100 else v, n))
      case 'j' => Some(Conv(YearDay, v - 1, n))
      case 'm' => Some(Conv(Month, v - 1, n))
      case 'd' => Some(Conv(MonthDay, v, n))
      case 'H' => Some(Conv(Hour, v, n))
      case 'M' => Some(Conv(Minute, v, n))
      case 'S' => Some(Conv(Second, v, n))
  }

  /** struct tm, written in place by the parser. */
  class Tm {
    var year: int
    var yday: int
    var mon: int
    var mday: int
    var hour: int
    var min: int
    var sec: int

    function Values(): TmValues
      reads this
    {
      TmValues(year, yday, mon, mday, hour, min, sec)
    }

    constructor (t: TmValues)
      ensures Values() == t
    {
      year, yday, mon, mday := t.year, t.yday, t.mon, t.mday;
      hour, min, sec := t.hour, t.min, t.sec;
    }
  }

  /** char2tm: converts the field at position p for specifier conv into
      tm and returns its width, or returns -1 and leaves tm as it was. */
  method Char2Tm(s: string, p: nat, conv: char, tm: Tm) returns (r: int)
    requires p <= |s|
    modifies tm
    ensures Conversion(s, p, conv).None? ==> r == -1 && tm.Values() == old(tm.Values())
    ensures Conversion(s, p, conv).Some? ==>
      var c := Conversion(s, p, conv).value;
      r == c.width && tm.Values() == Store(old(tm.Values()), c.field, c.value)
  {
    if conv == 'Y' {
      var v := ScanInt(Buf(s, p, 4));
      if v.None? { return -1; }
      tm.year := v.value - 1900;
      return 4;
    } else if conv == 'y' {
      var v := ScanInt(Buf(s, p, 2));
      if v.None? { return -1; }
      tm.year := v.value;
      if tm.year <= 68 {
        tm.year := tm.year + 100;
      }
      return 2;
    } else if conv == 'j' {
      var v := ScanInt(s[p..]);
      if v.None? { return -1; }
      tm.yday := v.value - 1;
      return 3;
    } else if conv == 'm' {
      var v := ScanInt(Buf(s, p, 2));
      if v.None? { return -1; }
      tm.mon := v.value - 1;
      return 2;
    } else if conv == 'd' || conv == 'H' || conv == 'M' || conv == 'S' {
      var v := ScanInt(Buf(s, p, 2));
      if v.None? { return -1; }
      if conv == 'd' {
        tm.mday := v.value;
      } else if conv == 'H' {
        tm.hour := v.value;
      } else if conv == 'M' {
        tm.min := v.value;
      } else {
        tm.sec := v.value;
      }
      return 2;
    } else {
      return -1;
    }
  }

  // ---- utctimestr2tm ----

  /** Where the walk stopped: the result, the broken-down time and the
      format and string positions. */
  datatype Outcome = Outcome(result: int, tm: TmValues, fp: nat, sp: nat)

  /** The walk from format position fp and string position sp. It stops at
      the end of either; a '%' followed by a character converts, anything
      else, a '%' in last position included, must equal the string
      character. */
  function ParseFrom(s: string, fmt: string, fp: nat, sp: nat, t: TmValues): (o: Outcome)
    requires fp <= |fmt|
    ensures o.result == 0 || o.result == -1
    ensures fp <= o.fp <= |fmt| && sp <= o.sp
    ensures o.result == 0 ==> o.fp == |fmt| || o.sp >= |s|
    decreases |fmt| - fp
  {
    if fp == |fmt| || sp >= |s| then Outcome(0, t, fp, sp)
    else if fmt[fp] == '%' && fp + 1 < |fmt| then
      match Conversion(s, sp, fmt[fp + 1])
      case None => Outcome(-1, t, fp, sp)
      case Some(c) => ParseFrom(s, fmt, fp + 2, sp + c.width, Store(t, c.field, c.value))
    else if fmt[fp] != s[sp] then Outcome(-1, t, fp, sp)
    else ParseFrom(s, fmt, fp + 1, sp + 1, t)
  }

  function Parse(s: string, fmt: string, t: TmValues): Outcome
  {
    ParseFrom(s, fmt, 0, 0, t)
  }

  /** utctimestr2tm: 0 when the walk reached the end of the format or of
      the string, -1 at the first failed conversion or literal mismatch;
      tm holds every conversion made until then. */
  method UtcTimeStrToTm(s: string, fmt: string, tm: Tm) returns (r: int)
    modifies tm
    ensures r == Parse(s, fmt, old(tm.Values())).result
    ensures tm.Values() == Parse(s, fmt, old(tm.Values())).tm
  {
    var fp, sp := 0, 0;
    while fp < |fmt| && sp < |s|
      invariant fp <= |fmt|
      invariant ParseFrom(s, fmt, fp, sp, tm.Values()) == Parse(s, fmt, old(tm.Values()))
      decreases |fmt| - fp
    {
      if fmt[fp] == '%' && fp + 1 < |fmt| {
        var res := Char2Tm(s, sp, fmt[fp + 1], tm);
        if res > 0 {
          fp := fp + 2;
          sp := sp + res;
        } else {
          return -1;
        }
      } else {
        if fmt[fp] != s[sp] {
          return -1;
        }
        fp := fp + 1;
        sp := sp + 1;
      }
    }
    // The check after the loop tests the string pointer itself, which is
    // never null, so it never fails.
    return 0;
  }

  // ---- Properties of the walk ----

  /** A format without '%' is a literal: the parse succeeds exactly when the
      shorter of format and string is a prefix of the other, and changes
      nothing. */
  lemma {:induction false} LiteralFormat(s: string, fmt: string, fp: nat, sp: nat, t: TmValues)
    requires fp <= |fmt| && sp <= |s|
    requires forall k | fp <= k < |fmt| :: fmt[k] != '%'
    ensures var m := Min(|fmt| - fp, |s| - sp);
      ParseFrom(s, fmt, fp, sp, t).result == 0 <==> fmt[fp..fp + m] == s[sp..sp + m]
    ensures ParseFrom(s, fmt, fp, sp, t).tm == t
    decreases |fmt| - fp
  {
    var m := Min(|fmt| - fp, |s| - sp);
    if fp < |fmt| && sp < |s| {
      var m' := Min(|fmt| - fp - 1, |s| - sp - 1);
      assert m == m' + 1;
      var f, g := fmt[fp..fp + m], s[sp..sp + m];
      assert f[0] == fmt[fp] && g[0] == s[sp];
      if fmt[fp] != s[sp] {
        assert ParseFrom(s, fmt, fp, sp, t) == Outcome(-1, t, fp, sp);
      } else {
        LiteralFormat(s, fmt, fp + 1, sp + 1, t);
        assert ParseFrom(s, fmt, fp, sp, t) == ParseFrom(s, fmt, fp + 1, sp + 1, t);
        assert f[1..] == fmt[fp + 1..fp + 1 + m'] && g[1..] == s[sp + 1..sp + 1 + m'];
        assert f == [f[0]] + f[1..] && g == [g[0]] + g[1..];
      }
    }
  }

  /** A conversion advances the string by its specifier's width, whether or
      not the string has that many characters left. */
  lemma ConversionAdvancesByWidth(s: string, fmt: string, fp: nat, sp: nat, t: TmValues)
    requires fp + 1 < |fmt| && fmt[fp] == '%' && sp < |s|
    requires Conversion(s, sp, fmt[fp + 1]).Some?
    ensures var c := Conversion(s, sp, fmt[fp + 1]).value;
      ParseFrom(s, fmt, fp, sp, t)
        == ParseFrom(s, fmt, fp + 2, sp + Width(fmt[fp + 1]), Store(t, c.field, c.value))
  {
  }

  /** A '%' in last position of the format is an ordinary character. */
  lemma TrailingPercentIsLiteral(s: string, fmt: string, sp: nat, t: TmValues)
    requires |fmt| > 0 && fmt[|fmt| - 1] == '%' && sp < |s|
    ensures ParseFrom(s, fmt, |fmt| - 1, sp, t).result == 0 <==> s[sp] == '%'
  {
  }

  /** A '%' followed by an unknown specifier fails the parse when it is
      reached with string left. */
  lemma UnknownSpecifierFails(s: string, fmt: string, fp: nat, sp: nat, t: TmValues)
    requires fp + 1 < |fmt| && fmt[fp] == '%' && !Specifier(fmt[fp + 1]) && sp < |s|
    ensures ParseFrom(s, fmt, fp, sp, t) == Outcome(-1, t, fp, sp)
  {
  }

  /** Two digits read by %y give a year from 1969 to 2068 with those two
      digits as its last two: values up to 68 are taken as 20xx. */
  lemma TwoDigitYearWindow(s: string, p: nat)
    requires p + 2 <= |s| && IsDigit(s[p]) && IsDigit(s[p + 1])
    ensures Conversion(s, p, 'y').Some?
    ensures var c := Conversion(s, p, 'y').value;
      c.field == Year && 1969 <= 1900 + c.value <= 2068
      && (1900 + c.value) % 100 == 10 * (s[p] as int - '0' as int) + (s[p + 1] as int - '0' as int)
  {
    var b := Buf(s, p, 2);
    assert b == [s[p], s[p + 1]];
    TwoDigits(s[p], s[p + 1]);
    ScanDigits(b);
  }

  /** %m stores a month 01 .. 12 as 0 .. 11. */
  lemma MonthIsZeroBased(s: string, p: nat)
    requires p + 2 <= |s| && IsDigit(s[p]) && IsDigit(s[p + 1])
    requires var v := 10 * (s[p] as int - '0' as int) + (s[p + 1] as int - '0' as int); 1 <= v <= 12
    ensures Conversion(s, p, 'm').Some?
    ensures var c := Conversion(s, p, 'm').value;
      c.field == Month && 0 <= c.value <= 11
      && c.value == 10 * (s[p] as int - '0' as int) + (s[p + 1] as int - '0' as int) - 1
  {
    var b := Buf(s, p, 2);
    assert b == [s[p], s[p + 1]];
    TwoDigits(s[p], s[p + 1]);
    ScanDigits(b);
  }

  /** The value of four digits. */
  function Digits4(s: string, p: nat): int
    requires p + 4 <= |s|
  {
    1000 * (s[p] as int - '0' as int) + 100 * (s[p + 1] as int - '0' as int)
    + 10 * (s[p + 2] as int - '0' as int) + (s[p + 3] as int - '0' as int)
  }

  /** %Y stores the four-digit year less 1900 and advances four characters:
      "2006" stores 106. */
  lemma {:induction false} FourDigitYear(s: string, p: nat)
    requires p + 4 <= |s|
    requires IsDigit(s[p]) && IsDigit(s[p + 1]) && IsDigit(s[p + 2]) && IsDigit(s[p + 3])
    ensures Conversion(s, p, 'Y') == Some(Conv(Year, Digits4(s, p) - 1900, 4))
  {
    var b := Buf(s, p, 4);
    assert b == [s[p], s[p + 1]] + [s[p + 2]] + [s[p + 3]];
    TwoDigits(s[p], s[p + 1]);
    ValueSnoc([s[p], s[p + 1]], s[p + 2]);
    ValueSnoc([s[p], s[p + 1]] + [s[p + 2]], s[p + 3]);
    ScanDigits(b);
  }

  /** The field each two-digit specifier other than %y and %m writes. */
  function PlainField(conv: char): TmField
    requires conv == 'd' || conv == 'H' || conv == 'M' || conv == 'S'
  {
    match conv
    case 'd' => MonthDay
    case 'H' => Hour
    case 'M' => Minute
    case 'S' => Second
  }

  /** %d, %H, %M and %S store their two digits as they stand, with no
      offset, and advance two characters. */
  lemma {:induction false} TwoDigitFieldsStoredAsIs(s: string, p: nat, conv: char)
    requires conv == 'd' || conv == 'H' || conv == 'M' || conv == 'S'
    requires p + 2 <= |s| && IsDigit(s[p]) && IsDigit(s[p + 1])
    ensures Conversion(s, p, conv)
      == Some(Conv(PlainField(conv), 10 * (s[p] as int - '0' as int) + (s[p + 1] as int - '0' as int), 2))
  {
    var b := Buf(s, p, 2);
    assert b == [s[p], s[p + 1]];
    TwoDigits(s[p], s[p + 1]);
    ScanDigits(b);
  }

  /** %j advances over three characters but takes its value from all the
      digits that follow: "0451200" stores day 451199, not 44. */
  lemma DayOfYearReadsPastItsField()
    ensures Conversion("0451200", 0, 'j') == Some(Conv(YearDay, 451199, 3))
    ensures Buf("0451200", 0, 3) == "045"
  {
    TwoDigits('0', '4');
    assert "04" == ['0', '4'];
    ValueSnoc("04", '5');
    assert "045" == "04" + ['5'];
    ValueSnoc("045", '1');
    assert "0451" == "045" + ['1'];
    ValueSnoc("0451", '2');
    assert "04512" == "0451" + ['2'];
    ValueSnoc("04512", '0');
    assert "045120" == "04512" + ['0'];
    ValueSnoc("045120", '0');
    var s := "0451200";
    assert s == "045120" + ['0'];
    ScanDigits(s);
    assert s[0..] == s;
  }

  // ---- The check after the loop ----

  /** The check the code evidently means after the loop: the string ran
      out while the rest of the format still holds a conversion. */
  function ParseChecked(s: string, fmt: string, t: TmValues): (o: Outcome)
    ensures o.result == 0 || o.result == -1
    ensures o.result == 0 ==> o.fp <= |fmt| && '%' !in fmt[o.fp..]
    ensures o.tm == Parse(s, fmt, t).tm
  {
    var o := Parse(s, fmt, t);
    if o.result == 0 && o.sp >= |s| && '%' in fmt[o.fp..] then o.(result := -1) else o
  }

  /** As written, a string that ends before the format does is accepted
      even when the format still asks for a month. */
  lemma ShortStringAccepted(t: TmValues)
    ensures Parse("2006", "%Y%m", t) == Outcome(0, t.(year := 106), 2, 4)
    ensures '%' in "%Y%m"[2..]
  {
    TwoDigits('2', '0');
    assert "20" == ['2', '0'];
    ValueSnoc("20", '0');
    assert "200" == "20" + ['0'];
    ValueSnoc("200", '6');
    var s := "2006";
    assert s == "200" + ['6'];
    ScanDigits(s);
    assert Buf(s, 0, 4) == s;
    assert "%Y%m"[2..][0] == '%';
  }

  /** With the check the same input is rejected. */
  lemma ShortStringRejected(t: TmValues)
    ensures ParseChecked("2006", "%Y%m", t).result == -1
  {
    ShortStringAccepted(t);
  }
}
