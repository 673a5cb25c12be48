/** The timestamps of the signing scheme: a UTC date-time at whole-second
    precision, written and read with the fixed pattern
    `%Y-%m-%dT%H:%M:%SZ` (`YYYY-MM-DDTHH:MM:SSZ`, the `Z`-only,
    no-fraction form of an RFC 3339 date-time), and its position on a
    seconds scale for freshness arithmetic. */
module Timestamps {
  import opened Wrappers

  /** A naive UTC `datetime` with its microseconds at zero. */
  datatype DateTime = DateTime(year: int, month: int, day: int, hour: int, minute: int, second: int)
  {
    /** The ranges Python's `datetime` accepts (years 1 to 9999). */
    predicate Valid()
    {
      && 1 <= year <= 9999
      && 1 <= month <= 12
      && 1 <= day <= DaysInMonth(year, month)
      && 0 <= hour < 24
      && 0 <= minute < 60
      && 0 <= second < 60
    }
  }

  /** Gregorian leap years, extended backwards to year 1. */
  predicate IsLeap(year: int)
  {
    year % 4 == 0 && (year % 100 != 0 || year % 400 == 0)
  }

  function DaysInMonth(year: int, month: int): (n: int)
    requires 1 <= month <= 12
    ensures 28 <= n <= 31
  {
    if month == 2 then (if IsLeap(year) then 29 else 28)
    else if month == 4 || month == 6 || month == 9 || month == 11 then 30
    else 31
  }

  // ----- Digits -----

  predicate IsDigit(c: char)
  {
    '0' <= c <= '9'
  }

  function DigitChar(n: int): (c: char)
    requires 0 <= n < 10
    ensures IsDigit(c)
  {
    ('0' as int + n) as char
  }

  function DigitValue(c: char): (n: int)
    requires IsDigit(c)
    ensures 0 <= n < 10 && DigitChar(n) == c
  {
    c as int - '0' as int
  }

  /** `n` in two decimal digits, zero-padded (`%m`, `%d`, `%H`, `%M`, `%S`). */
  function Pad2(n: int): (s: string)
    requires 0 <= n < 100
    ensures |s| == 2 && IsDigit(s[0]) && IsDigit(s[1])
  {
    [DigitChar(n / 10), DigitChar(n % 10)]
  }

  /** `n` in four decimal digits, zero-padded (`%Y`). */
  function Pad4(n: int): (s: string)
    requires 0 <= n < 10000
    ensures |s| == 4 && IsDigit(s[0]) && IsDigit(s[1]) && IsDigit(s[2]) && IsDigit(s[3])
  {
    Pad2(n / 100) + Pad2(n % 100)
  }

  predicate Digits2(s: string, i: int)
  {
    0 <= i && i + 2 <= |s| && IsDigit(s[i]) && IsDigit(s[i + 1])
  }

  /** The number written by the two digits at `s[i]`, `s[i + 1]`. */
  function Number2(s: string, i: int): (n: int)
    requires Digits2(s, i)
    ensures 0 <= n < 100 && Pad2(n) == s[i..i + 2]
  {
    10 * DigitValue(s[i]) + DigitValue(s[i + 1])
  }

  /** The number written by the four digits starting at `s[i]`. */
  function Number4(s: string, i: int): (n: int)
    requires Digits2(s, i) && Digits2(s, i + 2)
    ensures 0 <= n < 10000 && Pad4(n) == s[i..i + 4]
  {
    var hi, lo := Number2(s, i), Number2(s, i + 2);
    assert (100 * hi + lo) / 100 == hi && (100 * hi + lo) % 100 == lo;
    assert s[i..i + 4] == s[i..i + 2] + s[i + 2..i + 4];
    100 * hi + lo
  }

  lemma Pad2Number(n: int)
    requires 0 <= n < 100
    ensures Digits2(Pad2(n), 0) && Number2(Pad2(n), 0) == n
  {
  }

  lemma Pad4Number(n: int)
    requires 0 <= n < 10000
    ensures Digits2(Pad4(n), 0) && Digits2(Pad4(n), 2) && Number4(Pad4(n), 0) == n
  {
    var s := Pad4(n);
    Pad2Number(n / 100);
    Pad2Number(n % 100);
    assert s[2..4] == Pad2(n % 100);
    assert Number2(s, 2) == Number2(Pad2(n % 100), 0);
  }

  // ----- The text format -----

  /** The shape `DDDD-DD-DDTDD:DD:DDZ` of `%Y-%m-%dT%H:%M:%SZ`, each `D` a
      decimal digit. */
  predicate WellShaped(s: string)
  {
    && |s| == 20
    && Digits2(s, 0) && Digits2(s, 2) && s[4] == '-'
    && Digits2(s, 5) && s[7] == '-'
    && Digits2(s, 8) && s[10] == 'T'
    && Digits2(s, 11) && s[13] == ':'
    && Digits2(s, 14) && s[16] == ':'
    && Digits2(s, 17) && s[19] == 'Z'
  }

  /** The fields a well-shaped text spells out, valid or not. */
  function FieldsOf(s: string): DateTime
    requires WellShaped(s)
  {
    DateTime(Number4(s, 0), Number2(s, 5), Number2(s, 8), Number2(s, 11), Number2(s, 14), Number2(s, 17))
  }

  /** `format_datetime_iso(d)`, that is `d.strftime('%Y-%m-%dT%H:%M:%SZ')`:
      twenty characters of the fixed shape, none of them a `.` (so the
      text can sit between the dots of a credential string). */
  function FormatDateTime(d: DateTime): (s: string)
    requires d.Valid()
    ensures WellShaped(s)
    ensures '.' !in s
  {
    var y, mo, da := Pad4(d.year), Pad2(d.month), Pad2(d.day);
    var h, mi, se := Pad2(d.hour), Pad2(d.minute), Pad2(d.second);
    var s := [y[0], y[1], y[2], y[3], '-', mo[0], mo[1], '-', da[0], da[1], 'T',
              h[0], h[1], ':', mi[0], mi[1], ':', se[0], se[1], 'Z'];
    WellShapedDotFree(s);
    s
  }

  /** No character of the fixed shape is a `.`. */
  lemma WellShapedDotFree(s: string)
    requires WellShaped(s)
    ensures '.' !in s
  {
  }

  /** The fields of a formatted date-time read back as the date-time. */
  lemma FieldsOfFormat(d: DateTime)
    requires d.Valid()
    ensures FieldsOf(FormatDateTime(d)) == d
  {
    var s := FormatDateTime(d);
    Pad4Number(d.year);
    assert s[0..4] == Pad4(d.year);
    assert Number4(s, 0) == Number4(Pad4(d.year), 0);
    Pad2Number(d.month);
    assert s[5..7] == Pad2(d.month);
    assert Number2(s, 5) == Number2(Pad2(d.month), 0);
    Pad2Number(d.day);
    assert s[8..10] == Pad2(d.day);
    assert Number2(s, 8) == Number2(Pad2(d.day), 0);
    Pad2Number(d.hour);
    assert s[11..13] == Pad2(d.hour);
    assert Number2(s, 11) == Number2(Pad2(d.hour), 0);
    Pad2Number(d.minute);
    assert s[14..16] == Pad2(d.minute);
    assert Number2(s, 14) == Number2(Pad2(d.minute), 0);
    Pad2Number(d.second);
    assert s[17..19] == Pad2(d.second);
    assert Number2(s, 17) == Number2(Pad2(d.second), 0);
  }

  /** A well-shaped text is the formatting of the fields it spells out,
      when those fields make a valid date-time. */
  lemma FormatFieldsOf(s: string)
    requires WellShaped(s) && FieldsOf(s).Valid()
    ensures FormatDateTime(FieldsOf(s)) == s
  {
    var d := FieldsOf(s);
    var t := FormatDateTime(d);
    assert t[0..4] == Pad4(d.year) == s[0..4];
    assert t[5..7] == Pad2(d.month) == s[5..7];
    assert t[8..10] == Pad2(d.day) == s[8..10];
    assert t[11..13] == Pad2(d.hour) == s[11..13];
    assert t[14..16] == Pad2(d.minute) == s[14..16];
    assert t[17..19] == Pad2(d.second) == s[17..19];
    assert forall i :: 0 <= i < 20 ==> t[i] == s[i] by {
      forall i | 0 <= i < 20 ensures t[i] == s[i] {
        if i < 4 { assert t[i] == t[0..4][i]; assert s[i] == s[0..4][i]; }
        else if 5 <= i < 7 { assert t[i] == t[5..7][i - 5]; assert s[i] == s[5..7][i - 5]; }
        else if 8 <= i < 10 { assert t[i] == t[8..10][i - 8]; assert s[i] == s[8..10][i - 8]; }
        else if 11 <= i < 13 { assert t[i] == t[11..13][i - 11]; assert s[i] == s[11..13][i - 11]; }
        else if 14 <= i < 16 { assert t[i] == t[14..16][i - 14]; assert s[i] == s[14..16][i - 14]; }
        else if 17 <= i < 19 { assert t[i] == t[17..19][i - 17]; assert s[i] == s[17..19][i - 17]; }
      }
    }
  }

  /** `parse_datetime_iso(s)`, that is `datetime.strptime(s, '%Y-%m-%dT%H:%M:%SZ')`
      on canonical input: `None` stands for the `ValueError`. Whatever it
      accepts is a valid date-time whose formatting is `s` itself, so the
      server re-signs exactly the text the client sent. */
  function ParseDateTime(s: string): (r: Option<DateTime>)
    ensures r.Some? ==> r.value.Valid() && FormatDateTime(r.value) == s
    ensures !WellShaped(s) ==> r.None?
  {
    if WellShaped(s) && FieldsOf(s).Valid() then
      FormatFieldsOf(s);
      Some(FieldsOf(s))
    else
      None
  }

  /** Reading back what was written gives the same date-time; with the
      postcondition of ParseDateTime, the parser accepts exactly the texts
      that FormatDateTime produces. */
  lemma ParseFormat(d: DateTime)
    requires d.Valid()
    ensures ParseDateTime(FormatDateTime(d)) == Some(d)
  {
    FieldsOfFormat(d);
  }

  /** Formatting is one-to-one on valid date-times. */
  lemma FormatInjective(d1: DateTime, d2: DateTime)
    requires d1.Valid() && d2.Valid()
    requires FormatDateTime(d1) == FormatDateTime(d2)
    ensures d1 == d2
  {
    ParseFormat(d1);
    ParseFormat(d2);
  }

  // ----- Position on the seconds scale -----

  /** Days in the years before `year` (Python's `_days_before_year`). */
  function DaysBeforeYear(year: int): int
  {
    var y := year - 1;
    y * 365 + y / 4 - y / 100 + y / 400
  }

  /** Days in the months of `year` before `month` (Python's `_days_before_month`). */
  function DaysBeforeMonth(year: int, month: int): int
    requires 1 <= month <= 12
  {
    [0, 31, 59, 90, 120, 151, 181, 212, 243, 273, 304, 334][month - 1]
      + (if month > 2 && IsLeap(year) then 1 else 0)
  }

  /** `d.toordinal()`: 0001-01-01 is day 1. */
  function Ordinal(d: DateTime): int
    requires d.Valid()
  {
    DaysBeforeYear(d.year) + DaysBeforeMonth(d.year, d.month) + d.day
  }

  /** Seconds from 0001-01-01T00:00:00 to `d`: the scale on which Python
      subtracts two `datetime`s. */
  function InstantOf(d: DateTime): int
    requires d.Valid()
  {
    (Ordinal(d) - 1) * 86400 + d.hour * 3600 + d.minute * 60 + d.second
  }

  /** Days in `year`. */
  function DaysInYear(year: int): int
  {
    if IsLeap(year) then 366 else 365
  }

  /** Chronological order of date-times: by year, then month, day, hour,
      minute and second. */
  predicate Before(d1: DateTime, d2: DateTime)
  {
    if d1.year != d2.year then d1.year < d2.year
    else if d1.month != d2.month then d1.month < d2.month
    else if d1.day != d2.day then d1.day < d2.day
    else if d1.hour != d2.hour then d1.hour < d2.hour
    else if d1.minute != d2.minute then d1.minute < d2.minute
    else d1.second < d2.second
  }

  /** Each year adds its own length to the days before it. */
  lemma DaysBeforeNextYear(year: int)
    ensures DaysBeforeYear(year + 1) == DaysBeforeYear(year) + DaysInYear(year)
  {
    var y := year - 1;
    Multiples4Step(y);
    Multiples100Step(y);
    Multiples400Step(y);
    CenturyYears(year);
    var a, b, c := year / 4 - y / 4, year / 100 - y / 100, year / 400 - y / 400;
    assert DaysBeforeYear(year + 1) - DaysBeforeYear(year) == 365 + a - b + c;
    assert IsLeap(year) <==> a == 1 && (b == 0 || c == 1);
  }

  /** A multiple of 400 is a multiple of 100, which is a multiple of 4. */
  lemma CenturyYears(year: int)
    ensures year % 400 == 0 ==> year % 100 == 0
    ensures year % 100 == 0 ==> year % 4 == 0
  {
  }

  /** Counting multiples of 4, 100 and 400: one step up crosses a multiple
      exactly when it lands on one. */
  lemma Multiples4Step(y: int)
    ensures (y + 1) / 4 == y / 4 + (if (y + 1) % 4 == 0 then 1 else 0)
  {
  }

  lemma Multiples100Step(y: int)
    ensures (y + 1) / 100 == y / 100 + (if (y + 1) % 100 == 0 then 1 else 0)
  {
  }

  lemma Multiples400Step(y: int)
    ensures (y + 1) / 400 == y / 400 + (if (y + 1) % 400 == 0 then 1 else 0)
  {
  }

  /** A later year starts no earlier than the end of an earlier one. */
  lemma {:induction false} DaysBeforeLaterYear(y1: int, y2: int)
    requires y1 < y2
    ensures DaysBeforeYear(y1) + DaysInYear(y1) <= DaysBeforeYear(y2)
    decreases y2 - y1
  {
    DaysBeforeNextYear(y1);
    if y1 + 1 < y2 {
      DaysBeforeLaterYear(y1 + 1, y2);
    }
  }

  /** A month ends where the next one starts, and the last one ends with
      the year. */
  lemma MonthEnds(year: int, month: int)
    requires 1 <= month <= 12
    ensures month < 12 ==> DaysBeforeMonth(year, month) + DaysInMonth(year, month) == DaysBeforeMonth(year, month + 1)
    ensures month == 12 ==> DaysBeforeMonth(year, month) + DaysInMonth(year, month) == DaysInYear(year)
  {
  }

  /** A later month of the same year starts no earlier than the end of an
      earlier one. */
  lemma {:induction false} DaysBeforeLaterMonth(year: int, m1: int, m2: int)
    requires 1 <= m1 < m2 <= 12
    ensures DaysBeforeMonth(year, m1) + DaysInMonth(year, m1) <= DaysBeforeMonth(year, m2)
    decreases m2 - m1
  {
    MonthEnds(year, m1);
    if m1 + 1 < m2 {
      MonthEnds(year, m1 + 1);
      DaysBeforeLaterMonth(year, m1 + 1, m2);
    }
  }

  /** Every valid date lies inside its own year. */
  lemma DayWithinYear(d: DateTime)
    requires d.Valid()
    ensures DaysBeforeMonth(d.year, d.month) + d.day <= DaysInYear(d.year)
  {
    MonthEnds(d.year, d.month);
    if d.month < 12 {
      DaysBeforeLaterMonth(d.year, d.month, 12);
      MonthEnds(d.year, 12);
    }
  }

  /** The seconds scale keeps chronological order: an earlier date-time
      lies at a smaller instant. In particular two different valid
      date-times never share an instant. */
  lemma InstantOrder(d1: DateTime, d2: DateTime)
    requires d1.Valid() && d2.Valid() && Before(d1, d2)
    ensures InstantOf(d1) < InstantOf(d2)
  {
    if d1.year != d2.year {
      DayWithinYear(d1);
      DaysBeforeLaterYear(d1.year, d2.year);
    } else if d1.month != d2.month {
      DaysBeforeLaterMonth(d1.year, d1.month, d2.month);
    }
    assert Ordinal(d1) < Ordinal(d2) || (Ordinal(d1) == Ordinal(d2) && d1.day == d2.day && d1.month == d2.month);
  }
}
