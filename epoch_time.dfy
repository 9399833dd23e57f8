/**
 * The two conversions of utils/helpers.py: a count of seconds since
 * 1970-01-01 00:00:00 UTC turned into a calendar date and time of the
 * proleptic Gregorian calendar, with no leap seconds (POSIX "Seconds Since
 * the Epoch", section 4.16 of the POSIX.1-2017 Base Definitions), and that
 * date and time written as `YYYY-MM-DD HH:MM:SS`.
 */
module EpochTime {
  import opened Wrappers

  const SecondsPerDay: nat := 86400

  /** The last second `datetime` can represent: 9999-12-31 23:59:59. */
  const MaxEpoch: nat := 253402300799

  // ---------------------------------------------------------------------
  // The calendar
  // ---------------------------------------------------------------------

  predicate IsLeap(y: int)
    ensures y % 4 != 0 ==> !IsLeap(y)
    ensures y % 400 == 0 ==> IsLeap(y)
  {
    y % 4 == 0 && (y % 100 != 0 || y % 400 == 0)
  }

  function DaysInYear(y: int): nat {
    if IsLeap(y) then 366 else 365
  }

  function DaysInMonth(y: int, m: int): (n: nat)
    requires 1 <= m <= 12
    ensures 28 <= n <= 31
    ensures n == 29 <==> m == 2 && IsLeap(y)
  {
    if m == 2 then (if IsLeap(y) then 29 else 28)
    else if m == 4 || m == 6 || m == 9 || m == 11 then 30
    else 31
  }

  /** Days of the year before the first of month `m`. */
  function DaysBeforeMonth(y: int, m: int): nat
    requires 1 <= m <= 12
  {
    var common :=
      if m == 1 then 0 else if m == 2 then 31 else if m == 3 then 59
      else if m == 4 then 90 else if m == 5 then 120 else if m == 6 then 151
      else if m == 7 then 181 else if m == 8 then 212 else if m == 9 then 243
      else if m == 10 then 273 else if m == 11 then 304 else 334;
    if m > 2 && IsLeap(y) then common + 1 else common
  }

  /** Days from 1970-01-01 to the first of January of year `y`. */
  function DaysBeforeYear(y: int): nat
    requires y >= 1970
    decreases y - 1970
  {
    if y == 1970 then 0 else DaysBeforeYear(y - 1) + DaysInYear(y - 1)
  }

  datatype Date = Date(year: int, month: int, day: int)

  predicate ValidDate(d: Date) {
    d.year >= 1970 && 1 <= d.month <= 12 && 1 <= d.day <= DaysInMonth(d.year, d.month)
  }

  /** The number of whole days from 1970-01-01 to `d`. */
  function DaysFromCivil(d: Date): (n: nat)
    requires ValidDate(d)
    ensures DaysBeforeYear(d.year) <= n < DaysBeforeYear(d.year + 1)
  {
    DaysBeforeYear(d.year) + DaysBeforeMonth(d.year, d.month) + d.day - 1
  }

  /** The months of a year follow one another and fill it. */
  lemma MonthsFill(y: int, m: int)
    requires 1 <= m <= 12
    ensures m < 12 ==> DaysBeforeMonth(y, m + 1) == DaysBeforeMonth(y, m) + DaysInMonth(y, m)
    ensures m == 12 ==> DaysBeforeMonth(y, m) + DaysInMonth(y, m) == DaysInYear(y)
  {
  }

  lemma MonthsOrdered(y: int, m1: int, m2: int)
    requires 1 <= m1 < m2 <= 12
    ensures DaysBeforeMonth(y, m1) + DaysInMonth(y, m1) <= DaysBeforeMonth(y, m2)
  {
  }

  lemma {:induction false} YearsOrdered(x: int, y: int)
    requires 1970 <= x < y
    ensures DaysBeforeYear(x) + DaysInYear(x) <= DaysBeforeYear(y)
    decreases y - x
  {
    if x + 1 < y {
      YearsOrdered(x + 1, y);
    }
  }

  /** The year and the day within it, `n` days after the first of January of `y`. */
  function YearFrom(y: int, n: nat): (r: (int, nat))
    requires y >= 1970
    ensures r.0 >= y && r.1 < DaysInYear(r.0)
    ensures DaysBeforeYear(r.0) + r.1 == DaysBeforeYear(y) + n
    decreases n
  {
    if n < DaysInYear(y) then (y, n) else YearFrom(y + 1, n - DaysInYear(y))
  }

  /** The month, from `m` on, holding day `n` (counted from 0) of year `y`. */
  function MonthFrom(y: int, n: nat, m: int): (r: int)
    requires 1 <= m <= 12 && DaysBeforeMonth(y, m) <= n < DaysInYear(y)
    ensures m <= r <= 12
    ensures DaysBeforeMonth(y, r) <= n < DaysBeforeMonth(y, r) + DaysInMonth(y, r)
    decreases 12 - m
  {
    MonthsFill(y, m);
    if n < DaysBeforeMonth(y, m) + DaysInMonth(y, m) then m else MonthFrom(y, n, m + 1)
  }

  /** The date `n` days after 1970-01-01. */
  function CivilFromDays(n: nat): (d: Date)
    ensures ValidDate(d) && DaysFromCivil(d) == n
    ensures DaysBeforeYear(d.year) <= n < DaysBeforeYear(d.year) + DaysInYear(d.year)
  {
    var (y, k) := YearFrom(1970, n);
    var m := MonthFrom(y, k, 1);
    Date(y, m, k - DaysBeforeMonth(y, m) + 1)
  }

  /** Different valid dates are different numbers of days from the epoch. */
  lemma CivilInjective(a: Date, b: Date)
    requires ValidDate(a) && ValidDate(b) && DaysFromCivil(a) == DaysFromCivil(b)
    ensures a == b
  {
    MonthsFill(a.year, 12);
    MonthsFill(b.year, 12);
    if a.month < 12 {
      MonthsOrdered(a.year, a.month, 12);
    }
    if b.month < 12 {
      MonthsOrdered(b.year, b.month, 12);
    }
    if a.year < b.year {
      YearsOrdered(a.year, b.year);
    } else if b.year < a.year {
      YearsOrdered(b.year, a.year);
    } else if a.month < b.month {
      MonthsOrdered(a.year, a.month, b.month);
    } else if b.month < a.month {
      MonthsOrdered(a.year, b.month, a.month);
    }
  }

  /** Counting the days of a date and converting back gives the date again. */
  lemma CivilRoundTrip(d: Date)
    requires ValidDate(d)
    ensures CivilFromDays(DaysFromCivil(d)) == d
  {
    CivilInjective(CivilFromDays(DaysFromCivil(d)), d);
  }

  /** The day after `d`, stated on the calendar alone. */
  function NextDay(d: Date): (r: Date)
    requires ValidDate(d)
    ensures ValidDate(r)
  {
    if d.day < DaysInMonth(d.year, d.month) then Date(d.year, d.month, d.day + 1)
    else if d.month < 12 then Date(d.year, d.month + 1, 1)
    else Date(d.year + 1, 1, 1)
  }

  lemma NextDayIsOneMore(d: Date)
    requires ValidDate(d)
    ensures DaysFromCivil(NextDay(d)) == DaysFromCivil(d) + 1
  {
    MonthsFill(d.year, d.month);
  }

  /** One more day since the epoch is the next day of the calendar. */
  lemma CivilNext(n: nat)
    ensures CivilFromDays(n + 1) == NextDay(CivilFromDays(n))
  {
    NextDayIsOneMore(CivilFromDays(n));
    CivilInjective(CivilFromDays(n + 1), NextDay(CivilFromDays(n)));
  }

  // ---------------------------------------------------------------------
  // Counting leap years, to place year 10000
  // ---------------------------------------------------------------------

  /** Leap years in 1..y, by the Gregorian rule. */
  function LeapsThrough(y: nat): int {
    y / 4 - y / 100 + y / 400
  }

  lemma DivStep(y: int)
    requires y >= 1
    ensures y / 4 - (y - 1) / 4 == if y % 4 == 0 then 1 else 0
    ensures y / 100 - (y - 1) / 100 == if y % 100 == 0 then 1 else 0
    ensures y / 400 - (y - 1) / 400 == if y % 400 == 0 then 1 else 0
  {
  }

  lemma ModNest(y: int)
    ensures y % 400 == 0 ==> y % 100 == 0
    ensures y % 100 == 0 ==> y % 4 == 0
  {
  }

  lemma LeapStep(y: int)
    requires y >= 1
    ensures LeapsThrough(y) == LeapsThrough(y - 1) + (if IsLeap(y) then 1 else 0)
  {
    DivStep(y);
    ModNest(y);
  }

  /** A closed form for the days before a year: 365 per year plus one per leap year. */
  lemma {:induction false} DaysBeforeYearClosed(y: int)
    requires y >= 1970
    ensures DaysBeforeYear(y) == 365 * (y - 1970) + LeapsThrough(y - 1) - LeapsThrough(1969)
    decreases y - 1970
  {
    if y > 1970 {
      DaysBeforeYearClosed(y - 1);
      LeapStep(y - 1);
    }
  }

  /** The last year `datetime` can represent, and its last day counted from the epoch. */
  const MaxYear: int := 9999
  const MaxDay: nat := 2932896

  lemma DaysBeforeEnd()
    ensures DaysBeforeYear(MaxYear) == MaxDay - 364
    ensures DaysBeforeYear(MaxYear + 1) == MaxDay + 1
  {
    DaysBeforeYearClosed(MaxYear + 1);
    DaysBeforeYearClosed(MaxYear);
  }

  /** The date of day `n` is before year 10000 exactly when `n` is at most the last day of 9999. */
  lemma YearBound(n: nat)
    ensures CivilFromDays(n).year <= MaxYear <==> n <= MaxDay
  {
    var d := CivilFromDays(n);
    DaysBeforeEnd();
    if d.year < MaxYear + 1 {
      YearsOrdered(d.year, MaxYear + 1);
    } else if d.year > MaxYear + 1 {
      YearsOrdered(MaxYear + 1, d.year);
    }
  }

  // ---------------------------------------------------------------------
  // Date and time of an epoch
  // ---------------------------------------------------------------------

  datatype DateTime = DateTime(date: Date, hour: int, minute: int, second: int)

  predicate ValidDateTime(t: DateTime) {
    ValidDate(t.date) && 0 <= t.hour < 24 && 0 <= t.minute < 60 && 0 <= t.second < 60
  }

  /** `datetime.utcfromtimestamp(e)`, before the check on the year. */
  function FromEpoch(e: nat): (t: DateTime)
    ensures ValidDateTime(t)
  {
    DateTime(CivilFromDays(e / SecondsPerDay), (e % SecondsPerDay) / 3600, (e % 3600) / 60, e % 60)
  }

  /** Seconds since the epoch of a date and time: the inverse of `FromEpoch`. */
  function ToEpoch(t: DateTime): (e: nat)
    requires ValidDateTime(t)
    ensures e / SecondsPerDay == DaysFromCivil(t.date)
    ensures e % SecondsPerDay == t.hour * 3600 + t.minute * 60 + t.second
  {
    DivModOf(DaysFromCivil(t.date), t.hour * 3600 + t.minute * 60 + t.second, SecondsPerDay);
    DaysFromCivil(t.date) * SecondsPerDay + t.hour * 3600 + t.minute * 60 + t.second
  }

  lemma EpochRoundTrip(e: nat)
    ensures ToEpoch(FromEpoch(e)) == e
  {
    var s := e % SecondsPerDay;
    assert e == (e / SecondsPerDay) * SecondsPerDay + s;
    assert s == (s / 3600) * 3600 + s % 3600;
    assert e % 3600 == s % 3600;
    assert e % 60 == (e % 3600) % 60;
  }

  lemma DivModOf(q: nat, r: nat, k: nat)
    requires r < k
    ensures (q * k + r) / k == q && (q * k + r) % k == r
  {
    var a := q * k + r;
    var d := a / k - q;
    assert d * k == r - a % k;
  }

  lemma DateTimeRoundTrip(t: DateTime)
    requires ValidDateTime(t)
    ensures FromEpoch(ToEpoch(t)) == t
  {
    var n := DaysFromCivil(t.date);
    var s := t.hour * 3600 + t.minute * 60 + t.second;
    DivModOf(n, s, SecondsPerDay);
    DivModOf(n * 24 + t.hour, t.minute * 60 + t.second, 3600);
    DivModOf(n * 1440 + t.hour * 60 + t.minute, t.second, 60);
    CivilRoundTrip(t.date);
  }

  /** Epochs on the same day since the epoch fall on the same date. */
  lemma SameDaySameDate(e1: nat, e2: nat)
    requires e1 / SecondsPerDay == e2 / SecondsPerDay
    ensures FromEpoch(e1).date == FromEpoch(e2).date
  {
  }

  /** Adding a day of seconds moves to the next date and keeps the time of day. */
  lemma AddOneDay(e: nat)
    ensures FromEpoch(e + SecondsPerDay) == FromEpoch(e).(date := NextDay(FromEpoch(e).date))
  {
    assert (e + SecondsPerDay) / SecondsPerDay == e / SecondsPerDay + 1;
    assert (e + SecondsPerDay) % SecondsPerDay == e % SecondsPerDay;
    assert (e + SecondsPerDay) % 3600 == e % 3600;
    assert (e + SecondsPerDay) % 60 == e % 60;
    CivilNext(e / SecondsPerDay);
  }

  /** `datetime` refuses years after 9999: that is exactly the epochs after `MaxEpoch`. */
  lemma InRange(e: nat)
    ensures FromEpoch(e).date.year <= MaxYear <==> e <= MaxEpoch
  {
    YearBound(e / SecondsPerDay);
  }

  /** The last representable second is 9999-12-31 23:59:59. */
  lemma MaxEpochIsLastSecond()
    ensures ToEpoch(DateTime(Date(MaxYear, 12, 31), 23, 59, 59)) == MaxEpoch
    ensures FromEpoch(MaxEpoch) == DateTime(Date(MaxYear, 12, 31), 23, 59, 59)
  {
    DaysBeforeEnd();
    DateTimeRoundTrip(DateTime(Date(MaxYear, 12, 31), 23, 59, 59));
  }

  // ---------------------------------------------------------------------
  // Zero-padded decimal fields
  // ---------------------------------------------------------------------

  function Pow10(w: nat): (p: nat)
    ensures p >= 1
  {
    if w == 0 then 1 else 10 * Pow10(w - 1)
  }

  predicate IsDigit(c: char) {
    '0' <= c <= '9'
  }

  function DigitChar(d: nat): (c: char)
    requires d < 10
    ensures IsDigit(c)
  {
    (48 + d) as char
  }

  /** `n` written in exactly `w` decimal digits, with leading zeros. */
  function Pad(n: nat, w: nat): (s: string)
    requires n < Pow10(w)
    ensures |s| == w && forall i :: 0 <= i < |s| ==> IsDigit(s[i])
  {
    if w == 0 then [] else Pad(n / 10, w - 1) + [DigitChar(n % 10)]
  }

  /** The value of a string read as decimal digits. */
  function ParseNat(s: string): int {
    if s == [] then 0 else ParseNat(s[..|s| - 1]) * 10 + (s[|s| - 1] as int - 48)
  }

  lemma {:induction false} ParsePad(n: nat, w: nat)
    requires n < Pow10(w)
    ensures ParseNat(Pad(n, w)) == n
  {
    if w > 0 {
      ParsePad(n / 10, w - 1);
      var s := Pad(n, w);
      assert s[..|s| - 1] == Pad(n / 10, w - 1);
    }
  }

  // ---------------------------------------------------------------------
  // The two helpers
  // ---------------------------------------------------------------------

  /** `str(date)`: `YYYY-MM-DD`. */
  function FormatDate(d: Date): (s: string)
    requires ValidDate(d) && d.year <= MaxYear
    ensures |s| == 10
  {
    Pad(d.year, 4) + "-" + Pad(d.month, 2) + "-" + Pad(d.day, 2)
  }

  /** `strftime('%Y-%m-%d %H:%M:%S')`. */
  function FormatDateTime(t: DateTime): (s: string)
    requires ValidDateTime(t) && t.date.year <= MaxYear
    ensures |s| == 19
  {
    FormatDate(t.date) + " " + Pad(t.hour, 2) + ":" + Pad(t.minute, 2) + ":" + Pad(t.second, 2)
  }

  /** `epoch_to_utc`: None where `datetime` raises because the year is past 9999. */
  function EpochToUtc(e: nat): (r: Option<string>)
    ensures r.Some? <==> e <= MaxEpoch
    ensures r.Some? ==> |r.value| == 19
  {
    InRange(e);
    var t := FromEpoch(e);
    if t.date.year > MaxYear then None else Some(FormatDateTime(t))
  }

  /** `epoch_to_date`: the date part alone, with the same range. */
  function EpochToDate(e: nat): (r: Option<Date>)
    ensures r.Some? <==> e <= MaxEpoch
    ensures r.Some? ==> ValidDate(r.value) && DaysFromCivil(r.value) == e / SecondsPerDay
  {
    InRange(e);
    var d := CivilFromDays(e / SecondsPerDay);
    if d.year > MaxYear then None else Some(d)
  }

  /** The shape of every string `epoch_to_utc` returns. */
  predicate UtcShape(s: string) {
    && |s| == 19
    && s[4] == '-' && s[7] == '-' && s[10] == ' ' && s[13] == ':' && s[16] == ':'
    && forall i :: 0 <= i < 19 && i !in {4, 7, 10, 13, 16} ==> IsDigit(s[i])
  }

  /** Reads a `YYYY-MM-DD HH:MM:SS` string back; None if it is not one or names no real time. */
  function ParseUtc(s: string): Option<DateTime> {
    if !UtcShape(s) then None
    else
      var t := DateTime(Date(ParseNat(s[0..4]), ParseNat(s[5..7]), ParseNat(s[8..10])),
                        ParseNat(s[11..13]), ParseNat(s[14..16]), ParseNat(s[17..19]));
      if ValidDateTime(t) then Some(t) else None
  }

  /** Seconds since the epoch of a `YYYY-MM-DD HH:MM:SS` string. */
  function UtcToEpoch(s: string): Option<nat> {
    match ParseUtc(s)
    case None => None
    case Some(t) => Some(ToEpoch(t))
  }

  lemma FormatFields(t: DateTime)
    requires ValidDateTime(t) && t.date.year <= MaxYear
    ensures UtcShape(FormatDateTime(t))
    ensures var s := FormatDateTime(t);
      && s[0..4] == Pad(t.date.year, 4) && s[5..7] == Pad(t.date.month, 2) && s[8..10] == Pad(t.date.day, 2)
      && s[11..13] == Pad(t.hour, 2) && s[14..16] == Pad(t.minute, 2) && s[17..19] == Pad(t.second, 2)
  {
    var s := FormatDateTime(t);
    var y, mo, d := Pad(t.date.year, 4), Pad(t.date.month, 2), Pad(t.date.day, 2);
    var h, mi, se := Pad(t.hour, 2), Pad(t.minute, 2), Pad(t.second, 2);
    assert s == y + "-" + mo + "-" + d + " " + h + ":" + mi + ":" + se;
    forall i | 0 <= i < 19 && i !in {4, 7, 10, 13, 16} ensures IsDigit(s[i]) {
      if i < 4 { assert s[i] == y[i]; }
      else if i < 7 { assert s[i] == mo[i - 5]; }
      else if i < 10 { assert s[i] == d[i - 8]; }
      else if i < 13 { assert s[i] == h[i - 11]; }
      else if i < 16 { assert s[i] == mi[i - 14]; }
      else { assert s[i] == se[i - 17]; }
    }
  }

  /** Reading back what was written gives the same date and time. */
  lemma FormatRoundTrip(t: DateTime)
    requires ValidDateTime(t) && t.date.year <= MaxYear
    ensures ParseUtc(FormatDateTime(t)) == Some(t)
  {
    FormatFields(t);
    ParsePad(t.date.year, 4);
    ParsePad(t.date.month, 2);
    ParsePad(t.date.day, 2);
    ParsePad(t.hour, 2);
    ParsePad(t.minute, 2);
    ParsePad(t.second, 2);
  }

  // ---------------------------------------------------------------------
  // What the helpers promise
  // ---------------------------------------------------------------------

  /** The epoch itself is midnight of 1970-01-01, with no offset. */
  lemma EpochZero()
    ensures EpochToUtc(0) == Some("1970-01-01 00:00:00")
  {
    DateTimeRoundTrip(DateTime(Date(1970, 1, 1), 0, 0, 0));
    assert FormatDateTime(DateTime(Date(1970, 1, 1), 0, 0, 0)) == "1970-01-01 00:00:00";
  }

  /** Defined exactly up to `MaxEpoch`, and then always 19 characters in the fixed shape. */
  lemma UtcDefinedShape(e: nat)
    ensures EpochToUtc(e).Some? <==> e <= MaxEpoch
    ensures EpochToUtc(e).Some? ==> UtcShape(EpochToUtc(e).value)
  {
    InRange(e);
    if e <= MaxEpoch {
      FormatFields(FromEpoch(e));
    }
  }

  /** The fields written are the calendar date of `e div 86400` and the time formulas. */
  lemma UtcFields(e: nat)
    requires e <= MaxEpoch
    ensures EpochToUtc(e).Some?
    ensures var s := EpochToUtc(e).value;
      var d := CivilFromDays(e / SecondsPerDay);
      && UtcShape(s)
      && ParseNat(s[0..4]) == d.year && ParseNat(s[5..7]) == d.month && ParseNat(s[8..10]) == d.day
      && 1 <= d.month <= 12 && 1 <= d.day <= DaysInMonth(d.year, d.month)
      && ParseNat(s[11..13]) == (e % SecondsPerDay) / 3600
      && ParseNat(s[14..16]) == (e % 3600) / 60
      && ParseNat(s[17..19]) == e % 60
  {
    InRange(e);
    FormatRoundTrip(FromEpoch(e));
  }

  /** The date helper agrees with the first ten characters of the string helper. */
  lemma DateIsPrefix(e: nat)
    ensures EpochToUtc(e).Some? <==> EpochToDate(e).Some?
    ensures EpochToUtc(e).Some? ==> EpochToUtc(e).value[..10] == FormatDate(EpochToDate(e).value)
  {
  }

  /** Epochs on the same day give the same date. */
  lemma SameDayDate(e1: nat, e2: nat)
    requires e1 / SecondsPerDay == e2 / SecondsPerDay
    ensures EpochToDate(e1) == EpochToDate(e2)
  {
  }

  /** A day of seconds later, the date is the next calendar day. */
  lemma DateAddOneDay(e: nat)
    requires e + SecondsPerDay <= MaxEpoch
    ensures EpochToDate(e).Some? && EpochToDate(e + SecondsPerDay) == Some(NextDay(EpochToDate(e).value))
  {
    AddOneDay(e);
    InRange(e);
    InRange(e + SecondsPerDay);
  }

  /** Reading the produced string back as seconds gives the original epoch. */
  lemma UtcRoundTrip(e: nat)
    requires e <= MaxEpoch
    ensures EpochToUtc(e).Some? && UtcToEpoch(EpochToUtc(e).value) == Some(e)
  {
    InRange(e);
    FormatRoundTrip(FromEpoch(e));
    EpochRoundTrip(e);
  }

  /** Every valid string for a time up to 9999 is produced by exactly its epoch. */
  lemma UtcOnto(t: DateTime)
    requires ValidDateTime(t) && t.date.year <= MaxYear
    ensures ToEpoch(t) <= MaxEpoch && EpochToUtc(ToEpoch(t)) == Some(FormatDateTime(t))
  {
    DateTimeRoundTrip(t);
    InRange(ToEpoch(t));
  }
}
