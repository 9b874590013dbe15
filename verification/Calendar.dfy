/** mktime and localtime of the C library, on 16-bit integers, against the Gregorian calendar. */
module Calendar {
  import opened Bytes
  import opened ShortInts

  // The calendar: what the functions are measured against.

  predicate IsLeapYear(year: int) {
    year % 4 == 0 && (year % 100 != 0 || year % 400 == 0)
  }

  const MONTH_LENGTH: seq<nat> := [31, 28, 31, 30, 31, 30, 31, 31, 30, 31, 30, 31]
  const MONTH_DAYS: seq<nat> := [0, 31, 59, 90, 120, 151, 181, 212, 243, 273, 304, 334]

  function YearDays(year: int): nat {
    if IsLeapYear(year) then 366 else 365
  }

  function DaysIn(year: int, month: nat): (d: nat)
    requires month < 12
    ensures 28 <= d <= 31
  {
    if month == 1 && IsLeapYear(year) then 29 else MONTH_LENGTH[month]
  }

  /** Days from the first of January of the year to the first of the month. */
  function MonthStart(year: int, month: nat): nat
    requires month <= 12
  {
    if month == 0 then 0 else MonthStart(year, month - 1) + DaysIn(year, month - 1)
  }

  /** Days from the first of January 1970 to the first of January of the year. */
  function YearStart(year: int): int
    decreases if year >= 1970 then year - 1970 else 1970 - year
  {
    if year == 1970 then 0
    else if year > 1970 then YearStart(year - 1) + YearDays(year - 1)
    else YearStart(year + 1) - YearDays(year)
  }

  /** The number of a day, counted from the first of January 1970; month 12 is January of the next year. */
  function DayNumber(year: int, month: nat, day: int): int {
    YearStart(year + month / 12) + MonthStart(year + month / 12, month % 12) + day - 1
  }

  /** The values of a broken-down time; year counts from 1900. */
  datatype Fields = Fields(sec: int, min: int, hour: int, mday: int, mon: int, year: int) {
    ghost predicate InRange() {
      && 0 <= sec < 60 && 0 <= min < 60 && 0 <= hour < 24
      && 0 <= mon < 12 && 1 <= mday <= DaysIn(1900 + year, mon)
    }
  }

  /** The seconds from the epoch to a broken-down time whose fields need not be in range. */
  function Instant(f: Fields): int
    requires f.mon >= 0
  {
    ((DayNumber(1900 + f.year, f.mon, f.mday) * 24 + f.hour) * 60 + f.min) * 60 + f.sec
  }

  lemma {:induction false} MonthStartTable(year: int, month: nat)
    requires month < 12
    ensures MonthStart(year, month) == MONTH_DAYS[month] + if month > 1 && IsLeapYear(year) then 1 else 0
  {
    if month > 0 {
      MonthStartTable(year, month - 1);
    }
  }

  lemma YearIsTwelveMonths(year: int)
    ensures MonthStart(year, 12) == YearDays(year)
  {
    MonthStartTable(year, 11);
  }

  lemma NextYear(year: int)
    ensures YearStart(year + 1) == YearStart(year) + YearDays(year)
  {
  }

  lemma {:induction false} YearStartMono(x: int, y: int)
    requires x <= y
    ensures YearStart(y) - YearStart(x) >= 365 * (y - x)
    decreases y - x
  {
    if x < y {
      NextYear(y - 1);
      YearStartMono(x, y - 1);
    }
  }

  /** A day of the month that exists lies in its year. */
  lemma InYear(year: int, month: nat, day: int)
    requires month < 12 && day <= DaysIn(year, month)
    ensures DayNumber(year, month, day) < YearStart(year + 1)
  {
    hide MonthStart, YearStart;
    MonthStartTable(year, month);
    NextYear(year);
  }

  /** The month after month 11 is January of the next year. */
  function After(year: int, month: nat): (int, nat)
    requires month < 12
  {
    if month < 11 then (year, month + 1) else (year + 1, 0)
  }

  /** Moving the days beyond a month into the next month names the same day. */
  lemma DaysCarried(year: int, month: nat, day: int)
    requires month < 12
    ensures var (y, m) := After(year, month); DayNumber(y, m, day - DaysIn(year, month)) == DayNumber(year, month, day)
  {
    hide IsLeapYear, YearDays, DaysIn, YearStart;
    YearIsTwelveMonths(year);
    NextYear(year);
    assert (year + 1) + 0 / 12 == year + 1;
  }

  /** Of two dates in range with the same day number neither is in an earlier year. */
  lemma SameYear(y1: int, m1: nat, d1: nat, y2: int, m2: nat, d2: nat)
    requires m1 < 12 && 1 <= d1 <= DaysIn(y1, m1) && m2 < 12 && 1 <= d2 <= DaysIn(y2, m2)
    requires DayNumber(y1, m1, d1) == DayNumber(y2, m2, d2)
    ensures y1 >= y2
  {
    hide IsLeapYear, YearDays, DaysIn, YearStart;
    if y1 < y2 {
      InYear(y1, m1, d1);
      YearStartMono(y1 + 1, y2);
      assert false;
    }
  }

  /** Nor in an earlier month. */
  lemma {:induction false} MonthStartMono(year: int, m1: nat, m2: nat)
    requires m1 < m2 <= 12
    ensures MonthStart(year, m1) + DaysIn(year, m1) <= MonthStart(year, m2)
  {
    if m1 < m2 - 1 {
      MonthStartMono(year, m1, m2 - 1);
    }
  }

  lemma SameDate(y1: int, m1: nat, d1: nat, y2: int, m2: nat, d2: nat)
    requires m1 < 12 && 1 <= d1 <= DaysIn(y1, m1) && m2 < 12 && 1 <= d2 <= DaysIn(y2, m2)
    requires DayNumber(y1, m1, d1) == DayNumber(y2, m2, d2)
    ensures y1 == y2 && m1 == m2 && d1 == d2
  {
    hide IsLeapYear, YearDays, DaysIn, YearStart, MonthStart;
    SameYear(y1, m1, d1, y2, m2, d2);
    SameYear(y2, m2, d2, y1, m1, d1);
    if m1 < m2 {
      MonthStartMono(y1, m1, m2);
    } else if m2 < m1 {
      MonthStartMono(y1, m2, m1);
    }
  }

  /** In-range fields are determined by the instant. */
  lemma InstantDetermines(f: Fields, g: Fields)
    requires f.InRange() && g.InRange() && Instant(f) == Instant(g)
    ensures f == g
  {
    hide DayNumber, DaysIn;
    var m := (DayNumber(1900 + f.year, f.mon, f.mday) * 24 + f.hour) * 60 + f.min;
    var n := (DayNumber(1900 + g.year, g.mon, g.mday) * 24 + g.hour) * 60 + g.min;
    assert m == n;
    SameDate(1900 + f.year, f.mon, f.mday, 1900 + g.year, g.mon, g.mday);
  }

  // The library functions.

  /** struct tm. */
  class Tm {
    var sec: int
    var min: int
    var hour: int
    var mday: int
    var mon: int
    var year: int
    var wday: int
    var yday: int
    var isdst: int

    constructor ()
      ensures Valid() && Broken() == Fields(0, 0, 0, 0, 0, 0)
    {
      sec, min, hour, mday, mon, year, wday, yday, isdst := 0, 0, 0, 0, 0, 0, 0, 0, 0;
    }

    ghost predicate Valid()
      reads this
    {
      Fits(sec) && Fits(min) && Fits(hour) && Fits(mday) && Fits(mon) && Fits(year)
    }

    function Broken(): Fields
      reads this
    {
      Fields(sec, min, hour, mday, mon, year)
    }
  }

  /** The time of day carried into the days. */
  function Carried(f: Fields): Fields {
    var m := Int16(f.min + Quo(f.sec, 60));
    var h := f.hour + Quo(m, 60);
    Fields(Rmd(f.sec, 60), Rmd(m, 60), Rmd(h, 24), f.mday + Quo(h, 24), f.mon, f.year)
  }

  /** The carried minutes, hours and days can be held. */
  ghost predicate TimeAccepted(f: Fields) {
    var m := Int16(f.min + Quo(f.sec, 60));
    var h := f.hour + Quo(m, 60);
    0 <= m && 0 <= h <= 32767 && 0 <= f.mday + Quo(h, 24) <= 32767
  }

  /** The year can be held, whatever the days add to it. */
  ghost predicate DateAccepted(year: int, mon: nat, mday: int) {
    0 <= year + mon / 12 <= 32767 && DayNumber(1900 + year, mon, mday) < YearStart(1900 + 32768)
  }

  /** What the carry of the seconds adds when it wraps: minutes below -32768 become positive. */
  function Wrapped(f: Fields): int {
    if f.min + Quo(f.sec, 60) < -32768 then 65536 * 60 else 0
  }

  lemma CarryKeepsInstant(f: Fields)
    requires f.mon >= 0 && TimeAccepted(f) && Fits(f.min) && Fits(f.sec)
    ensures Instant(Carried(f)) == Instant(f) + Wrapped(f)
  {
    hide DayNumber;
    var m := Int16(f.min + Quo(f.sec, 60));
    var h := f.hour + Quo(m, 60);
    DayPlus(1900 + f.year, f.mon, f.mday, Quo(h, 24));
    assert f.sec == 60 * Quo(f.sec, 60) + Rmd(f.sec, 60);
    assert Quo(f.sec, 60) >= -546;
    assert m == 60 * Quo(m, 60) + Rmd(m, 60);
    assert h == 24 * Quo(h, 24) + Rmd(h, 24);
  }

  lemma DayPlus(year: int, month: nat, day: int, more: int)
    ensures DayNumber(year, month, day + more) == DayNumber(year, month, day) + more
  {
  }

  /** The three carries at the head of mktime. */
  method AdjustTime(tm: Tm) returns (ok: bool)
    requires tm.Valid()
    modifies tm`sec, tm`min, tm`hour, tm`mday
    ensures tm.Valid() && (ok <==> TimeAccepted(old(tm.Broken())))
    ensures ok ==> tm.Broken() == Carried(old(tm.Broken()))
  {
    var quot := Quo(tm.sec, 60);
    tm.sec := Rmd(tm.sec, 60);
    ok := false;
    if Int16(tm.min + quot) < 0 {
      return;
    }
    tm.min := Int16(tm.min + quot);
    quot := Quo(tm.min, 60);
    tm.min := Rmd(tm.min, 60);
    if Int16(tm.hour + quot) < 0 {
      return;
    }
    tm.hour := Int16(tm.hour + quot);
    quot := Quo(tm.hour, 24);
    tm.hour := Rmd(tm.hour, 24);
    if Int16(tm.mday + quot) < 0 {
      return;
    }
    tm.mday := Int16(tm.mday + quot);
    ok := true;
  }

  lemma MonthsCarried(year: int, month: nat, day: int)
    ensures DayNumber(year + month / 12, month % 12, day) == DayNumber(year, month, day)
  {
    assert (month % 12) / 12 == 0 && (month % 12) % 12 == month % 12;
  }

  lemma TruncIsFloor(month: nat)
    ensures Quo(month, 12) == month / 12 && Rmd(month, 12) == month % 12
  {
  }

  /** The last day of the month, from the table. */
  function Max(year: int, month: nat): (max: nat)
    requires 0 <= year <= 32767 && month < 12
    ensures max == DaysIn(1900 + year, month)
  {
    if month == 1 && IsLeapYear(UInt16(year + 1900)) then 29 else MONTH_LENGTH[month]
  }

  /** A day beyond December. */
  lemma BeyondYear(year: int, day: int)
    requires day > DaysIn(year, 11)
    ensures DayNumber(year, 11, day) >= YearStart(year + 1)
  {
    hide DaysIn;
    YearIsTwelveMonths(year);
    NextYear(year);
  }

  lemma BeforeLastYear(year: int, month: nat, day: nat)
    requires month < 12 && day <= DaysIn(year, month) && year < 1900 + 32768
    ensures DayNumber(year, month, day) < YearStart(1900 + 32768)
  {
    hide YearStart, DayNumber, DaysIn;
    InYear(year, month, day);
    YearStartMono(year + 1, 1900 + 32768);
  }

  /** The loop of mktime: months into years and days into months. */
  method AdjustDate(tm: Tm) returns (ok: bool)
    requires tm.Valid() && tm.mon >= 0 && tm.mday >= 0
    modifies tm`mday, tm`mon, tm`year
    ensures tm.Valid() && (ok <==> old(DateAccepted(tm.year, tm.mon, tm.mday)))
    ensures ok ==> 0 <= tm.year && 0 <= tm.mon < 12 && 0 <= tm.mday <= DaysIn(1900 + tm.year, tm.mon)
    ensures ok ==> (tm.mday == 0 <==> old(tm.mday) == 0)
    ensures ok ==> DayNumber(1900 + tm.year, tm.mon, tm.mday) == old(DayNumber(1900 + tm.year, tm.mon, tm.mday))
  {
    hide DayNumber, YearStart, DaysIn, Quo, Rmd, Max;
    ghost var y0, m0, d0 := tm.year, tm.mon, tm.mday;
    ghost var first, over := true, false;
    ok := false;
    while true
      invariant tm.Valid() && tm.mon >= 0 && tm.mday >= 0 && (tm.mday == 0 <==> d0 == 0)
      invariant first ==> tm.year == y0 && tm.mon == m0 && tm.mday == d0 && !over
      invariant !first ==> 0 <= y0 + m0 / 12 <= 32767 && tm.mon < 12 && (tm.year >= 0 || over)
      invariant !over ==> DayNumber(1900 + tm.year, tm.mon, tm.mday) == DayNumber(1900 + y0, m0, d0)
      invariant over ==> tm.year < 0 && DayNumber(1900 + y0, m0, d0) >= YearStart(1900 + 32768)
      decreases tm.mday
    {
      var quot := Quo(tm.mon, 12);
      MonthsCarried(1900 + tm.year, tm.mon, tm.mday);
      TruncIsFloor(tm.mon);
      tm.mon := Rmd(tm.mon, 12);
      if Int16(tm.year + quot) < 0 {
        return;
      }
      tm.year := tm.year + quot;
      var max := Max(tm.year, tm.mon);
      if tm.mday > max {
        DaysCarried(1900 + tm.year, tm.mon, tm.mday);
        if tm.mon == 11 {
          BeyondYear(1900 + tm.year, tm.mday);
          over := tm.year == 32767;
          tm.mon := 0;
          tm.year := Int16(tm.year + 1);
        } else {
          tm.mon := tm.mon + 1;
        }
        tm.mday := tm.mday - max;
        first := false;
      } else {
        BeforeLastYear(1900 + tm.year, tm.mon, tm.mday);
        ok := true;
        break;
      }
    }
  }

  /** The number of the day as the source counts it, in unsigned ints and with every fourth year a leap year. */
  function DayCount(year: int, yday: int): nat {
    UInt16(UInt16(year - 70) * 365 + UInt16(year - 69) / 4 + yday)
  }

  /** The seconds as the source counts them, in 32 bits. */
  function Seconds(f: Fields, yday: int): nat {
    (DayCount(f.year, yday) * 86400 + UInt16(f.hour) * 3600 + UInt16(UInt16(f.min) * 60) + UInt16(f.sec))
    % 0x1_0000_0000
  }

  /** (time_t) -1 */
  const ERROR_TIME: nat := 0xFFFF_FFFF

  /** Every fourth year from 1972 to 2096 is a leap year; 2100 is not, so after it the count is a day ahead. */
  lemma {:induction false} LeapCount(year: int)
    requires 70 <= year <= 208
    ensures YearStart(1900 + year) == (year - 70) * 365 + (year - 69) / 4 - if year <= 200 then 0 else 1
  {
    if year > 70 {
      LeapCount(year - 1);
      NextYear(1900 + year - 1);
    }
  }

  /** What the date loop leaves: everything in range but for a day 0 and negative seconds that were there at the
      start. */
  ghost predicate Adjusted(f: Fields) {
    && -60 < f.sec < 60 && 0 <= f.min < 60 && 0 <= f.hour < 24
    && 0 <= f.mon < 12 && 0 <= f.mday <= DaysIn(1900 + f.year, f.mon) && 0 <= f.year <= 32767
  }

  ghost function YearDay(f: Fields): int
    requires 0 <= f.mon < 12
  {
    MonthStart(1900 + f.year, f.mon) + f.mday - 1
  }

  lemma YearDayBounds(f: Fields)
    requires Adjusted(f)
    ensures -1 <= YearDay(f) <= 365 && YearDay(f) < YearDays(1900 + f.year)
    ensures DayNumber(1900 + f.year, f.mon, f.mday) == YearStart(1900 + f.year) + YearDay(f)
  {
    MonthStartTable(1900 + f.year, f.mon);
  }

  lemma DayOfYear(f: Fields)
    requires f.InRange()
    ensures YearDay(f) >= 0
  {
  }

  /** Between 1970 and 2107 the day is right or one ahead. */
  lemma DayCountWithinRange(f: Fields)
    requires Adjusted(f) && 70 <= f.year <= 207
    ensures var d := DayNumber(1900 + f.year, f.mon, f.mday);
      if d < 0 then d == -1
      else d <= 50769 && (f.year <= 200 ==> d <= 47846)
           && DayCount(f.year, YearDay(f)) == if f.year <= 200 then d else d + 1
  {
    hide YearDay, YearStart, DayNumber, DaysIn, MonthStart;
    YearDayBounds(f);
    LeapCount(f.year);
  }

  /** Before 1970 and after 2107 the seconds do not fit an unsigned number of 32 bits. */
  lemma OutOfEpoch(f: Fields)
    requires Adjusted(f) && !(70 <= f.year <= 207)
    ensures if f.year < 70 then Instant(f) < 0 else Instant(f) >= 0x1_0000_0000
  {
    hide YearDay, YearStart, DaysIn, MonthStart, YearDays;
    YearDayBounds(f);
    if f.year < 70 {
      NextYear(1900 + f.year);
      YearStartMono(1900 + f.year + 1, 1970);
      assert YearStart(1970) == 0 by { LeapCount(70); }
    } else {
      LeapCount(208);
      YearStartMono(1900 + 208, 1900 + f.year);
    }
  }

  /** When the count of seconds is the instant: for every date from 1970 to 2100, and for no other. */
  lemma SecondsExact(f: Fields)
    requires Adjusted(f)
    ensures Seconds(f, YearDay(f)) == Instant(f) <==> f.sec >= 0 && Instant(f) >= 0 && f.year <= 200
  {
    hide YearDay, YearStart, DaysIn, MonthStart, DayNumber, DayCount;
    if 70 <= f.year <= 207 {
      DayCountWithinRange(f);
      var ahead := (if f.year <= 200 then 0 else 86400) + if f.sec < 0 then 65536 else 0;
      assert DayNumber(1900 + f.year, f.mon, f.mday) >= 0 ==>
          Seconds(f, YearDay(f)) == (Instant(f) + ahead) % 0x1_0000_0000;
    } else {
      OutOfEpoch(f);
    }
  }

  /** The date lies before the year 2101; a day 0 is counted with the month in which it is written. */
  ghost predicate Before2101(year: int, mon: nat, mday: int) {
    DayNumber(1900 + year, mon, mday) + (if mday == 0 then 1 else 0) < YearStart(2101)
  }

  /** The last year in which the count is right, read off the day number. */
  lemma LastGoodYear(f: Fields)
    requires Adjusted(f)
    ensures f.year <= 200 <==> Before2101(f.year, f.mon, f.mday)
  {
    hide YearDay, YearStart, DaysIn, MonthStart, YearDays, DayNumber;
    YearDayBounds(f);
    DayInYear(f);
    NextYear(1900 + f.year);
    if f.year <= 200 {
      YearStartMono(1900 + f.year + 1, 2101);
    } else {
      YearStartMono(2101, 1900 + f.year);
    }
  }

  lemma DayInYear(f: Fields)
    requires Adjusted(f)
    ensures f.mday > 0 ==> YearDay(f) >= 0
    ensures f.mday == 0 ==> YearDay(f) + 1 < YearDays(1900 + f.year)
  {
    MonthStartTable(1900 + f.year, f.mon);
  }

  /** Midnight of the first of January 2101 comes out a day late. */
  lemma DayLate()
    ensures var f := Fields(0, 0, 0, 1, 0, 201);
            Adjusted(f) && Instant(f) == 4_133_980_800 && Seconds(f, YearDay(f)) == Instant(f) + 86400
  {
    var f := Fields(0, 0, 0, 1, 0, 201);
    hide IsLeapYear, YearStart, DayCount, DayNumber, MonthStart;
    LeapCount(201);
    YearDayBounds(f);
    MonthStartTable(2101, 0);
    DayCountWithinRange(f);
  }

  /** The end of mktime: day of the year, weekday and seconds. */
  method Finish(tm: Tm) returns (r: nat)
    requires Adjusted(tm.Broken())
    modifies tm`yday, tm`wday, tm`isdst
    ensures tm.yday == YearDay(tm.Broken()) && tm.isdst == 0
    ensures tm.wday == UInt16(4 + DayCount(tm.year, tm.yday)) % 7
    ensures r == Seconds(tm.Broken(), tm.yday)
  {
    tm.yday := MONTH_DAYS[tm.mon] + tm.mday - 1;
    if tm.mon > 1 && IsLeapYear(UInt16(tm.year + 1900)) {
      tm.yday := tm.yday + 1;
    }
    MonthStartTable(1900 + tm.year, tm.mon);
    tm.wday := UInt16(4 + DayCount(tm.year, tm.yday)) % 7;
    tm.isdst := 0;
    r := Seconds(tm.Broken(), tm.yday);
  }

  /** The first of January 1970 was a Thursday. */
  function Weekday(day: int): nat {
    (4 + day) % 7
  }

  lemma WeekdayExact(f: Fields)
    requires Adjusted(f) && 70 <= f.year <= 200 && Instant(f) >= 0
    ensures UInt16(4 + DayCount(f.year, YearDay(f))) % 7 == Weekday(DayNumber(1900 + f.year, f.mon, f.mday))
  {
    hide YearDay, YearStart, DaysIn, MonthStart, DayNumber, DayCount;
    DayCountWithinRange(f);
  }

  /** Every carry can be held: the carried minutes, hours and days, and the year the days lead to. All other
      times are refused. */
  ghost predicate Accepted(f: Fields) {
    && f.mon >= 0 && TimeAccepted(f)
    && DateAccepted(Carried(f).year, f.mon, Carried(f).mday)
  }

  /** The seconds of a broken-down time, and the time brought into range. Fields whose carries an int cannot
      hold are refused; all others keep their instant, unless the carry of the seconds wraps. The result is the
      instant exactly from 1970 to 2100. */
  method MkTime(tm: Tm?) returns (r: nat)
    requires tm != null ==> tm.Valid() && tm.mon >= 0
    modifies tm
    ensures tm == null ==> r == 0xFFFF_FFFF
    ensures tm != null ==> tm.Valid() && var f := old(tm.Broken()); var c := Carried(f); var g := tm.Broken();
      if !Accepted(f) then r == 0xFFFF_FFFF
      else
        && Adjusted(g) && Instant(g) == Instant(f) + Wrapped(f)
        && g.sec == c.sec && (g.mday == 0 <==> c.mday == 0)
        && tm.yday == YearDay(g) && tm.isdst == 0 && r == Seconds(g, YearDay(g))
        && (r == Instant(g) <==> c.sec >= 0 && Instant(g) >= 0 && Before2101(c.year, c.mon, c.mday))
        && (g.year <= 200 <==> Before2101(c.year, c.mon, c.mday))
        && (70 <= g.year <= 200 && Instant(g) >= 0 ==> tm.wday == Weekday(DayNumber(1900 + g.year, g.mon, g.mday)))
  {
    hide DayNumber, DaysIn, MonthStart, YearStart, DayCount, Seconds, YearDay, DateAccepted;
    r := ERROR_TIME;
    if tm == null {
      return;
    }
    var ok := AdjustTime(tm);
    if !ok {
      return;
    }
    ok := AdjustDate(tm);
    if !ok {
      return;
    }
    r := Finish(tm);
    CarryKeepsInstant(old(tm.Broken()));
    SecondsExact(tm.Broken());
    LastGoodYear(tm.Broken());
    if 70 <= tm.year <= 200 && Instant(tm.Broken()) >= 0 {
      WeekdayExact(tm.Broken());
    }
  }

  /** A date in range and not before 1970 is before 2101 when its instant is before the first of January 2101. */
  lemma InstantInEpoch(f: Fields)
    requires f.InRange() && Adjusted(f) && 0 <= Instant(f)
    ensures 70 <= f.year && (f.year <= 200 <==> Instant(f) < 4_133_980_800)
  {
    hide YearDay, YearStart, DaysIn, MonthStart, YearDays, DayNumber;
    YearDayBounds(f);
    LeapCount(201);
    if f.year <= 200 {
      NextYear(1900 + f.year);
      YearStartMono(1900 + f.year + 1, 2101);
      if f.year < 70 {
        OutOfEpoch(f);
      }
    } else {
      assert YearDay(f) >= 0 by { DayOfYear(f); }
      YearStartMono(2101, 1900 + f.year);
    }
  }

  /** The fields localtime fills in. */
  function Split(t: nat): Fields {
    Fields(t % 3600, 0, (t / 3600) % 24, t / 86400 + 1, 0, 70)
  }

  lemma SplitIsInstant(t: nat)
    requires t < 0x8000_0000
    ensures Instant(Split(t)) == t && Accepted(Split(t)) && Carried(Split(t)).mday >= 1 && Carried(Split(t)).sec >= 0
    ensures Wrapped(Split(t)) == 0
  {
    hide IsLeapYear, MonthStart, YearDays, DaysIn, YearStart, DayNumber, Carried;
    SplitCarried(t);
    EpochDay(t / 86400 + 1);
    YearStartMono(1970, 1900 + 32768);
    assert t == (t / 86400) * 86400 + (t / 3600 % 24) * 3600 + t % 3600 by { TimeOfDay(t); }
  }

  lemma TimeOfDay(t: nat)
    ensures t / 3600 == (t / 86400) * 24 + t / 3600 % 24
    ensures t == (t / 86400) * 86400 + (t / 3600 % 24) * 3600 + t % 3600
  {
    DivModUnique(t, 86400, t / 3600 / 24, (t / 3600 % 24) * 3600 + t % 3600);
  }

  lemma EpochDay(day: int)
    ensures YearStart(1970) == 0 && DayNumber(1970, 0, day) == day - 1
  {
    MonthStartTable(1970, 0);
  }

  lemma SplitCarried(t: nat)
    requires t < 0x8000_0000
    ensures Carried(Split(t)) == Fields(t % 60, (t % 3600) / 60, (t / 3600) % 24, t / 86400 + 1, 0, 70)
    ensures TimeAccepted(Split(t)) && Wrapped(Split(t)) == 0
  {
    hide Carried, TimeAccepted, Wrapped;
    SplitBounds(t % 3600, t / 3600 % 24, t / 86400 + 1);
    DivModUnique(t, 60, 60 * (t / 3600) + t % 3600 / 60, t % 3600 % 60);
  }

  lemma SplitBounds(s: nat, h: nat, d: nat)
    requires s < 3600 && h < 24 && d < 32767
    ensures var f := Fields(s, 0, h, d, 0, 70);
            Carried(f) == Fields(s % 60, s / 60, h, d, 0, 70) && TimeAccepted(f) && Wrapped(f) == 0
  {
    hide Int16;
    assert Quo(s, 60) == s / 60 < 60 && Rmd(s, 60) == s % 60;
    assert Quo(s / 60, 60) == 0 && Rmd(s / 60, 60) == s / 60;
  }

  /** The broken-down time of t in the buffer that every call shares; refused when t as a long is negative. */
  method LocalTime(t: nat, timebuf: Tm) returns (ok: bool)
    requires t < 0x1_0000_0000
    modifies timebuf
    ensures ok <==> t < 0x8000_0000
    ensures ok ==> timebuf.Valid() && timebuf.Broken().InRange() && Instant(timebuf.Broken()) == t
    ensures ok ==> 70 <= timebuf.year <= 200
    ensures ok ==> timebuf.yday == YearDay(timebuf.Broken()) && timebuf.wday == Weekday(t / 86400)
    ensures !ok ==> unchanged(timebuf)
  {
    hide DayNumber, DaysIn, MonthStart, YearStart, DayCount, Seconds, YearDay, DateAccepted, Instant;
    ok := t < 0x8000_0000;
    if !ok {
      return;
    }
    SplitIsInstant(t);
    timebuf.sec := t % 3600;
    timebuf.min := 0;
    timebuf.hour := (t / 3600) % 24;
    timebuf.mday := t / 86400 + 1;
    timebuf.mon := 0;
    timebuf.year := 70;
    var r := MkTime(timebuf);
    InstantInEpoch(timebuf.Broken());
    DayOfInstant(timebuf.Broken());
  }

  lemma DayOfInstant(f: Fields)
    requires f.InRange()
    ensures DayNumber(1900 + f.year, f.mon, f.mday) == Instant(f) / 86400
  {
    hide DayNumber;
  }

  /** mktime undoes localtime: the same seconds, and the fields as they were. */
  method MkTimeOfLocalTime(t: nat, timebuf: Tm) returns (r: nat)
    requires t < 0x8000_0000
    modifies timebuf
    ensures r == t && timebuf.Broken().InRange() && Instant(timebuf.Broken()) == t
  {
    var ok := LocalTime(t, timebuf);
    InRangeAccepted(timebuf.Broken());
    r := MkTime(timebuf);
    InstantInEpoch(timebuf.Broken());
  }

  /** Fields in range are accepted and carry nothing. */
  lemma InRangeAccepted(f: Fields)
    requires f.InRange() && 0 <= f.year <= 32767
    ensures Accepted(f) && Carried(f) == f
  {
    hide DayNumber, DaysIn, YearStart;
    BeforeLastYear(1900 + f.year, f.mon, f.mday);
  }

  /** localtime undoes mktime for all fields whose instant is from 1970 to the last second of a long. */
  method LocalTimeOfMkTime(tm: Tm, timebuf: Tm) returns (r: nat)
    requires tm != timebuf && tm.Valid() && tm.sec >= 0 && Accepted(tm.Broken()) && Carried(tm.Broken()).mday >= 1
    requires 0 <= Instant(tm.Broken()) < 0x8000_0000
    modifies tm, timebuf
    ensures r == old(Instant(tm.Broken())) && timebuf.Broken() == tm.Broken() && tm.Broken().InRange()
  {
    r := MkTime(tm);
    InstantInEpoch(tm.Broken());
    var ok := LocalTime(r, timebuf);
    InstantDetermines(tm.Broken(), timebuf.Broken());
  }

  /** A corrected time is accepted and carries nothing. */
  lemma AdjustedAccepted(f: Fields)
    requires Adjusted(f)
    ensures Accepted(f) && Carried(f) == f && Wrapped(f) == 0
  {
    hide DayNumber, DaysIn, YearStart;
    BeforeLastYear(1900 + f.year, f.mon, f.mday);
  }

  /** Corrected fields are determined by the instant, the seconds, and whether the day is 0. */
  lemma AdjustedDetermined(f: Fields, g: Fields)
    requires Adjusted(f) && Adjusted(g) && Instant(f) == Instant(g) && f.sec == g.sec && (f.mday == 0 <==> g.mday == 0)
    ensures f == g
  {
    hide DayNumber, DaysIn;
    var d := if f.mday == 0 then 1 else 0;
    var m := (DayNumber(1900 + f.year, f.mon, f.mday) * 24 + f.hour) * 60 + f.min;
    var n := (DayNumber(1900 + g.year, g.mon, g.mday) * 24 + g.hour) * 60 + g.min;
    assert m == n;
    DayPlus(1900 + f.year, f.mon, f.mday, d);
    DayPlus(1900 + g.year, g.mon, g.mday, d);
    DaysPositive(1900 + f.year, f.mon);
    DaysPositive(1900 + g.year, g.mon);
    SameDate(1900 + f.year, f.mon, f.mday + d, 1900 + g.year, g.mon, g.mday + d);
  }

  lemma DaysPositive(year: int, month: nat)
    requires month < 12
    ensures DaysIn(year, month) >= 1
  {
  }

  /** Once corrected, a broken-down time is left as it is, and gives the same seconds. */
  method MkTimeTwice(tm: Tm) returns (r: nat, again: nat, ghost first: Fields)
    requires tm.Valid() && tm.mon >= 0 && Accepted(tm.Broken())
    modifies tm
    ensures tm.Broken() == first && again == r
    ensures Adjusted(first) && Instant(first) == old(Instant(tm.Broken()) + Wrapped(tm.Broken()))
    ensures old(Carried(tm.Broken()).sec >= 0 && Carried(tm.Broken()).mday >= 1) ==> first.InRange()
  {
    hide DayNumber, DaysIn, MonthStart, YearStart, YearDay, DateAccepted, Instant, IsLeapYear, Seconds, Before2101;
    r := MkTime(tm);
    first := tm.Broken();
    AdjustedAccepted(first);
    again := MkTime(tm);
    AdjustedDetermined(first, tm.Broken());
  }

  /** Midnight of the first of January 2101, given to mktime, comes back a day late. */
  method MkTimeLate() returns (tm: Tm, r: nat)
    ensures tm.Broken() == Fields(0, 0, 0, 1, 0, 201) && r == Instant(tm.Broken()) + 86400
  {
    hide DayNumber, DaysIn, MonthStart, YearStart, YearDay, Instant, IsLeapYear, Seconds, Before2101, Accepted, Carried;
    tm := new Tm();
    tm.mday, tm.year := 1, 201;
    ghost var f := tm.Broken();
    assert f == Fields(0, 0, 0, 1, 0, 201);
    DayLate();
    AdjustedAccepted(f);
    r := MkTime(tm);
    AdjustedDetermined(f, tm.Broken());
  }

  // ---------------------------------------------------------------------------------------------------
  // Fixed points

  /** Thirty days have month 3, 5, 8 and 10; all the rest have thirty-one, except month 1. */
  lemma ThirtyDays(year: int, month: nat)
    requires month < 12
    ensures DaysIn(year, month) == if month in {3, 5, 8, 10} then 30 else if month != 1 then 31
                                   else if year % 400 == 0 || (year % 4 == 0 && year % 100 != 0) then 29 else 28
  {
  }

  /** The seconds at which the months of 1970 begin. */
  const BEGIN_1970: seq<nat> := [0, 2_678_400, 5_097_600, 7_776_000, 10_368_000, 13_046_400, 15_638_400, 18_316_800,
                                 20_995_200, 23_587_200, 26_265_600, 28_857_600]

  lemma MonthsOf1970(month: nat)
    requires month < 12
    ensures Instant(Fields(0, 0, 0, 1, month, 70)) == BEGIN_1970[month]
  {
    hide MonthStart;
    MonthStartTable(1970, month);
    assert DayNumber(1970, month, 1) == MONTH_DAYS[month];
  }

  /** The first of March 2000, 951868800 seconds after the epoch, was a Wednesday. */
  lemma March2000(f: Fields)
    requires f == Fields(0, 0, 0, 1, 2, 100)
    ensures Instant(f) == 951_868_800 && Weekday(DayNumber(2000, 2, 1)) == 3 && Weekday(DayNumber(1970, 0, 1)) == 4
  {
    hide MonthStart, YearStart;
    LeapCount(100);
    LeapCount(70);
    MonthStartTable(2000, 2);
    MonthStartTable(1970, 0);
  }
}
