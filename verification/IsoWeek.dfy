/**
  The ISO 8601 week date of lib/strftime.c: %V (iso8601wknum) and the year rule of %G.
 */
module IsoWeek {
  import opened Arithmetic

  /** isleap */
  predicate IsLeap(year: int) {
    (year % 4 == 0 && year % 100 != 0) || year % 400 == 0
  }

  function YearLength(year: int): int {
    if IsLeap(year) then 366 else 365
  }

  // ---------------------------------------------------------------------
  // The Gregorian calendar, extended to all years

  /** The number of the first of January; day 0 is the first of January of year 1, a Monday. */
  function YearStart(year: int): int {
    365 * (year - 1) + (year - 1) / 4 - (year - 1) / 100 + (year - 1) / 400
  }

  lemma NextQuotient(p: int, d: int)
    requires d > 1
    ensures (p + 1) / d == p / d + if (p + 1) % d == 0 then 1 else 0
  {
    var q, r := p / d, p % d;
    QuotientIs(p, d);
    if r == d - 1 {
      Distribute(q, d);
      ModIs(p + 1, d, q + 1, 0);
    } else {
      ModIs(p + 1, d, q, r + 1);
    }
  }

  lemma YearStartNext(year: int)
    ensures YearStart(year + 1) == YearStart(year) + YearLength(year)
  {
    NextQuotient(year - 1, 4);
    NextQuotient(year - 1, 100);
    NextQuotient(year - 1, 400);
    LeapDays(year);
  }

  /** A year divisible by 400 is divisible by 100, and one divisible by 100 by 4. */
  lemma LeapDays(year: int)
    ensures year % 400 == 0 ==> year % 100 == 0
    ensures year % 100 == 0 ==> year % 4 == 0
  {
  }

  lemma {:induction false} YearStartGrows(y: int, z: int)
    requires y < z
    ensures YearStart(y + 1) <= YearStart(z) && YearStart(y) < YearStart(z)
    decreases z - y
  {
    YearStartNext(y);
    if y + 1 < z {
      YearStartGrows(y + 1, z);
    }
  }

  predicate InYear(day: int, year: int) {
    YearStart(year) <= day < YearStart(year + 1)
  }

  lemma OneYear(day: int, y: int, z: int)
    requires InYear(day, y) && InYear(day, z)
    ensures y == z
  {
    if y < z {
      YearStartGrows(y, z);
    } else if z < y {
      YearStartGrows(z, y);
    }
  }

  function MonthLength(mon: int, leap: bool): int {
    if mon == 1 then (if leap then 29 else 28)
    else if mon == 3 || mon == 5 || mon == 8 || mon == 10 then 30
    else 31
  }

  function DaysBefore(mon: int, leap: bool): int {
    if mon <= 0 then 0 else DaysBefore(mon - 1, leap) + MonthLength(mon - 1, leap)
  }

  /** struct tm: years since 1900, months from 0, Sunday is day 0 of the week, days of the year from 0. */
  datatype Tm = Tm(year: int, mon: int, mday: int, wday: int, yday: int) {
    function Year(): int { year + 1900 }

    function Day(): int { YearStart(Year()) + yday }

    predicate Valid() {
      0 <= mon < 12 && 1 <= mday <= MonthLength(mon, IsLeap(Year())) &&
      yday == DaysBefore(mon, IsLeap(Year())) + mday - 1 &&
      wday == (Day() + 1) % 7
    }
  }

  lemma MonthBounds(mon: int, leap: bool)
    requires 0 <= mon < 12
    ensures 0 <= DaysBefore(mon, leap)
    ensures mon == 0 ==> DaysBefore(mon, leap) == 0
    ensures mon > 0 ==> DaysBefore(mon, leap) >= 31
    ensures DaysBefore(11, leap) == 334 + if leap then 1 else 0
    ensures mon < 11 ==> DaysBefore(mon, leap) + MonthLength(mon, leap) <= DaysBefore(11, leap)
  {
    var l := if leap then 1 else 0;
    assert DaysBefore(1, leap) == 31 && DaysBefore(2, leap) == 59 + l;
    assert DaysBefore(3, leap) == 90 + l && DaysBefore(4, leap) == 120 + l;
    assert DaysBefore(5, leap) == 151 + l && DaysBefore(6, leap) == 181 + l;
    assert DaysBefore(7, leap) == 212 + l && DaysBefore(8, leap) == 243 + l;
    assert DaysBefore(9, leap) == 273 + l && DaysBefore(10, leap) == 304 + l;
  }

  /** The day of the year is in range, and counts from the year's end in December. */
  lemma DayOfYear(t: Tm)
    requires t.Valid()
    ensures 0 <= t.yday < YearLength(t.Year()) && InYear(t.Day(), t.Year())
    ensures t.mon == 0 <==> t.yday < 31
    ensures t.mon == 11 <==> t.yday >= YearLength(t.Year()) - 31
    ensures t.mon == 11 ==> t.mday == t.yday - YearLength(t.Year()) + 32
  {
    MonthBounds(t.mon, IsLeap(t.Year()));
    YearStartNext(t.Year());
  }

  // ---------------------------------------------------------------------
  // The week date by its definition

  /** The Thursday of the week, Monday to Sunday, that holds a day. */
  function Thursday(day: int): int {
    7 * (day / 7) + 3
  }

  /** Section 2.2.10 of ISO 8601:2004: the week belongs to the year of its Thursday and is numbered by it. */
  predicate IsoDate(day: int, year: int, week: int) {
    InYear(Thursday(day), year) &&
    YearStart(year) + 7 * (week - 1) <= Thursday(day) < YearStart(year) + 7 * week
  }

  /** The year of %G, from a date and its week number. */
  function IsoYear(t: Tm, week: int): (y: int) {
    if t.mon == 11 && week == 1 then t.Year() + 1
    else if t.mon == 0 && week >= 52 then t.Year() - 1
    else t.Year()
  }

  /** Days of the week from Monday, 0. */
  function FromMonday(wday: int): int {
    if wday == 0 then 6 else wday - 1
  }

  /** How many of the days 0 .. n - 1 of the year fall on a weekday (Sunday is 0), when day yday falls on wday. */
  function WeekdayCount(wday: int, yday: int, weekday: int, n: nat): (r: nat) {
    if n == 0 then 0
    else WeekdayCount(wday, yday, weekday, n - 1) + if (wday - yday + n - 1) % 7 == weekday then 1 else 0
  }

  /** These are the calendar's weekdays. */
  lemma YearDayWeekday(t: Tm, i: int)
    requires t.Valid()
    ensures (t.wday - t.yday + i) % 7 == (YearStart(t.Year()) + i + 1) % 7
  {
    hide YearStart;
    var w := (t.Day() + 1) / 7;
    assert t.wday == t.Day() + 1 - 7 * w;
    Shift7(YearStart(t.Year()) + i + 1, -w);
  }

  lemma Shift7(x: int, k: int)
    ensures (x + 7 * k) % 7 == x % 7
  {
    ModIs(x + 7 * k, 7, x / 7 + k, x % 7);
  }

  /** The days of a weekday come every seven days, from the first one on. */
  lemma {:induction false} CountFrom(wday: int, yday: int, weekday: int, n: nat, first: int)
    requires 0 <= weekday < 7 && 0 <= first < 7 && (wday - yday + first) % 7 == weekday
    ensures WeekdayCount(wday, yday, weekday, n) == (n + 6 - first) / 7
    decreases n
  {
    if n > 0 {
      CountFrom(wday, yday, weekday, n - 1, first);
      SameWeekday(wday - yday, first, n - 1, weekday);
      NextSeventh(n + 5 - first);
    }
  }

  lemma SameWeekday(s: int, first: int, i: int, weekday: int)
    requires (s + first) % 7 == weekday
    ensures (s + i) % 7 == weekday <==> (i - first) % 7 == 0
  {
    var p := (s + first) / 7;
    var q, r := (i - first) / 7, (i - first) % 7;
    assert s + i == 7 * p + weekday + 7 * q + r;
    if weekday + r < 7 {
      ModIs(s + i, 7, p + q, weekday + r);
    } else {
      ModIs(s + i, 7, p + q + 1, weekday + r - 7);
    }
  }

  lemma NextSeventh(x: int)
    ensures (x + 1) / 7 == x / 7 + if (x - 6) % 7 == 0 then 1 else 0
  {
  }

  lemma WeeksBegun(wday: int, yday: nat, weekday: int)
    requires 0 <= wday < 7 && 0 <= weekday < 7
    ensures WeekdayCount(wday, yday, weekday, yday + 1) == (yday + 7 - (wday - weekday) % 7) / 7
  {
    var off := (wday - weekday) % 7;
    var first := (yday - off) % 7;
    var k, m := (yday - off) / 7, (wday - weekday) / 7;
    assert wday - yday + first == 7 * (m - k) + weekday;
    ModIs(wday - yday + first, 7, m - k, weekday);
    CountFrom(wday, yday, weekday, yday + 1, first);
    ModIs(yday + 7 - first, 7, k + 1, off);
    ModIs(yday + 7 - off, 7, k + 1, first);
  }

  /** weeknumber: how many Mondays (first weekday 1), or Sundays, the year has had up to and including the date. */
  method WeekNumber(t: Tm, firstWeekday: int) returns (ret: int)
    requires 0 <= t.wday < 7 && 0 <= t.yday
    ensures ret == WeekdayCount(t.wday, t.yday, if firstWeekday == 1 then 1 else 0, t.yday + 1)
  {
    var wday := t.wday;
    if firstWeekday == 1 {
      if wday == 0 {
        wday := 6;
      } else {
        wday := wday - 1;
      }
    }
    ret := (t.yday + 7 - wday) / 7;
    if ret < 0 {
      ret := 0;
    }
    WeeksBegun(t.wday, t.yday, if firstWeekday == 1 then 1 else 0);
    assert wday == (t.wday - if firstWeekday == 1 then 1 else 0) % 7;
  }

  /** The week of the year, counted from that of the first of January, and where it lies. */
  lemma Locate(a: int, yday: int) returns (j: int, w: int, q: int)
    requires yday >= 0
    ensures j == a % 7 && w == (a + yday) % 7 && yday - w + j == 7 * q && q >= 0
    ensures Thursday(a + yday) == a + 7 * q - j + 3
  {
    j, w := a % 7, (a + yday) % 7;
    q := (a + yday) / 7 - a / 7;
  }

  lemma Weekday(day: int, wday: int)
    requires wday == (day + 1) % 7
    ensures FromMonday(wday) == day % 7
  {
  }

  lemma Back(j: int, s: int, wday: int)
    requires 0 <= j < 7 && 0 <= s < 7 && 0 <= wday < 7 && FromMonday(wday) == (j + s) % 7
    ensures var jan1day := if wday - s < 0 then wday - s + 7 else wday - s;
            0 <= jan1day < 7 && FromMonday(jan1day) == j
  {
    assert (j + s) % 7 == if j + s < 7 then j + s else j + s - 7;
  }

  lemma SumMod(a: int, b: int)
    ensures (a + b) % 7 == (a % 7 + b % 7) % 7
  {
    var p, q, r := a / 7, b / 7, a % 7 + b % 7;
    if r < 7 {
      ModIs(a + b, 7, p + q, r);
    } else {
      ModIs(a + b, 7, p + q + 1, r - 7);
    }
  }

  lemma JanuaryFirst(a: int, yday: int, wday: int)
    requires yday >= 0 && wday == (a + yday + 1) % 7
    ensures FromMonday(wday) == (a + yday) % 7
    ensures var d := wday - yday % 7;
            var jan1day := if d < 0 then d + 7 else d;
            0 <= jan1day < 7 && FromMonday(jan1day) == a % 7
  {
    hide FromMonday;
    Weekday(a + yday, wday);
    SumMod(a, yday);
    Back(a % 7, yday % 7, wday);
  }

  /** The Thursday lies in the next year. */
  predicate Late(t: Tm) {
    t.mon == 11 &&
    ((t.wday == 1 && 29 <= t.mday <= 31) || (t.wday == 2 && (t.mday == 30 || t.mday == 31)) ||
     (t.wday == 3 && t.mday == 31))
  }

  lemma LateMeans(t: Tm)
    requires t.Valid() && t.mon == 11
    ensures Late(t) <==> Thursday(t.Day()) >= YearStart(t.Year() + 1)
    ensures Late(t) ==> IsoDate(t.Day(), t.Year() + 1, 1)
  {
    var y := t.Year();
    DayOfYear(t);
    YearStartNext(y);
    YearStartNext(y + 1);
    JanuaryFirst(YearStart(y), t.yday, t.wday);
    assert Thursday(t.Day()) == t.Day() - FromMonday(t.wday) + 3;
  }

  /** The week lies in the year of the date. */
  lemma Usual(t: Tm, j: int, w: int, q: int, week: int)
    requires t.Valid() && !Late(t)
    requires j == YearStart(t.Year()) % 7 && w == t.Day() % 7 && t.yday - w + j == 7 * q && q >= 0
    requires Thursday(t.Day()) == YearStart(t.Year()) + 7 * q - j + 3
    requires week == if j < 4 then q + 1 else q
    requires week > 0
    ensures week <= 53 && IsoDate(t.Day(), t.Year(), week) && IsoYear(t, week) == t.Year()
  {
    var y := t.Year();
    DayOfYear(t);
    YearStartNext(y);
    if t.mon == 11 {
      LateMeans(t);
    }
    hide YearStart, IsLeap;
    assert Thursday(t.Day()) < YearStart(y + 1);
  }

  /** The week of the first of January belongs to the year before: it is that of the last of December. */
  lemma Early(t: Tm, d: Tm, j: int)
    requires t.Valid() && j == YearStart(t.Year()) % 7 && j >= 4
    requires Thursday(t.Day()) == YearStart(t.Year()) - j + 3
    requires d.year == t.year - 1 && d.mon == 11 && d.mday == 31
    requires d.wday == j && d.yday == 364 + if IsLeap(t.Year() - 1) then 1 else 0
    ensures d.Valid() && d.Day() == YearStart(t.Year()) - 1 && Thursday(d.Day()) == Thursday(t.Day())
    ensures t.mon == 0
  {
    hide YearStart, IsLeap;
    var y := t.Year();
    DayOfYear(t);
    YearStartNext(y - 1);
    MonthBounds(11, IsLeap(y - 1));
    SameWeek(YearStart(y), j);
    assert t.Day() <= Thursday(t.Day()) + 3;
  }

  lemma SameWeek(a: int, j: int)
    requires j == a % 7 && j >= 4
    ensures Thursday(a - 1) == a - j + 3
  {
  }

  lemma EarlyWeek(t: Tm, d: Tm, week: int)
    requires t.Valid() && d.Valid() && t.mon == 0 && d.mon == 11 && d.year == t.year - 1
    requires Thursday(d.Day()) == Thursday(t.Day()) < YearStart(t.Year())
    requires d.Day() == YearStart(t.Year()) - 1
    requires IsoDate(d.Day(), IsoYear(d, week), week) && 1 <= week <= 53
    ensures IsoDate(t.Day(), IsoYear(t, week), week)
  {
    hide YearStart;
    YearStartNext(d.Year());
  }

  /** The Mondays so far, by the weekday j of the first of January (Monday is 0) and the weeks q since its week. */
  lemma Mondays(t: Tm, j: int, q: int)
    requires 0 <= t.wday < 7 && 0 <= t.yday && 0 <= j < 7 && t.yday - FromMonday(t.wday) + j == 7 * q
    ensures WeekdayCount(t.wday, t.yday, 1, t.yday + 1) == if j == 0 then q + 1 else q
  {
    WeeksBegun(t.wday, t.yday, 1);
    assert FromMonday(t.wday) == (t.wday - 1) % 7;
    if j == 0 {
      ModIs(7 * q + 7 - j, 7, q + 1, 0);
    } else {
      ModIs(7 * q + 7 - j, 7, q, 7 - j);
    }
  }

  /** iso8601wknum */
  method Iso8601WkNum(t: Tm) returns (weeknum: int)
    requires t.Valid()
    ensures 1 <= weeknum <= 53
    ensures IsoDate(t.Day(), IsoYear(t, weeknum), weeknum)
    decreases if t.yday < 7 then 1 else 0
  {
    hide YearStart, IsoDate, Thursday, IsLeap;
    ghost var a := YearStart(t.Year());
    DayOfYear(t);
    JanuaryFirst(a, t.yday, t.wday);
    ghost var j, w, q := Locate(a, t.yday);
    weeknum := WeekNumber(t, 1);
    Mondays(t, j, q);
    var jan1day := t.wday - t.yday % 7;
    if jan1day < 0 {
      jan1day := jan1day + 7;
    }
    ghost var early := false;
    match jan1day {
      case 1 =>
      case 2 => weeknum := weeknum + 1;
      case 3 => weeknum := weeknum + 1;
      case 4 => weeknum := weeknum + 1;
      case _ =>
        if weeknum == 0 {
          var year := t.year - 1;
          var dec31ly := Tm(year, 11, 31, if jan1day == 0 then 6 else jan1day - 1,
                            364 + if IsLeap(year + 1900) then 1 else 0);
          Early(t, dec31ly, j);
          weeknum := Iso8601WkNum(dec31ly);
          EarlyWeek(t, dec31ly, weeknum);
          early := true;
        }
    }
    if t.mon == 11 {
      LateMeans(t);
      if (t.wday == 1 && 29 <= t.mday <= 31) || (t.wday == 2 && (t.mday == 30 || t.mday == 31)) ||
         (t.wday == 3 && t.mday == 31) {
        weeknum := 1;
        return;
      }
    }
    if !early {
      Usual(t, j, w, q, weeknum);
    }
  }

  /** The week date as %G-W%V prints it. */
  method WeekDate(t: Tm) returns (year: int, week: int)
    requires t.Valid()
    ensures 1 <= week <= 53 && IsoDate(t.Day(), year, week)
  {
    hide YearStart, IsoDate, Tm.Valid;
    week := Iso8601WkNum(t);
    if t.mon == 11 && week == 1 {
      year := 1900 + t.year + 1;
    } else if t.mon == 0 && week >= 52 {
      year := 1900 + t.year - 1;
    } else {
      year := 1900 + t.year;
    }
  }

  lemma YearStarts()
    ensures YearStart(1970) == 719162 && YearStart(1971) == 719527 && YearStart(2000) == 730119 && YearStart(2001) == 730485
    ensures YearStart(2004) == 731580 && YearStart(2005) == 731946 && YearStart(2008) == 733041 && YearStart(2009) == 733407 && YearStart(2010) == 733772
    ensures IsLeap(2000) && IsLeap(2008) && !IsLeap(1970) && !IsLeap(2005) && !IsLeap(2010)
  {
  }

  /** The calendar is the one in use: the first of January 1970 was a Thursday, in the first week; the first of January
      2005 a Saturday, in week 53 of 2004; 29 December 2008 a Monday, in week 1 of 2009; 29 February 2000 a Tuesday. */
  lemma KnownDates()
    ensures Tm(70, 0, 1, 4, 0).Valid() && IsoDate(Tm(70, 0, 1, 4, 0).Day(), 1970, 1)
    ensures Tm(105, 0, 1, 6, 0).Valid() && IsoDate(Tm(105, 0, 1, 6, 0).Day(), 2004, 53)
    ensures Tm(108, 11, 29, 1, 363).Valid() && IsoDate(Tm(108, 11, 29, 1, 363).Day(), 2009, 1)
    ensures Tm(100, 1, 29, 2, 59).Valid() && IsoDate(Tm(100, 1, 29, 2, 59).Day(), 2000, 9)
  {
    hide YearStart, IsLeap;
    YearStarts();
    MonthBounds(11, true);
    assert DaysBefore(0, true) == 0 && DaysBefore(1, true) == 31 && DaysBefore(0, false) == 0;
  }

  // ---------------------------------------------------------------------
  // Week dates and days determine each other

  lemma OneWeekDate(day: int, y: int, v: int, z: int, w: int)
    requires IsoDate(day, y, v) && IsoDate(day, z, w)
    ensures y == z && v == w
  {
    OneYear(Thursday(day), y, z);
  }

  lemma {:induction false} DaysBeforeGrows(m: int, n: int, leap: bool)
    requires 0 <= m < n < 12
    ensures DaysBefore(m, leap) + MonthLength(m, leap) <= DaysBefore(n, leap)
    decreases n
  {
    if m < n - 1 {
      DaysBeforeGrows(m, n - 1, leap);
    }
  }

  lemma SameDay(t: Tm, u: Tm)
    requires t.Valid() && u.Valid() && t.Day() == u.Day()
    ensures t == u
  {
    hide YearStart, IsLeap;
    DayOfYear(t);
    DayOfYear(u);
    OneYear(t.Day(), t.Year(), u.Year());
    if t.mon < u.mon {
      DaysBeforeGrows(t.mon, u.mon, IsLeap(t.Year()));
    } else if u.mon < t.mon {
      DaysBeforeGrows(u.mon, t.mon, IsLeap(t.Year()));
    }
  }

  lemma DayFromThursday(t: Tm)
    requires t.Valid()
    ensures t.Day() == Thursday(t.Day()) - 3 + FromMonday(t.wday)
  {
    hide YearStart;
    DayOfYear(t);
    JanuaryFirst(YearStart(t.Year()), t.yday, t.wday);
  }

  /** Year, week and weekday determine the date. */
  lemma WeekDateDetermines(t: Tm, u: Tm, year: int, week: int)
    requires t.Valid() && u.Valid() && t.wday == u.wday
    requires IsoDate(t.Day(), year, week) && IsoDate(u.Day(), year, week)
    ensures t == u
  {
    hide YearStart, Tm.Valid, Tm.Day, FromMonday;
    DayFromThursday(t);
    DayFromThursday(u);
    SameDay(t, u);
  }
}
