/** FILETIME and FAT date arithmetic of user/kernel32.c on the proleptic Gregorian calendar. */
module Calendar {
  import opened Prelude

  const FIRST_YEAR := 1601
  const END_YEAR := 30828
  const DAY_SECONDS := 86400
  const SECOND_TICKS := 10_000_000
  const MILLISECOND_TICKS := 10_000

  datatype Date = Date(year: int, month: int, day: int)

  datatype SystemTime = SystemTime(date: Date, dayOfWeek: int, hour: int, minute: int, second: int, milliseconds: int)

  /** leap_year */
  predicate Leap(year: int)
  {
    (year % 4 == 0 && year % 100 != 0) || year % 400 == 0
  }

  function YearDays(year: int): int
  {
    if Leap(year) then 366 else 365
  }

  function MonthDays(year: int, month: int): int
  {
    if month == 2 then (if Leap(year) then 29 else 28)
    else if month == 4 || month == 6 || month == 9 || month == 11 then 30
    else 31
  }

  predicate ValidDate(d: Date)
  {
    FIRST_YEAR <= d.year && 1 <= d.month <= 12 && 1 <= d.day <= MonthDays(d.year, d.month)
  }

  /** The days from 1601-01-01 to January 1 of the year. */
  function YearStart(year: int): nat
    requires year >= FIRST_YEAR
  {
    if year == FIRST_YEAR then 0 else YearStart(year - 1) + YearDays(year - 1)
  }

  function MonthStart(year: int, month: int): nat
    requires 1 <= month <= 13
  {
    if month == 1 then 0 else MonthStart(year, month - 1) + MonthDays(year, month - 1)
  }

  /** The day number of a date; 1601-01-01 is day 0. */
  function DayNumber(d: Date): int
    requires ValidDate(d)
  {
    YearStart(d.year) + MonthStart(d.year, d.month) + d.day - 1
  }

  predicate ValidTime(t: SystemTime)
  {
    && ValidDate(t.date) && 0 <= t.hour < 24 && 0 <= t.minute < 60 && 0 <= t.second < 60
    && 0 <= t.milliseconds < 1000
  }

  /** The ticks of 100 ns from the start of 1601 to a time. */
  function Ticks(t: SystemTime): int
    requires ValidTime(t)
  {
    (DayNumber(t.date) * DAY_SECONDS + t.hour * 3600 + t.minute * 60 + t.second) * SECOND_TICKS
    + t.milliseconds * MILLISECOND_TICKS
  }

  lemma Fourth(n: int)
    ensures n / 4 == (n - 1) / 4 + (if n % 4 == 0 then 1 else 0) && (n + 1600) % 4 == n % 4
  {
  }

  lemma Hundredth(n: int)
    ensures n / 100 == (n - 1) / 100 + (if n % 100 == 0 then 1 else 0) && (n + 1600) % 100 == n % 100
    ensures n % 100 == 0 ==> n % 4 == 0
  {
  }

  lemma FourHundredth(n: int)
    ensures n / 400 == (n - 1) / 400 + (if n % 400 == 0 then 1 else 0) && (n + 1600) % 400 == n % 400
    ensures n % 400 == 0 ==> n % 100 == 0
  {
  }

  /** The Gregorian rule as a closed form: 97 leap years in every 400. */
  lemma {:induction false} YearStartClosed(year: int)
    requires year >= FIRST_YEAR
    ensures var n := year - FIRST_YEAR; YearStart(year) == 365 * n + n / 4 - n / 100 + n / 400
  {
    if year > FIRST_YEAR {
      YearStartClosed(year - 1);
      var n := year - FIRST_YEAR;
      Fourth(n);
      Hundredth(n);
      FourHundredth(n);
    }
  }

  lemma {:induction false} YearsInOrder(a: int, b: int)
    requires FIRST_YEAR <= a < b
    ensures YearStart(a) + YearDays(a) <= YearStart(b)
  {
    if a < b - 1 {
      YearsInOrder(a, b - 1);
    }
  }

  lemma {:induction false} MonthsInOrder(year: int, a: int, b: int)
    requires 1 <= a < b <= 13
    ensures MonthStart(year, a) + MonthDays(year, a) <= MonthStart(year, b)
  {
    if a < b - 1 {
      MonthsInOrder(year, a, b - 1);
    }
  }

  /** Twelve months make the year. */
  lemma MonthsFillYear(year: int)
    ensures MonthStart(year, 13) == YearDays(year)
  {
    var february := MonthDays(year, 2);
    assert MonthStart(year, 2) == 31;
    assert MonthStart(year, 3) == 31 + february;
    assert MonthStart(year, 4) == 62 + february;
    assert MonthStart(year, 5) == 92 + february;
    assert MonthStart(year, 6) == 123 + february;
    assert MonthStart(year, 7) == 153 + february;
    assert MonthStart(year, 8) == 184 + february;
    assert MonthStart(year, 9) == 215 + february;
    assert MonthStart(year, 10) == 245 + february;
    assert MonthStart(year, 11) == 276 + february;
    assert MonthStart(year, 12) == 306 + february;
  }

  /** The months of 2001, which has no leap day, begin after these many days. */
  lemma MonthsOf2001(month: int)
    requires 1 <= month <= 12
    ensures MonthStart(2001, month) == [0, 31, 59, 90, 120, 151, 181, 212, 243, 273, 304, 334][month - 1]
  {
    assert MonthStart(2001, 2) == 31 && MonthStart(2001, 3) == 59;
    assert MonthStart(2001, 4) == 90 && MonthStart(2001, 5) == 120;
    assert MonthStart(2001, 6) == 151 && MonthStart(2001, 7) == 181;
    assert MonthStart(2001, 8) == 212 && MonthStart(2001, 9) == 243;
    assert MonthStart(2001, 10) == 273 && MonthStart(2001, 11) == 304;
    assert MonthStart(2001, 12) == 334;
  }

  /** 1970-01-01 was day 134774, a Thursday, and 2000-02-29 existed. */
  lemma KnownDays()
    ensures DayNumber(Date(1970, 1, 1)) == 134774 && (DayNumber(Date(1970, 1, 1)) + 1) % 7 == 4
    ensures ValidDate(Date(2000, 2, 29)) && !ValidDate(Date(1900, 2, 29)) && !ValidDate(Date(2001, 2, 29))
  {
    YearStartClosed(1970);
    assert MonthStart(1970, 1) == 0;
  }

  predicate Earlier(a: Date, b: Date)
  {
    a.year < b.year || (a.year == b.year && (a.month < b.month || (a.month == b.month && a.day < b.day)))
  }

  /** Later dates have larger numbers. */
  lemma DatesInOrder(a: Date, b: Date)
    requires ValidDate(a) && ValidDate(b) && Earlier(a, b)
    ensures DayNumber(a) < DayNumber(b)
  {
    if a.year < b.year {
      YearsInOrder(a.year, b.year);
      MonthsInOrder(a.year, a.month, 13);
      MonthsFillYear(a.year);
    } else if a.month < b.month {
      MonthsInOrder(a.year, a.month, b.month);
    }
  }

  /** A day number has one date. */
  lemma DateUnique(a: Date, b: Date)
    requires ValidDate(a) && ValidDate(b) && DayNumber(a) == DayNumber(b)
    ensures a == b
  {
    if Earlier(a, b) {
      DatesInOrder(a, b);
    } else if Earlier(b, a) {
      DatesInOrder(b, a);
    }
  }

  /** What FileTimeToSystemTime answers: the valid time at the start of the ticks'
      millisecond, with its day of the week; day 0 was a Monday. */
  predicate IsTimeOf(t: SystemTime, ticks: nat)
  {
    ValidTime(t) && Ticks(t) == ticks - ticks % MILLISECOND_TICKS && t.dayOfWeek == (DayNumber(t.date) + 1) % 7
  }

  /** There is at most one answer. */
  lemma TimeUnique(a: SystemTime, b: SystemTime, ticks: nat)
    requires IsTimeOf(a, ticks) && IsTimeOf(b, ticks)
    ensures a == b
  {
    SplitTicks(a);
    SplitTicks(b);
    DateUnique(a.date, b.date);
  }

  /** The fields can be read back from the ticks. */
  lemma SplitTicks(t: SystemTime)
    requires ValidTime(t)
    ensures Ticks(t) / SECOND_TICKS / DAY_SECONDS == DayNumber(t.date)
    ensures var s := Ticks(t) / SECOND_TICKS % DAY_SECONDS;
      t.hour == s / 3600 && t.minute == s / 60 % 60 && t.second == s % 60
    ensures t.milliseconds == Ticks(t) % SECOND_TICKS / MILLISECOND_TICKS
  {
    var s := t.hour * 3600 + t.minute * 60 + t.second;
    var total := DayNumber(t.date) * DAY_SECONDS + s;
    SplitClock(t.hour, t.minute, t.second);
    Split(t.milliseconds * MILLISECOND_TICKS, total, SECOND_TICKS);
    Split(s, DayNumber(t.date), DAY_SECONDS);
  }

  lemma SplitClock(hour: int, minute: int, second: int)
    requires 0 <= hour < 24 && 0 <= minute < 60 && 0 <= second < 60
    ensures var s := hour * 3600 + minute * 60 + second;
      0 <= s < DAY_SECONDS && hour == s / 3600 && minute == s / 60 % 60 && second == s % 60
  {
  }

  lemma Split(low: int, high: int, unit: int)
    requires 0 <= low < unit
    ensures (high * unit + low) / unit == high && (high * unit + low) % unit == low
  {
    var v := high * unit + low;
    var q, r := v / unit, v % unit;
    assert (high - q) * unit == r - low;
    assert high - q >= 1 ==> (high - q) * unit >= unit;
    assert high - q <= -1 ==> (high - q) * unit <= -unit;
  }

  /** The first tick the conversion refuses. */
  function Limit(): nat
  {
    YearStart(END_YEAR) * DAY_SECONDS * SECOND_TICKS
  }

  /** The loop over years: the year a day number falls in, and the days left in it. */
  method FindYear(days: nat) returns (year: int, rest: nat)
    ensures FIRST_YEAR <= year <= END_YEAR && days == YearStart(year) + rest
    ensures year < END_YEAR ==> rest < YearDays(year)
    ensures year == END_YEAR <==> days >= YearStart(END_YEAR)
  {
    year, rest := FIRST_YEAR, days;
    while year < END_YEAR
      invariant FIRST_YEAR <= year <= END_YEAR && days == YearStart(year) + rest
    {
      var count := if Leap(year) then 366 else 365;
      if rest < count {
        YearsInOrder(year, END_YEAR);
        break;
      }
      rest := rest - count;
      year := year + 1;
    }
  }

  /** The loop over months. */
  method FindMonth(year: int, days: nat) returns (month: int, rest: nat)
    requires days < YearDays(year)
    ensures 1 <= month <= 12 && days == MonthStart(year, month) + rest && rest < MonthDays(year, month)
  {
    month, rest := 1, days;
    while month <= 12
      invariant 1 <= month <= 13 && days == MonthStart(year, month) + rest
    {
      var count := MonthLength(month);
      if month == 2 && Leap(year) {
        count := count + 1;
      }
      if rest < count {
        return;
      }
      rest := rest - count;
      month := month + 1;
    }
    MonthsFillYear(year);
  }

  /** The table month_days. */
  function MonthLength(month: int): nat
    requires 1 <= month <= 12
  {
    [31, 28, 31, 30, 31, 30, 31, 31, 30, 31, 30, 31][month - 1]
  }

  /** FileTimeToSystemTime: it fails exactly from year 30828 on. */
  method FileTimeToSystemTime(ticks: nat) returns (r: Option<SystemTime>)
    ensures r.None? <==> ticks >= Limit()
    ensures r.Some? ==> IsTimeOf(r.value, ticks) && r.value.date.year < END_YEAR
  {
    var totalSeconds := ticks / SECOND_TICKS;
    var days := totalSeconds / DAY_SECONDS;
    var seconds := totalSeconds % DAY_SECONDS;
    var dayOfWeek := (days + 1) % 7;
    var year, inYear := FindYear(days);
    LimitInDays(ticks);
    if year == END_YEAR {
      return None;
    }
    var month, inMonth := FindMonth(year, inYear);
    r := Some(SystemTime(Date(year, month, inMonth + 1), dayOfWeek, seconds / 3600, seconds / 60 % 60, seconds % 60,
                         ticks % SECOND_TICKS / MILLISECOND_TICKS));
    Recombine(ticks, r.value);
  }

  lemma LimitInDays(ticks: nat)
    ensures ticks >= Limit() <==> ticks / SECOND_TICKS / DAY_SECONDS >= YearStart(END_YEAR)
  {
    var s, days := ticks / SECOND_TICKS, ticks / SECOND_TICKS / DAY_SECONDS;
    InUnits(s, DAY_SECONDS, YearStart(END_YEAR));
    InUnits(ticks, SECOND_TICKS, YearStart(END_YEAR) * DAY_SECONDS);
  }

  /** n whole units are reached exactly when the quotient reaches n. */
  lemma InUnits(v: nat, unit: nat, n: nat)
    requires unit > 0
    ensures v >= n * unit <==> v / unit >= n
  {
    var q, r := v / unit, v % unit;
    assert v == q * unit + r;
    if q >= n {
      assert q * unit == n * unit + (q - n) * unit;
    } else {
      assert n * unit == q * unit + unit + (n - q - 1) * unit;
    }
  }

  lemma Recombine(ticks: nat, t: SystemTime)
    requires ValidDate(t.date) && DayNumber(t.date) == ticks / SECOND_TICKS / DAY_SECONDS
    requires var s := ticks / SECOND_TICKS % DAY_SECONDS;
      t.hour == s / 3600 && t.minute == s / 60 % 60 && t.second == s % 60
    requires t.milliseconds == ticks % SECOND_TICKS / MILLISECOND_TICKS
    ensures ValidTime(t) && Ticks(t) == ticks - ticks % MILLISECOND_TICKS
  {
    var total, part := ticks / SECOND_TICKS, ticks % SECOND_TICKS;
    var s := total % DAY_SECONDS;
    assert ticks == total * SECOND_TICKS + part && total == DayNumber(t.date) * DAY_SECONDS + s;
    assert s == t.hour * 3600 + t.minute * 60 + t.second;
    assert part == t.milliseconds * MILLISECOND_TICKS + part % MILLISECOND_TICKS;
    assert ticks % MILLISECOND_TICKS == part % MILLISECOND_TICKS;
  }

  // ------------------------------------------------------------- FAT dates

  type Word = w: int | 0 <= w < 0x1_0000

  /** The fields of a FAT date and time. */
  function FatDate(date: Word): Date
  {
    Date(1980 + date / 512, date / 32 % 16, date % 32)
  }

  function FatHour(time: Word): int { time / 2048 % 32 }

  function FatMinute(time: Word): int { time / 32 % 64 }

  function FatSecond(time: Word): int { time % 32 * 2 }

  /** What the conversion checks. */
  predicate Accepted(date: Word)
  {
    date != 0 && 1 <= FatDate(date).month <= 12 && FatDate(date).day >= 1
  }

  /** The result of fat_datetime_ticks; days past the end of a month run on. */
  function FatTicks(date: Word, time: Word): nat
  {
    if !Accepted(date) then 0
    else
      var d := FatDate(date);
      ((YearStart(d.year) + MonthStart(d.year, d.month) + d.day - 1) * DAY_SECONDS
       + FatHour(time) * 3600 + FatMinute(time) * 60 + FatSecond(time)) * SECOND_TICKS
  }

  /** The loop over years of fat_datetime_ticks. */
  method YearsBefore(year: int) returns (days: nat)
    requires year >= FIRST_YEAR
    ensures days == YearStart(year)
  {
    days := 0;
    var y := FIRST_YEAR;
    while y < year
      invariant FIRST_YEAR <= y <= year && days == YearStart(y)
    {
      days := days + if Leap(y) then 366 else 365;
      y := y + 1;
    }
  }

  /** Its loop over months. */
  method MonthsBefore(year: int, month: int) returns (days: nat)
    requires 1 <= month <= 12
    ensures days == MonthStart(year, month)
  {
    days := 0;
    var m := 1;
    while m < month
      invariant 1 <= m <= month && days == MonthStart(year, m)
    {
      days := days + MonthLength(m);
      if m == 2 && Leap(year) {
        days := days + 1;
      }
      m := m + 1;
    }
  }

  method FatDatetimeTicks(date: Word, time: Word) returns (ticks: nat)
    ensures ticks == FatTicks(date, time)
    ensures ticks < TWO_64
  {
    var year, month, day := 1980 + date / 512, date / 32 % 16, date % 32;
    if date == 0 || month < 1 || month > 12 || day < 1 {
      return 0;
    }
    var before := YearsBefore(year);
    var inYear := MonthsBefore(year, month);
    var days: nat := before + inYear;
    YearStartClosed(year);
    MonthBound(year, month);
    days := days + day - 1;
    var seconds := days * 86400;
    seconds := seconds + time / 2048 % 32 * 3600;
    seconds := seconds + time / 32 % 64 * 60;
    seconds := seconds + time % 32 * 2;
    ticks := seconds * 10_000_000;
  }

  /** The fields name a day of the calendar and a time of the day. */
  predicate ValidFat(date: Word, time: Word)
  {
    Accepted(date) && ValidDate(FatDate(date)) && FatHour(time) < 24 && FatMinute(time) < 60 && FatSecond(time) < 60
  }

  /** Converting an accepted FAT date and back gives the same fields exactly when they are
      valid. */
  lemma FatRoundTrip(date: Word, time: Word, t: SystemTime)
    requires Accepted(date) && IsTimeOf(t, FatTicks(date, time))
    ensures ValidFat(date, time) <==> t == FatFields(date, time, t.dayOfWeek)
  {
    if ValidFat(date, time) {
      var d := FatDate(date);
      var u := FatFields(date, time, (DayNumber(d) + 1) % 7);
      assert Ticks(u) == FatTicks(date, time);
      WholeSeconds(u, FatTicks(date, time));
      TimeUnique(t, u, FatTicks(date, time));
    }
  }

  function FatFields(date: Word, time: Word, dayOfWeek: int): SystemTime
  {
    SystemTime(FatDate(date), dayOfWeek, FatHour(time), FatMinute(time), FatSecond(time), 0)
  }

  /** A date and time as FAT packs them: years from 1980 in seven bits, months in four, days
      in five; hours in five, minutes in six, pairs of seconds in five. */
  function PackedDate(year: int, month: int, day: int): Word
    requires 1980 <= year <= 2107 && 0 <= month < 16 && 0 <= day < 32
  {
    (year - 1980) * 512 + month * 32 + day
  }

  function PackedTime(hour: int, minute: int, second: int): Word
    requires 0 <= hour < 32 && 0 <= minute < 64 && 0 <= second < 64
  {
    hour * 2048 + minute * 32 + second / 2
  }

  lemma UnpackDate(year: int, month: int, day: int)
    requires 1980 <= year <= 2107 && 0 <= month < 16 && 0 <= day < 32
    ensures FatDate(PackedDate(year, month, day)) == Date(year, month, day)
  {
  }

  lemma UnpackTime(hour: int, minute: int, second: int)
    requires 0 <= hour < 32 && 0 <= minute < 64 && 0 <= second < 64
    ensures var w := PackedTime(hour, minute, second);
      FatHour(w) == hour && FatMinute(w) == minute && FatSecond(w) == second / 2 * 2
  {
    var w := PackedTime(hour, minute, second);
    assert w / 2048 == hour;
    assert w / 32 == hour * 64 + minute;
    assert w % 32 == second / 2;
  }

  /** Whatever date from 1980 to 2107 and time of day is packed, converting it and converting
      back gives that date and time, to the even second. */
  lemma PackedRoundTrip(d: Date, hour: int, minute: int, second: int, t: SystemTime)
    requires ValidDate(d) && 1980 <= d.year <= 2107
    requires 0 <= hour < 24 && 0 <= minute < 60 && 0 <= second < 60
    requires IsTimeOf(t, FatTicks(PackedDate(d.year, d.month, d.day), PackedTime(hour, minute, second)))
    ensures t == SystemTime(d, t.dayOfWeek, hour, minute, second - second % 2, 0)
  {
    UnpackDate(d.year, d.month, d.day);
    UnpackTime(hour, minute, second);
    FatRoundTrip(PackedDate(d.year, d.month, d.day), PackedTime(hour, minute, second), t);
  }

  lemma WholeSeconds(t: SystemTime, ticks: nat)
    requires ValidTime(t) && t.milliseconds == 0 && Ticks(t) == ticks && t.dayOfWeek == (DayNumber(t.date) + 1) % 7
    ensures IsTimeOf(t, ticks)
  {
    var s := DayNumber(t.date) * DAY_SECONDS + t.hour * 3600 + t.minute * 60 + t.second;
    assert ticks == (s * 1000) * MILLISECOND_TICKS;
  }

  lemma NextMonth(d: Date)
    requires FIRST_YEAR <= d.year && 1 <= d.month <= 12 && MonthDays(d.year, d.month) < d.day <= 31
    ensures d.month < 12
    ensures var next := Date(d.year, d.month + 1, d.day - MonthDays(d.year, d.month));
      ValidDate(next) && DayNumber(next) == YearStart(d.year) + MonthStart(d.year, d.month) + d.day - 1
  {
    assert MonthStart(d.year, d.month + 1) == MonthStart(d.year, d.month) + MonthDays(d.year, d.month);
  }

  /** A day past the end of its month, which the conversion accepts, comes back as a day of
      the next month. */
  lemma RunsOn(date: Word, time: Word, t: SystemTime)
    requires Accepted(date) && IsTimeOf(t, FatTicks(date, time))
    requires !ValidDate(FatDate(date)) && FatHour(time) < 24 && FatMinute(time) < 60 && FatSecond(time) < 60
    ensures var d := FatDate(date); t.date == Date(d.year, d.month + 1, d.day - MonthDays(d.year, d.month))
  {
    var d := FatDate(date);
    var next := Date(d.year, d.month + 1, d.day - MonthDays(d.year, d.month));
    NextMonth(d);
    var u := SystemTime(next, (DayNumber(next) + 1) % 7, FatHour(time), FatMinute(time), FatSecond(time), 0);
    assert Ticks(u) == FatTicks(date, time);
    WholeSeconds(u, FatTicks(date, time));
    TimeUnique(t, u, FatTicks(date, time));
  }

  /** Every FAT time converts: it lies far below the limit. */
  lemma FatBelowLimit(date: Word, time: Word)
    ensures FatTicks(date, time) < Limit()
  {
    if Accepted(date) {
      var d := FatDate(date);
      YearStartClosed(d.year);
      YearStartClosed(END_YEAR);
      MonthBound(d.year, d.month);
    }
  }

  lemma {:induction false} MonthBound(year: int, month: int)
    requires 1 <= month <= 13
    ensures MonthStart(year, month) <= 31 * (month - 1)
  {
    if month > 1 {
      MonthBound(year, month - 1);
    }
  }
}
