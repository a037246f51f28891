/** FAT timestamps: packed date, time of day in two-second steps, and an optional 10 ms field. */
module FatTime {
  import opened Arithmetic

  const SECS_PER_MIN: int := 60
  const SECS_PER_HOUR: int := 60 * 60
  const SECS_PER_DAY: int := 60 * 60 * 24
  const UNIX_SECS_1980: int := 315532800
  const UNIX_SECS_2108: int := 4354819200
  /** Days between the first of 1970 and of 1980. */
  const DAYS_DELTA: int := 365 * 10 + 2
  /** 2100, counted from 1980, is no leap year. */
  const YEAR_2100: int := 120
  const CS_NSEC: int := 10_000_000
  const NSEC_PER_SEC: int := 1_000_000_000

  /** days_in_year: the day each month begins on, in a year that is not a leap year. */
  const DAYS_IN_YEAR: seq<int> := [0, 0, 31, 59, 90, 120, 151, 181, 212, 243, 273, 304, 334, 0, 0, 0]

  predicate IsLeapYear(y: int) {
    y % 4 == 0 && y != YEAR_2100
  }

  datatype Stamp = Stamp(time: int, date: int, cs: int)

  datatype Timespec = Timespec(sec: int, nsec: int)

  ghost predicate ValidTimespec(t: Timespec) {
    0 <= t.nsec < NSEC_PER_SEC
  }

  // ----- the calendar -----

  /** Leap days before year y. */
  function LeapDays(y: int): int {
    (y + 3) / 4 - if y > YEAR_2100 then 1 else 0
  }

  /** Day number, from 1 January 1980, on which year y begins. */
  function YearStart(y: int): int {
    y * 365 + LeapDays(y)
  }

  /** Day of the year, from 0, on which month m of year y begins. */
  function MonthStart(y: int, m: int): int
    requires 1 <= m <= 13
  {
    if m == 13 then (if IsLeapYear(y) then 366 else 365)
    else DAYS_IN_YEAR[m] + if IsLeapYear(y) && m > 2 then 1 else 0
  }

  /** The months have the lengths of the Gregorian calendar, and leap years are its leap years. */
  lemma MonthLengths(y: int, m: int)
    requires 0 <= y <= 127 && 1 <= m <= 12
    ensures IsLeapYear(y) <==> (1980 + y) % 4 == 0 && ((1980 + y) % 100 != 0 || (1980 + y) % 400 == 0)
    ensures MonthStart(y, m + 1) - MonthStart(y, m) ==
              if m == 2 then (if IsLeapYear(y) then 29 else 28) else if m in {4, 6, 9, 11} then 30 else 31
  {
  }

  lemma YearLength(y: int)
    requires y >= 0
    ensures YearStart(y + 1) == YearStart(y) + MonthStart(y, 13)
  {
  }

  lemma {:induction false} YearsInOrder(y: int, z: int)
    requires 0 <= y <= z
    ensures YearStart(y) <= YearStart(z)
    decreases z - y
  {
    if y < z {
      YearLength(y);
      YearsInOrder(y + 1, z);
    }
  }

  lemma {:induction false} MonthsInOrder(y: int, m: int, n: int)
    requires 1 <= m <= n <= 13
    ensures MonthStart(y, m) <= MonthStart(y, n)
    ensures MonthStart(y, 1) == 0
    decreases n - m
  {
    if m < n {
      assert MonthStart(y, m) <= MonthStart(y, m + 1);
      MonthsInOrder(y, m + 1, n);
    }
  }

  // ----- packed fields -----

  function Year(date: int): int { date / 512 }
  function Month(date: int): int { date / 32 % 16 }
  function Day(date: int): int { date % 32 }
  function Hour(time: int): int { time / 2048 }
  function Minute(time: int): int { time / 32 % 64 }
  function Twos(time: int): int { time % 32 }

  function PackDate(y: int, m: int, d: int): int {
    y * 512 + m * 32 + d
  }

  function PackTime(h: int, m: int, s: int): int {
    h * 2048 + m * 32 + s
  }

  /** Packing fields within their width loses nothing. */
  lemma DateFields(y: int, m: int, d: int)
    requires 0 <= y && 0 <= m < 16 && 0 <= d < 32
    ensures var date := PackDate(y, m, d);
            date >= 0 && Year(date) == y && Month(date) == m && Day(date) == d
  {
    var date := PackDate(y, m, d);
    QuotientUnique(32, y * 16 + m, d, date);
    QuotientUnique(512, y, m * 32 + d, date);
    QuotientUnique(16, y, m, y * 16 + m);
  }

  lemma UnpackDate(date: int)
    requires date >= 0
    ensures Year(date) >= 0 && 0 <= Month(date) < 16 && 0 <= Day(date) < 32
    ensures date == PackDate(Year(date), Month(date), Day(date))
  {
    var e := date / 32;
    QuotientUnique(512, e / 16, e % 16 * 32 + date % 32, date);
  }

  lemma TimeFields(h: int, m: int, s: int)
    requires 0 <= h && 0 <= m < 64 && 0 <= s < 32
    ensures var time := PackTime(h, m, s);
            time >= 0 && Hour(time) == h && Minute(time) == m && Twos(time) == s
  {
    var time := PackTime(h, m, s);
    QuotientUnique(32, h * 64 + m, s, time);
    QuotientUnique(2048, h, m * 32 + s, time);
    QuotientUnique(64, h, m, h * 64 + m);
  }

  lemma UnpackTime(time: int)
    requires time >= 0
    ensures Hour(time) >= 0 && 0 <= Minute(time) < 64 && 0 <= Twos(time) < 32
    ensures time == PackTime(Hour(time), Minute(time), Twos(time))
  {
    var e := time / 32;
    QuotientUnique(2048, e / 64, e % 64 * 32 + time % 32, time);
  }

  /** A date that exists: a year from 1980 to 2107, its month, and a day that month has. */
  predicate LegalDate(date: int) {
    && 0 <= date && Year(date) <= 127
    && 1 <= Month(date) <= 12
    && 1 <= Day(date) <= MonthStart(Year(date), Month(date) + 1) - MonthStart(Year(date), Month(date))
  }

  predicate LegalTime(time: int) {
    0 <= time && Hour(time) < 24 && Minute(time) < 60 && Twos(time) < 30
  }

  /** Day number of a date, the way the calendar counts. */
  function DayNumber(date: int): int
    requires 1 <= Month(date) <= 12
  {
    YearStart(Year(date)) + MonthStart(Year(date), Month(date)) + Day(date) - 1
  }

  function SecondOfDay(time: int): int {
    Hour(time) * SECS_PER_HOUR + Minute(time) * SECS_PER_MIN + Twos(time) * 2
  }

  /** UNIX time, without time zone, of a legal date and time. */
  function Moment(date: int, time: int): int
    requires 1 <= Month(date) <= 12
  {
    (DayNumber(date) + DAYS_DELTA) * SECS_PER_DAY + SecondOfDay(time)
  }

  // ----- fat_time_fat2unix -----

  /** The time a stored stamp with a month and a day stands for; west is the offset of the time zone in minutes. */
  function Loaded(tzUtc: bool, west: int, st: Stamp): Timespec
    requires 1 <= Month(st.date) <= 12
  {
    Timespec(Moment(st.date, st.time) + (if tzUtc then 0 else west * SECS_PER_MIN) + st.cs / 100, st.cs % 100 * CS_NSEC)
  }

  /** How far the bits of a date are from those of a day: a zero month or day counts as one, and a month past 12 as
      January, one day on in a leap year. */
  function DaysRead(date: int): int {
    var y, m := Year(date), Month(date);
    YearStart(y) + (if m > 12 then (if IsLeapYear(y) then 1 else 0) else MonthStart(y, Max(1, m)))
    + Max(1, Day(date)) - 1
  }

  /** fat_time_fat2unix. */
  method Fat2Unix(tzUtc: bool, west: int, st: Stamp) returns (ts: Timespec)
    requires 0 <= st.time < 0x1_0000 && 0 <= st.date < 0x1_0000 && 0 <= st.cs < 256
    ensures 1 <= Month(st.date) <= 12 && Day(st.date) >= 1 ==> ts == Loaded(tzUtc, west, st)
    ensures ts.sec == (DaysRead(st.date) + DAYS_DELTA) * SECS_PER_DAY + SecondOfDay(st.time)
                      + (if tzUtc then 0 else west * SECS_PER_MIN) + st.cs / 100
    ensures ts.nsec == st.cs % 100 * CS_NSEC
  {
    var year := st.date / 512;
    var month := Max(1, st.date / 32 % 16);
    var day := Max(1, st.date % 32) - 1;
    var leapDay := (year + 3) / 4;
    if year > YEAR_2100 {
      leapDay := leapDay - 1;
    }
    if IsLeapYear(year) && month > 2 {
      leapDay := leapDay + 1;
    }
    var second := st.time % 32 * 2;
    second := second + st.time / 32 % 64 * SECS_PER_MIN;
    second := second + st.time / 2048 * SECS_PER_HOUR;
    second := second + (year * 365 + leapDay + DAYS_IN_YEAR[month] + day + DAYS_DELTA) * SECS_PER_DAY;
    assert second == (DaysRead(st.date) + DAYS_DELTA) * SECS_PER_DAY + SecondOfDay(st.time);
    if !tzUtc {
      second := second + west * SECS_PER_MIN;
    }
    if st.cs != 0 {
      ts := Timespec(second + st.cs / 100, st.cs % 100 * CS_NSEC);
    } else {
      ts := Timespec(second, 0);
    }
  }

  // ----- fat_time_unix2fat -----

  const EARLIEST := Stamp(PackTime(0, 0, 0), PackDate(0, 1, 1), 0)
  const LATEST := Stamp(PackTime(23, 59, 29), PackDate(127, 12, 31), 199)

  /** The local second count the driver works with. */
  function LocalSecond(tzUtc: bool, west: int, ts: Timespec): int {
    ts.sec - if tzUtc then 0 else west * SECS_PER_MIN
  }

  /** The stamp st stands for ts: a date and time that exist, at the even second not after ts, and the remaining
      time in 10 ms steps when the entry has that field. Times outside 1980 .. 2107 get the nearest stamp. */
  predicate Stored(tzUtc: bool, west: int, ts: Timespec, withCs: bool, st: Stamp) {
    var second := LocalSecond(tzUtc, west, ts);
    && LegalDate(st.date) && LegalTime(st.time)
    && (second < UNIX_SECS_1980 ==> st == EARLIEST.(cs := 0))
    && (second >= UNIX_SECS_2108 ==> st == LATEST.(cs := if withCs then 199 else 0))
    && (UNIX_SECS_1980 <= second < UNIX_SECS_2108 ==>
          && Moment(st.date, st.time) == second - second % 2
          && st.cs == if withCs then second % 2 * 100 + ts.nsec / CS_NSEC else 0)
  }

  /** The year a day number falls in, from the guess day / 365. */
  lemma YearOfDay(day: int)
    requires 0 <= day < YearStart(128)
    ensures var q := day / 365;
            var y := if YearStart(q) > day then q - 1 else q;
            0 <= y <= 127 && YearStart(y) <= day < YearStart(y + 1)
  {
    var q := day / 365;
    assert 0 <= LeapDays(q) <= 32;
  }

  /** Splitting a second count into day, hour, minute and two-second step. */
  lemma SplitSecond(second: int)
    requires second >= 0
    ensures var d, h, m, t := second / SECS_PER_DAY, second / SECS_PER_HOUR % 24, second / SECS_PER_MIN % 60,
                              second % SECS_PER_MIN / 2;
            && 0 <= h < 24 && 0 <= m < 60 && 0 <= t < 30
            && second - second % 2 == d * SECS_PER_DAY + h * SECS_PER_HOUR + m * SECS_PER_MIN + t * 2
  {
    var minutes, s := second / SECS_PER_MIN, second % SECS_PER_MIN;
    var hours, m := minutes / 60, minutes % 60;
    QuotientUnique(SECS_PER_HOUR, hours, m * SECS_PER_MIN + s, second);
    var d, h := hours / 24, hours % 24;
    QuotientUnique(SECS_PER_DAY, d, h * SECS_PER_HOUR + m * SECS_PER_MIN + s, second);
    QuotientUnique(2, minutes * 30 + s / 2, s % 2, second);
  }

  /** The search loop of fat_time_unix2fat: the last month that begins on or before day. */
  method MonthOfDay(day: int) returns (month: int)
    requires 0 <= day < 365
    ensures 1 <= month <= 12
    ensures DAYS_IN_YEAR[month] <= day && (month < 12 ==> day < DAYS_IN_YEAR[month + 1])
  {
    month := 1;
    while month < 12
      invariant 1 <= month <= 12 && DAYS_IN_YEAR[month] <= day
    {
      if DAYS_IN_YEAR[month + 1] > day {
        break;
      }
      month := month + 1;
    }
  }

  /** The day that number counts to, as year, month and day of the month. */
  method DateOfDay(number: int) returns (year: int, month: int, day: int)
    requires 0 <= number < YearStart(128)
    ensures 0 <= year <= 127 && 1 <= month <= 12
    ensures 1 <= day <= MonthStart(year, month + 1) - MonthStart(year, month)
    ensures YearStart(year) + MonthStart(year, month) + day - 1 == number
  {
    YearOfDay(number);
    day := number;
    year := day / 365;
    var leapDay := (year + 3) / 4;
    if year > YEAR_2100 {
      leapDay := leapDay - 1;
    }
    if year * 365 + leapDay > day {
      year := year - 1;
    }
    leapDay := (year + 3) / 4;
    if year > YEAR_2100 {
      leapDay := leapDay - 1;
    }
    YearLength(year);
    day := day - (year * 365 + leapDay);
    if IsLeapYear(year) && day == DAYS_IN_YEAR[3] {
      month := 2;
    } else {
      if IsLeapYear(year) && day > DAYS_IN_YEAR[3] {
        day := day - 1;
      }
      month := MonthOfDay(day);
    }
    day := day - DAYS_IN_YEAR[month] + 1;
  }

  lemma SameParity(sec: int, second: int, west: int)
    requires second == sec || second == sec - west * SECS_PER_MIN
    ensures second % 2 == sec % 2
  {
    if second != sec {
      assert second == sec - 2 * (west * 30);
    }
  }

  /** What the fields of an existing day and time pack to. */
  lemma PackedMoment(y: int, m: int, d: int, hour: int, minute: int, twos: int)
    requires 0 <= y <= 127 && 1 <= m <= 12 && 1 <= d <= MonthStart(y, m + 1) - MonthStart(y, m)
    requires 0 <= hour < 24 && 0 <= minute < 60 && 0 <= twos < 30
    ensures LegalDate(PackDate(y, m, d)) && LegalTime(PackTime(hour, minute, twos))
    ensures Moment(PackDate(y, m, d), PackTime(hour, minute, twos))
            == (YearStart(y) + MonthStart(y, m) + d - 1 + DAYS_DELTA) * SECS_PER_DAY
               + hour * SECS_PER_HOUR + minute * SECS_PER_MIN + twos * 2
  {
    MonthLength(y, m);
    hide Year, Month, Day, Hour, Minute, Twos, MonthStart, YearStart;
    DateFields(y, m, d);
    TimeFields(hour, minute, twos);
  }

  lemma MonthLength(y: int, m: int)
    requires 1 <= m <= 12
    ensures MonthStart(y, m + 1) - MonthStart(y, m) < 32
  {
  }

  lemma SpanOfYears()
    ensures (YearStart(128) + DAYS_DELTA) * SECS_PER_DAY == UNIX_SECS_2108
  {
    var leap := LeapDays(128);
    assert leap == 31;
  }

  lemma Midnight()
    ensures PackTime(0, 0, 0) == 0
  {
  }

  lemma MonthEnds(y: int)
    ensures MonthStart(y, 13) - MonthStart(y, 12) == 31
    ensures MonthStart(y, 2) - MonthStart(y, 1) == 31
  {
  }

  /** fat_time_unix2fat; withCs says whether the caller has room for the 10 ms field. */
  method Unix2Fat(tzUtc: bool, west: int, ts: Timespec, withCs: bool) returns (st: Stamp)
    requires ValidTimespec(ts)
    ensures Stored(tzUtc, west, ts, withCs, st)
  {
    hide Moment, LegalDate, LegalTime, MonthStart, YearStart, PackDate, PackTime;
    Midnight();
    SpanOfYears();
    var second := ts.sec;
    if !tzUtc {
      second := second - west * SECS_PER_MIN;
    }
    if second < UNIX_SECS_1980 {
      ghost var first := 0;
      MonthEnds(first);
      PackedMoment(first, 1, 1, 0, 0, 0);
      return Stamp(0, PackDate(0, 1, 1), 0);
    }
    if second >= UNIX_SECS_2108 {
      ghost var last := 127;
      MonthEnds(last);
      PackedMoment(last, 12, 31, 23, 59, 29);
      return Stamp(PackTime(23, 59, 29), PackDate(127, 12, 31), if withCs then 199 else 0);
    }
    var year, month, day := DateOfDay(second / SECS_PER_DAY - DAYS_DELTA);
    var hour, minute, twos := second / SECS_PER_HOUR % 24, second / SECS_PER_MIN % 60, second % SECS_PER_MIN / 2;
    SplitSecond(second);
    PackedMoment(year, month, day, hour, minute, twos);
    st := Stamp(PackTime(hour, minute, twos), PackDate(year, month, day),
                if withCs then ts.sec % 2 * 100 + ts.nsec / CS_NSEC else 0);
    SameParity(ts.sec, second, west);
  }

  // ----- what the two promise together -----

  /** A time from 1980 up to 2108 comes back exactly, down to 10 ms; without the 10 ms field, to the even second. */
  lemma RoundTrip(tzUtc: bool, west: int, ts: Timespec, withCs: bool, st: Stamp)
    requires ValidTimespec(ts) && Stored(tzUtc, west, ts, withCs, st)
    requires UNIX_SECS_1980 <= LocalSecond(tzUtc, west, ts) < UNIX_SECS_2108
    ensures Loaded(tzUtc, west, st)
            == if withCs then Timespec(ts.sec, ts.nsec - ts.nsec % CS_NSEC) else Timespec(ts.sec - ts.sec % 2, 0)
  {
    hide Moment, LegalDate, LegalTime;
    var second := LocalSecond(tzUtc, west, ts);
    SameParity(ts.sec, second, west);
    var p, n := second % 2, ts.nsec / CS_NSEC;
    AddressFacts(CS_NSEC, ts.nsec);
    if withCs {
      QuotientUnique(100, p, n, st.cs);
    }
  }

  lemma DatesInOrder(a: int, b: int)
    requires LegalDate(a) && LegalDate(b) && a < b
    ensures DayNumber(a) < DayNumber(b)
  {
    hide Year, Month, Day, MonthStart, YearStart;
    UnpackDate(a);
    UnpackDate(b);
    if Year(a) < Year(b) {
      YearLength(Year(a));
      YearsInOrder(Year(a) + 1, Year(b));
      MonthsInOrder(Year(a), Month(a) + 1, 13);
      MonthsInOrder(Year(b), 1, Month(b));
    } else {
      assert Year(a) == Year(b);
      if Month(a) < Month(b) {
        MonthsInOrder(Year(a), Month(a) + 1, Month(b));
      }
    }
  }

  lemma TimesInOrder(a: int, b: int)
    requires LegalTime(a) && LegalTime(b) && a < b
    ensures SecondOfDay(a) < SecondOfDay(b)
  {
    hide Hour, Minute, Twos;
    UnpackTime(a);
    UnpackTime(b);
    if Hour(a) == Hour(b) {
      assert Minute(a) <= Minute(b);
    } else {
      assert Hour(a) < Hour(b);
    }
  }

  lemma SecondInDay(time: int)
    requires LegalTime(time)
    ensures 0 <= SecondOfDay(time) < SECS_PER_DAY
  {
    hide Hour, Minute, Twos;
    UnpackTime(time);
  }

  /** Legal dates and times are ordered the way their moments are. */
  lemma MomentsInOrder(d1: int, t1: int, d2: int, t2: int)
    requires LegalDate(d1) && LegalDate(d2) && LegalTime(t1) && LegalTime(t2)
    ensures Moment(d1, t1) < Moment(d2, t2) <==> d1 < d2 || (d1 == d2 && t1 < t2)
    ensures Moment(d1, t1) == Moment(d2, t2) <==> d1 == d2 && t1 == t2
  {
    hide Year, Month, Day, DayNumber, Hour, Minute, Twos, SecondOfDay;
    SecondInDay(t1);
    SecondInDay(t2);
    if d1 < d2 { DatesInOrder(d1, d2); }
    if d2 < d1 { DatesInOrder(d2, d1); }
    if t1 < t2 { TimesInOrder(t1, t2); }
    if t2 < t1 { TimesInOrder(t2, t1); }
  }

  predicate NotAfter(a: Stamp, b: Stamp) {
    a.date < b.date || (a.date == b.date && (a.time < b.time || (a.time == b.time && a.cs <= b.cs)))
  }

  predicate Earlier(t: Timespec, u: Timespec) {
    t.sec < u.sec || (t.sec == u.sec && t.nsec <= u.nsec)
  }

  lemma DateBounds(date: int)
    requires LegalDate(date)
    ensures PackDate(0, 1, 1) <= date <= PackDate(127, 12, 31)
  {
    hide Year, Month, Day, MonthStart;
    UnpackDate(date);
  }

  lemma TimeBounds(time: int)
    requires LegalTime(time)
    ensures 0 <= time <= PackTime(23, 59, 29)
  {
    hide Hour, Minute, Twos;
    UnpackTime(time);
  }

  lemma HundredthsInOrder(n: int, k: int)
    requires 0 <= n < NSEC_PER_SEC && 0 <= k < NSEC_PER_SEC
    ensures 0 <= n / CS_NSEC < 100
    ensures n <= k ==> n / CS_NSEC <= k / CS_NSEC
  {
  }

  /** Of two times in range the later gets no earlier stamp. */
  lemma InRangeMonotone(tzUtc: bool, west: int, t: Timespec, u: Timespec, withCs: bool, a: Stamp, b: Stamp)
    requires ValidTimespec(t) && ValidTimespec(u) && Earlier(t, u)
    requires Stored(tzUtc, west, t, withCs, a) && Stored(tzUtc, west, u, withCs, b)
    requires UNIX_SECS_1980 <= LocalSecond(tzUtc, west, t) && LocalSecond(tzUtc, west, u) < UNIX_SECS_2108
    ensures NotAfter(a, b)
  {
    hide LegalDate, LegalTime, Moment;
    var s, v := LocalSecond(tzUtc, west, t), LocalSecond(tzUtc, west, u);
    MomentsInOrder(a.date, a.time, b.date, b.time);
    assert s - s % 2 <= v - v % 2;
    HundredthsInOrder(t.nsec, u.nsec);
    HundredthsInOrder(u.nsec, t.nsec);
  }

  /** Later times never get earlier stamps, in range or out of it. */
  lemma StampsMonotone(tzUtc: bool, west: int, t: Timespec, u: Timespec, withCs: bool, a: Stamp, b: Stamp)
    requires ValidTimespec(t) && ValidTimespec(u) && Earlier(t, u)
    requires Stored(tzUtc, west, t, withCs, a) && Stored(tzUtc, west, u, withCs, b)
    ensures NotAfter(a, b)
  {
    hide LegalDate, LegalTime, Moment, PackDate, PackTime;
    Midnight();
    DateBounds(a.date);
    DateBounds(b.date);
    TimeBounds(a.time);
    TimeBounds(b.time);
    HundredthsInOrder(t.nsec, u.nsec);
    HundredthsInOrder(u.nsec, t.nsec);
    if UNIX_SECS_1980 <= LocalSecond(tzUtc, west, t) && LocalSecond(tzUtc, west, u) < UNIX_SECS_2108 {
      InRangeMonotone(tzUtc, west, t, u, withCs, a, b);
    }
  }
}
