/**
 The calendar clock of ikcc_service/src/src/xlinkgateway/xlink/xlink_system.c, kept up to date by a
 loop that is called at least once a minute.
 */
module Clock {

  // ---- the Gregorian calendar ----

  predicate Leap(y: nat) {
    y % 400 == 0 || (y % 100 != 0 && y % 4 == 0)
  }

  function MonthLength(y: nat, m: nat): (d: nat)
    ensures 28 <= d <= 31
  {
    if m == 2 then if Leap(y) then 29 else 28
    else if m == 4 || m == 6 || m == 9 || m == 11 then 30
    else 31
  }

  function DaysBeforeMonth(y: nat, m: nat): nat {
    if m <= 1 then 0 else DaysBeforeMonth(y, m - 1) + MonthLength(y, m - 1)
  }

  function YearLength(y: nat): nat {
    if Leap(y) then 366 else 365
  }

  /** Days before the first of January. */
  function DaysBeforeYear(y: nat): nat {
    if y == 0 then 0 else DaysBeforeYear(y - 1) + YearLength(y - 1)
  }

  function DayNumber(y: nat, m: nat, d: nat): int {
    DaysBeforeYear(y) + DaysBeforeMonth(y, m) + d - 1
  }

  predicate ValidDate(y: nat, m: nat, d: nat) {
    1 <= m <= 12 && 1 <= d <= MonthLength(y, m)
  }

  lemma TwelveMonths(y: nat)
    ensures DaysBeforeMonth(y, 12) + 31 == YearLength(y)
  {
    assert DaysBeforeMonth(y, 1) == 0;
    assert DaysBeforeMonth(y, 2) == 31;
    assert DaysBeforeMonth(y, 3) == 31 + MonthLength(y, 2);
    assert DaysBeforeMonth(y, 4) == 62 + MonthLength(y, 2);
    assert DaysBeforeMonth(y, 5) == 92 + MonthLength(y, 2);
    assert DaysBeforeMonth(y, 6) == 123 + MonthLength(y, 2);
    assert DaysBeforeMonth(y, 7) == 153 + MonthLength(y, 2);
    assert DaysBeforeMonth(y, 8) == 184 + MonthLength(y, 2);
    assert DaysBeforeMonth(y, 9) == 215 + MonthLength(y, 2);
    assert DaysBeforeMonth(y, 10) == 245 + MonthLength(y, 2);
    assert DaysBeforeMonth(y, 11) == 276 + MonthLength(y, 2);
    assert DaysBeforeMonth(y, 12) == 306 + MonthLength(y, 2);
  }

  lemma {:induction false} MonthsGrow(y: nat, m: nat, n: nat)
    requires 1 <= m < n
    ensures DaysBeforeMonth(y, n) >= DaysBeforeMonth(y, m) + MonthLength(y, m)
    decreases n
  {
    if m < n - 1 {
      MonthsGrow(y, m, n - 1);
    }
  }

  lemma {:induction false} YearsGrow(y: nat, z: nat)
    requires y < z
    ensures DaysBeforeYear(z) >= DaysBeforeYear(y) + YearLength(y)
    decreases z
  {
    if y < z - 1 {
      YearsGrow(y, z - 1);
    }
  }

  /** A date lies in its year. */
  lemma InYear(y: nat, m: nat, d: nat)
    requires ValidDate(y, m, d)
    ensures DaysBeforeYear(y) <= DayNumber(y, m, d) < DaysBeforeYear(y) + YearLength(y)
  {
    TwelveMonths(y);
    if m < 12 {
      MonthsGrow(y, m, 12);
    }
  }

  /** No two dates have the same number: the number of a day determines its date. */
  lemma DateUnique(y: nat, m: nat, d: nat, y': nat, m': nat, d': nat)
    requires ValidDate(y, m, d) && ValidDate(y', m', d') && DayNumber(y, m, d) == DayNumber(y', m', d')
    ensures y == y' && m == m' && d == d'
  {
    InYear(y, m, d);
    InYear(y', m', d');
    if y < y' {
      YearsGrow(y, y');
    } else if y' < y {
      YearsGrow(y', y);
    } else if m < m' {
      MonthsGrow(y, m, m');
    } else if m' < m {
      MonthsGrow(y, m', m);
    }
  }

  // ---- the same calendar, written out ----

  /** One day in four years, less one in a hundred, and again one in four hundred. */
  predicate HasLeapDay(y: nat) {
    y % 4 == 0 && (y % 100 == 0 ==> y % 400 == 0)
  }

  /** The number of a date in the Gregorian calendar, counted from the first of January of year 0. */
  function Day(y: nat, m: nat, d: nat): int
    requires 1 <= m <= 12
  {
    365 * y + (y + 3) / 4 - (y + 99) / 100 + (y + 399) / 400
    + [0, 31, 59, 90, 120, 151, 181, 212, 243, 273, 304, 334][m - 1]
    + (if m >= 3 && HasLeapDay(y) then 1 else 0)
    + d - 1
  }

  /** A day of a month lies before the first of the next one. */
  predicate IsDate(y: nat, m: nat, d: nat) {
    1 <= m <= 12 && 1 <= d && Day(y, m, d) < if m < 12 then Day(y, m + 1, 1) else Day(y + 1, 1, 1)
  }

  lemma FoursInStep(y: nat)
    ensures (y + 4) / 4 - (y + 3) / 4 == if y % 4 == 0 then 1 else 0
  {
  }

  lemma HundredsInStep(y: nat)
    ensures (y + 100) / 100 - (y + 99) / 100 == if y % 100 == 0 then 1 else 0
  {
  }

  lemma FourHundredsInStep(y: nat)
    ensures (y + 400) / 400 - (y + 399) / 400 == if y % 400 == 0 then 1 else 0
  {
  }

  lemma LeapDayIsLeap(y: nat)
    ensures HasLeapDay(y) <==> Leap(y)
    ensures y % 400 == 0 ==> y % 100 == 0
    ensures y % 100 == 0 ==> y % 4 == 0
  {
    assert y % 400 == 0 ==> y == 100 * (4 * (y / 400));
    assert y % 100 == 0 ==> y == 4 * (25 * (y / 100));
  }

  lemma {:induction false} YearsClosed(y: nat)
    ensures DaysBeforeYear(y) == 365 * y + (y + 3) / 4 - (y + 99) / 100 + (y + 399) / 400
  {
    if y > 0 {
      YearsClosed(y - 1);
      FoursInStep(y - 1);
      HundredsInStep(y - 1);
      FourHundredsInStep(y - 1);
      LeapDayIsLeap(y - 1);
    }
  }

  lemma MonthsClosed(y: nat, m: nat)
    requires 1 <= m <= 12
    ensures DaysBeforeMonth(y, m)
         == [0, 31, 59, 90, 120, 151, 181, 212, 243, 273, 304, 334][m - 1] + if m >= 3 && HasLeapDay(y) then 1 else 0
  {
    TwelveMonths(y);
    LeapDayIsLeap(y);
  }

  /** The calendar of leap years and lengths of months is the one written out. */
  lemma DaysAreCounted(y: nat, m: nat, d: nat)
    requires 1 <= m <= 12
    ensures DayNumber(y, m, d) == Day(y, m, d)
  {
    YearsClosed(y);
    MonthsClosed(y, m);
  }

  lemma NextMonth(y: nat, m: nat)
    requires 1 <= m <= 12
    ensures DayNumber(y, m, 1) + MonthLength(y, m) == if m < 12 then Day(y, m + 1, 1) else Day(y + 1, 1, 1)
  {
    if m < 12 {
      DaysAreCounted(y, m + 1, 1);
    } else {
      TwelveMonths(y);
      DaysAreCounted(y + 1, 1, 1);
    }
  }

  lemma DatesAreDates(y: nat, m: nat, d: nat)
    ensures ValidDate(y, m, d) <==> IsDate(y, m, d)
  {
    if 1 <= m <= 12 {
      DaysAreCounted(y, m, d);
      NextMonth(y, m);
    }
  }

  // ---- stamps ----

  /** The fields of `XLINK_SYS_TIME` that change. */
  datatype Stamp = Stamp(year: nat, mon: nat, day: nat, week: nat, hour: nat, min: nat, sec: nat)

  predicate ValidStamp(s: Stamp) {
    s.year < 0x1_0000 && ValidDate(s.year, s.mon, s.day) && s.week < 7 && s.hour < 24 && s.min < 60 && s.sec < 60
  }

  /** Seconds since the start of the calendar. */
  function Seconds(s: Stamp): int {
    ((DayNumber(s.year, s.mon, s.day) * 24 + s.hour) * 60 + s.min) * 60 + s.sec
  }

  /** The two agree on which weekday falls on which date. */
  predicate SameWeek(s: Stamp, t: Stamp) {
    (DayNumber(t.year, t.mon, t.day) - DayNumber(s.year, s.mon, s.day)) % 7 == (t.week - s.week) % 7
  }

  /** A day before a year of sixteen bits: the year does not run over. */
  predicate Before(last: nat, day: int) {
    last < 0x1_0000 && day < DaysBeforeYear(last)
  }

  // ---- what the code does ----

  function NextDay(s: Stamp): Stamp {
    var t := s.(hour := 0, week := if s.week + 1 == 7 then 0 else s.week + 1);
    if s.day + 1 > MonthLength(s.year, s.mon) then
      if s.mon + 1 > 12 then t.(day := 1, mon := 1, year := (s.year + 1) % 0x1_0000) else t.(day := 1, mon := s.mon + 1)
    else t.(day := s.day + 1)
  }

  function NextMinute(s: Stamp): Stamp {
    if s.min + 1 < 60 then s.(min := s.min + 1)
    else if s.hour + 1 < 24 then s.(min := 0, hour := s.hour + 1)
    else NextDay(s.(min := 0))
  }

  /** `xlinkSysTimeCount` for a difference above zero; seconds are counted in eight bits. */
  function Tick(s: Stamp, gap: nat): Stamp {
    var sec := (s.sec + gap) % 256;
    if sec < 60 then s.(sec := sec) else NextMinute(s.(sec := sec - 60))
  }

  lemma YearFits(y: nat, m: nat, d: nat, last: nat)
    requires ValidDate(y, m, d) && Before(last, DayNumber(y, m, d))
    ensures y < last
  {
    InYear(y, m, d);
    if last < y {
      YearsGrow(last, y);
    }
  }

  /** The date after a date. */
  lemma NextDate(y: nat, m: nat, d: nat)
    requires ValidDate(y, m, d)
    ensures d < MonthLength(y, m) ==> ValidDate(y, m, d + 1) && DayNumber(y, m, d + 1) == DayNumber(y, m, d) + 1
    ensures d == MonthLength(y, m) && m < 12 ==> ValidDate(y, m + 1, 1) && DayNumber(y, m + 1, 1) == DayNumber(y, m, d) + 1
    ensures d == MonthLength(y, m) && m == 12 ==> ValidDate(y + 1, 1, 1) && DayNumber(y + 1, 1, 1) == DayNumber(y, m, d) + 1
  {
    TwelveMonths(y);
    assert DaysBeforeYear(y + 1) == DaysBeforeYear(y) + YearLength(y);
    assert m < 12 ==> DaysBeforeMonth(y, m + 1) == DaysBeforeMonth(y, m) + MonthLength(y, m);
  }

  lemma NextDayDate(s: Stamp, last: nat)
    requires ValidStamp(s) && Before(last, DayNumber(s.year, s.mon, s.day))
    ensures var t := NextDay(s); ValidDate(t.year, t.mon, t.day) && t.year < 0x1_0000
    ensures var t := NextDay(s); DayNumber(t.year, t.mon, t.day) == DayNumber(s.year, s.mon, s.day) + 1
  {
    var y, m, d := s.year, s.mon, s.day;
    var t := NextDay(s);
    NextDate(y, m, d);
    YearFits(y, m, d, last);
    if d < MonthLength(y, m) {
      assert t.year == y && t.mon == m && t.day == d + 1;
    } else if m < 12 {
      assert t.year == y && t.mon == m + 1 && t.day == 1;
    } else {
      assert t.year == y + 1 && t.mon == 1 && t.day == 1;
    }
  }

  lemma WeekTurns(w: nat)
    requires w < 7
    ensures ((if w + 1 == 7 then 0 else w + 1) - w) % 7 == 1
  {
  }

  /** The next day is the next date, and the next weekday. */
  lemma NextDayIsNext(s: Stamp, last: nat)
    requires ValidStamp(s) && Before(last, DayNumber(s.year, s.mon, s.day))
    ensures var t := NextDay(s);
      ValidStamp(t) && DayNumber(t.year, t.mon, t.day) == DayNumber(s.year, s.mon, s.day) + 1 && SameWeek(s, t)
      && t.hour == 0 && t.min == s.min && t.sec == s.sec
    ensures var t := NextDay(s); IsDate(t.year, t.mon, t.day) && Day(t.year, t.mon, t.day) == Day(s.year, s.mon, s.day) + 1
  {
    NextDayDate(s, last);
    WeekTurns(s.week);
    var t := NextDay(s);
    DatesAreDates(t.year, t.mon, t.day);
    DaysAreCounted(s.year, s.mon, s.day);
    DaysAreCounted(t.year, t.mon, t.day);
  }

  lemma NextMinuteIsNext(s: Stamp, last: nat)
    requires ValidStamp(s) && Before(last, DayNumber(s.year, s.mon, s.day))
    ensures ValidStamp(NextMinute(s)) && Seconds(NextMinute(s)) == Seconds(s) + 60 && SameWeek(s, NextMinute(s))
    ensures NextMinute(s).sec == s.sec
  {
    if s.min == 59 && s.hour == 23 {
      NextDayIsNext(s.(min := 0), last);
    }
  }

  lemma SetSeconds(s: Stamp, sec: nat)
    requires ValidStamp(s) && sec < 60
    ensures ValidStamp(s.(sec := sec)) && Seconds(s.(sec := sec)) == Seconds(s) - s.sec + sec && SameWeek(s, s.(sec := sec))
  {
  }

  /** Whatever the difference: the clock moves on by what the eight bits make of it. */
  lemma TickMoves(s: Stamp, gap: nat, last: nat)
    requires ValidStamp(s) && Before(last, DayNumber(s.year, s.mon, s.day))
    ensures var sec := (s.sec + gap) % 256;
      sec < 120 ==> ValidStamp(Tick(s, gap)) && Seconds(Tick(s, gap)) == Seconds(s) - s.sec + sec && SameWeek(s, Tick(s, gap))
  {
    var sec := (s.sec + gap) % 256;
    if sec < 60 {
      SetSeconds(s, sec);
    } else if sec < 120 {
      SecondsRunOver(s, sec, last);
    }
  }

  lemma SecondsRunOver(s: Stamp, sec: nat, last: nat)
    requires ValidStamp(s) && Before(last, DayNumber(s.year, s.mon, s.day)) && 60 <= sec < 120
    ensures var t := NextMinute(s.(sec := sec - 60)); ValidStamp(t) && Seconds(t) == Seconds(s) - s.sec + sec && SameWeek(s, t)
  {
    var t := s.(sec := sec - 60);
    SetSeconds(s, sec - 60);
    NextMinuteIsNext(t, last);
    SameWeekOn(s, t, NextMinute(t));
  }

  lemma NextMinuteKeepsSeconds(s: Stamp)
    ensures NextMinute(s).sec == s.sec
  {
  }

  /** The clock is right after a step just when the seconds come to less than two minutes; a larger
      difference leaves a wrong time, or seconds that are none. */
  lemma TickIsRightExactly(s: Stamp, gap: nat, last: nat)
    requires ValidStamp(s) && Before(last, DayNumber(s.year, s.mon, s.day))
    ensures ValidStamp(Tick(s, gap)) && Seconds(Tick(s, gap)) == Seconds(s) + gap && SameWeek(s, Tick(s, gap)) <==> s.sec + gap < 120
  {
    TickMoves(s, gap, last);
    var sec := (s.sec + gap) % 256;
    if sec >= 60 {
      NextMinuteKeepsSeconds(s.(sec := sec - 60));
    }
  }

  lemma SameWeekOn(s: Stamp, t: Stamp, u: Stamp)
    requires SameWeek(s, t) && SameWeek(t, u)
    ensures SameWeek(s, u)
  {
  }

  /** Time stands for the seconds since some start: what the clock shows is determined by it. */
  lemma StampUnique(s: Stamp, t: Stamp)
    requires ValidStamp(s) && ValidStamp(t) && Seconds(s) == Seconds(t) && SameWeek(s, t)
    ensures s == t
  {
    SameDay(DayNumber(s.year, s.mon, s.day), s.hour, s.min, s.sec, DayNumber(t.year, t.mon, t.day), t.hour, t.min, t.sec);
    DateUnique(s.year, s.mon, s.day, t.year, t.mon, t.day);
    SameWeekday(s.week, t.week);
  }

  lemma SameWeekday(v: nat, w: nat)
    requires v < 7 && w < 7
    ensures (w - v) % 7 == 0 ==> v == w
  {
  }

  lemma SameDay(m: int, h: nat, i: nat, s: nat, m': int, h': nat, i': nat, s': nat)
    requires h < 24 && i < 60 && s < 60 && h' < 24 && i' < 60 && s' < 60
    requires ((m * 24 + h) * 60 + i) * 60 + s == ((m' * 24 + h') * 60 + i') * 60 + s'
    ensures m == m' && h == h' && i == i' && s == s'
  {
  }

  lemma StaysRight(start: Stamp, s: Stamp, gap: nat, last: nat)
    requires ValidStamp(s) && Before(last, DayNumber(s.year, s.mon, s.day)) && SameWeek(start, s) && gap <= 60
    ensures ValidStamp(Tick(s, gap)) && Seconds(Tick(s, gap)) == Seconds(s) + gap && SameWeek(start, Tick(s, gap))
  {
    TickIsRightExactly(s, gap, last);
    SameWeekOn(start, s, Tick(s, gap));
  }

  // ---- the code ----

  class SystemTime {
    var now: Stamp
    var zones: int
    const dayOfMonth: array<int>
    var oldGetTime: nat
    var sdkTime: nat
    var isInitSystem: bool
    ghost var start: Stamp
    ghost var startTime: nat

    /** February has the length of the current year, the other months theirs. */
    ghost predicate Table(y: nat)
      reads dayOfMonth
    {
      dayOfMonth[..] == [31, if HasLeapDay(y) then 29 else 28, 31, 30, 31, 30, 31, 31, 30, 31, 30, 31]
    }

    lemma TableOfLengths(y: nat)
      requires Table(y)
      ensures dayOfMonth.Length == 12 && forall m :: 1 <= m <= 12 ==> dayOfMonth[m - 1] == MonthLength(y, m)
    {
      assert |dayOfMonth[..]| == 12;
      LeapDayIsLeap(y);
      forall m | 1 <= m <= 12 ensures dayOfMonth[m - 1] == MonthLength(y, m) {
        assert dayOfMonth[m - 1] == dayOfMonth[..][m - 1];
      }
    }

    /** The time shown is the time set, advanced by what has passed since. */
    ghost predicate Shows()
      reads this, dayOfMonth
    {
      && Table(now.year) && ValidStamp(start) && ValidStamp(now) && startTime <= oldGetTime
      && Seconds(now) == Seconds(start) + (oldGetTime - startTime) && SameWeek(start, now)
    }

    /** It was set to `t` at the time `from`. */
    ghost predicate Runs(t: Stamp, from: nat)
      reads this, dayOfMonth
    {
      isInitSystem && Shows() && start == t && startTime == from
    }

    constructor ()
      ensures !isInitSystem && dayOfMonth.Length == 12 && fresh(dayOfMonth) && Table(1)
    {
      now, zones, oldGetTime, sdkTime, isInitSystem := Stamp(0, 0, 0, 0, 0, 0, 0), 0, 0, 0, false;
      start, startTime := Stamp(0, 0, 0, 0, 0, 0, 0), 0;
      dayOfMonth := new int[12](i => if i == 1 then 28 else if i == 3 || i == 5 || i == 8 || i == 10 then 30 else 31);
    }

    /** The table follows the year. */
    method SetFebruary(y: nat, ghost was: nat)
      requires Table(was)
      modifies dayOfMonth
      ensures Table(y)
    {
      assert |dayOfMonth[..]| == 12;
      LeapDayIsLeap(y);
      if y % 400 == 0 || (y % 100 != 0 && y % 4 == 0) {
        dayOfMonth[1] := 29;
      } else {
        dayOfMonth[1] := 28;
      }
    }

    /** `xlink_net_setSystemTime` */
    method SetSystemTime(t: Stamp, zones: int, ghost was: nat)
      requires Table(was)
      modifies this, dayOfMonth
      ensures isInitSystem && now == start == t && this.zones == zones && oldGetTime == startTime == sdkTime == old(sdkTime)
      ensures Table(t.year) && (ValidStamp(t) ==> Shows())
    {
      isInitSystem, oldGetTime := true, sdkTime;
      now, this.zones := t, zones;
      SetFebruary(t.year, was);
      start, startTime := t, sdkTime;
    }

    /** The day rolls over. */
    method RollDay()
      requires Table(now.year) && 1 <= now.mon <= 12
      modifies this`now, dayOfMonth
      ensures now == NextDay(old(now)) && Table(now.year)
    {
      now := now.(hour := 0, week := now.week + 1);
      if now.week == 7 {
        now := now.(week := 0);
      }
      now := now.(day := now.day + 1);
      TableOfLengths(now.year);
      if now.day > dayOfMonth[now.mon - 1] {
        now := now.(day := 1, mon := now.mon + 1);
        if now.mon > 12 {
          ghost var was := now.year;
          now := now.(mon := 1, year := (now.year + 1) % 0x1_0000);
          SetFebruary(now.year, was);
        }
      }
    }

    /** `xlinkSysTimeCount` */
    method SysTimeCount(cTime: nat)
      requires Table(now.year) && 1 <= now.mon <= 12
      modifies this`now, this`oldGetTime, dayOfMonth
      ensures oldGetTime == cTime && Table(now.year)
      ensures now == if cTime > old(oldGetTime) then Tick(old(now), cTime - old(oldGetTime)) else old(now)
    {
      if cTime < oldGetTime {
        oldGetTime := cTime;
      }
      var temp := cTime - oldGetTime;
      if temp > 0 {
        oldGetTime := cTime;
        now := now.(sec := (now.sec + temp) % 256);
        if now.sec >= 60 {
          now := now.(sec := now.sec - 60, min := now.min + 1);
          if now.min >= 60 {
            now := now.(min := 0, hour := now.hour + 1);
            if now.hour >= 24 {
              RollDay();
            }
          }
        }
      }
    }

    /** `XlinkLoop`, less than a minute and a second after the last call: what is shown stays right. */
    method Loop(cTime: nat, ghost last: nat)
      requires isInitSystem && Shows() && oldGetTime <= cTime <= oldGetTime + 60
      requires Before(last, DayNumber(now.year, now.mon, now.day))
      modifies this`sdkTime, this`now, this`oldGetTime, dayOfMonth
      ensures Shows() && oldGetTime == cTime == sdkTime && startTime == old(startTime) && start == old(start)
    {
      sdkTime := cTime;
      StaysRight(start, now, cTime - oldGetTime, last);
      SysTimeCount(cTime);
    }
  }

  /** The time of the latest call, or that of setting. */
  function Latest(from: nat, times: seq<nat>): nat {
    if times == [] then from else times[|times| - 1]
  }

  /** Every call comes at most a minute after the one before. */
  predicate OftenEnough(from: nat, times: seq<nat>) {
    forall k :: 0 <= k < |times| ==> Latest(from, times[..k]) <= times[k] <= Latest(from, times[..k]) + 60
  }

  predicate StaysInRange(t: Stamp, from: nat, times: seq<nat>) {
    forall k :: 0 <= k <= |times| ==> InRange(t, Latest(from, times[..k]) - from)
  }

  lemma CallIsDue(t: Stamp, from: nat, times: seq<nat>, i: nat)
    requires i < |times| && OftenEnough(from, times) && StaysInRange(t, from, times)
    ensures var before := Latest(from, times[..i]);
      before <= times[i] <= before + 60 && InRange(t, before - from) && times[i] == Latest(from, times[..i + 1])
  {
  }

  /** The stamp is a time of the Gregorian calendar, with a weekday. */
  predicate IsStamp(s: Stamp) {
    s.year < 0x1_0000 && IsDate(s.year, s.mon, s.day) && s.week < 7 && s.hour < 24 && s.min < 60 && s.sec < 60
  }

  /** Seconds since the start of year 0. */
  function Instant(s: Stamp): int
    requires 1 <= s.mon <= 12
  {
    Day(s.year, s.mon, s.day) * 86400 + s.hour * 3600 + s.min * 60 + s.sec
  }

  /** The time `s`, `elapsed` seconds later, is `t`, on the right weekday. */
  predicate Later(s: Stamp, t: Stamp, elapsed: nat) {
    && IsStamp(s) && IsStamp(t) && Instant(t) == Instant(s) + elapsed
    && (t.week - s.week) % 7 == (Day(t.year, t.mon, t.day) - Day(s.year, s.mon, s.day)) % 7
  }

  /** So much later it is not yet the year 65535. */
  predicate InRange(t: Stamp, elapsed: int) {
    1 <= t.mon <= 12 && Instant(t) + elapsed < Day(0xFFFF, 1, 1) * 86400
  }

  lemma StampIs(s: Stamp)
    ensures ValidStamp(s) <==> IsStamp(s)
    ensures IsStamp(s) ==> DayNumber(s.year, s.mon, s.day) == Day(s.year, s.mon, s.day) && Seconds(s) == Instant(s)
  {
    DatesAreDates(s.year, s.mon, s.day);
    if IsStamp(s) {
      DaysAreCounted(s.year, s.mon, s.day);
    }
  }

  /** After the time is set, in every run of calls at most a minute apart, up to the end of the year
      65534, the clock shows the time set, advanced by the seconds that have passed, in the Gregorian
      calendar. */
  method KeepTime(clock: SystemTime, t: Stamp, zones: int, times: seq<nat>, ghost was: nat)
    requires clock.Table(was) && IsStamp(t) && OftenEnough(clock.sdkTime, times)
    requires StaysInRange(t, clock.sdkTime, times)
    modifies clock, clock.dayOfMonth
    ensures clock.Runs(t, old(clock.sdkTime)) && clock.oldGetTime == Latest(old(clock.sdkTime), times)
    ensures Later(t, clock.now, clock.oldGetTime - old(clock.sdkTime))
  {
    StampIs(t);
    clock.SetSystemTime(t, zones, was);
    ghost var from := clock.sdkTime;
    var i := 0;
    while i < |times|
      invariant 0 <= i <= |times| && clock.Runs(t, from) && clock.oldGetTime == Latest(from, times[..i])
    {
      CallIsDue(t, from, times, i);
      Call(clock, times[i], t, from);
      i := i + 1;
    }
    assert times[..i] == times;
    IsLater(t, clock.now, clock.oldGetTime - from);
  }

  /** One call of the loop. */
  method Call(clock: SystemTime, time: nat, ghost t: Stamp, ghost from: nat)
    requires clock.Runs(t, from)
    requires clock.oldGetTime <= time <= clock.oldGetTime + 60 && InRange(t, clock.oldGetTime - from)
    modifies clock`sdkTime, clock`now, clock`oldGetTime, clock.dayOfMonth
    ensures clock.Runs(t, from) && clock.oldGetTime == time
  {
    DayBefore(t, clock.now, clock.oldGetTime - from);
    clock.Loop(time, 0xFFFF);
  }

  lemma DayBefore(t: Stamp, s: Stamp, elapsed: nat)
    requires ValidStamp(t) && ValidStamp(s) && Seconds(s) == Seconds(t) + elapsed && InRange(t, elapsed)
    ensures Before(0xFFFF, DayNumber(s.year, s.mon, s.day))
  {
    StampIs(t);
    YearsClosed(0xFFFF);
  }

  lemma IsLater(t: Stamp, s: Stamp, elapsed: nat)
    requires ValidStamp(t) && ValidStamp(s) && Seconds(s) == Seconds(t) + elapsed && SameWeek(t, s)
    ensures Later(t, s, elapsed)
  {
    StampIs(t);
    StampIs(s);
  }
}
