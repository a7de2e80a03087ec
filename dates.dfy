/** Date and time rules shared by the local-first frontend and the backend:
    local dates, the date of a challenge's n-th day, "due today" and "in the
    past", the backend's day number, the daily deadline test, the
    `YYYY-MM-DD` rendering and the six-digit login code.

    An instant is the viewer's local wall-clock time in milliseconds since
    1970-01-01 00:00 local time; the time zone is folded into it, so a day is
    always 86 400 000 ms long. */
module Dates {
  import opened Wrappers
  import opened Text

  type Instant = int

  const MsPerMinute: int := 60 * 1000
  const MsPerHour: int := 60 * MsPerMinute
  const MsPerDay: int := 24 * MsPerHour

  /** The local calendar day of an instant; day 0 is 1970-01-01. */
  function DayOf(t: Instant): int {
    t / MsPerDay
  }

  /** `d.setHours(0, 0, 0, 0)`: local midnight of the instant's day. */
  function Midnight(t: Instant): (m: Instant)
    ensures m <= t < m + MsPerDay
    ensures m % MsPerDay == 0 && DayOf(m) == DayOf(t)
  {
    DayOf(t) * MsPerDay
  }

  datatype TimeOfDay = TimeOfDay(hour: int, minute: int)

  /** `now.getHours()` and `now.getMinutes()`. */
  function ClockOf(t: Instant): (c: TimeOfDay)
    ensures 0 <= c.hour < 24 && 0 <= c.minute < 60
  {
    var r := t % MsPerDay;
    TimeOfDay(r / MsPerHour, (r % MsPerHour) / MsPerMinute)
  }

  /** `getTaskDate(start, dayNumber)`: midnight of the day that lies
      dayNumber - 1 calendar days after the start day. */
  function TaskDate(start: Instant, dayNumber: int): (d: Instant)
    ensures d % MsPerDay == 0
    ensures DayOf(d) == DayOf(start) + dayNumber - 1
  {
    (DayOf(start) + dayNumber - 1) * MsPerDay
  }

  /** `isTaskForToday`: the task's date is today's local midnight. */
  predicate IsTaskForToday(start: Instant, dayNumber: int, now: Instant) {
    TaskDate(start, dayNumber) == Midnight(now)
  }

  /** `isTaskInPast`: the task's date lies before today's local midnight. */
  predicate IsTaskInPast(start: Instant, dayNumber: int, now: Instant) {
    TaskDate(start, dayNumber) < Midnight(now)
  }

  lemma MidnightOfDay(k: int)
    ensures DayOf(k * MsPerDay) == k
  {
  }

  /** Day 1 of a challenge falls on its start day. */
  lemma TaskDateFirstDay(start: Instant)
    ensures TaskDate(start, 1) == Midnight(start)
  {
  }

  /** Each further day number is exactly one calendar day later. */
  lemma TaskDateNextDay(start: Instant, dayNumber: int)
    ensures TaskDate(start, dayNumber + 1) == TaskDate(start, dayNumber) + MsPerDay
  {
  }

  /** Due today and in the past exclude each other; a task is due today
      exactly when its day is today's day. */
  lemma TodayAndPastExclusive(start: Instant, dayNumber: int, now: Instant)
    ensures !(IsTaskForToday(start, dayNumber, now) && IsTaskInPast(start, dayNumber, now))
    ensures IsTaskForToday(start, dayNumber, now) <==> DayOf(start) + dayNumber - 1 == DayOf(now)
    ensures IsTaskInPast(start, dayNumber, now) <==> DayOf(start) + dayNumber - 1 < DayOf(now)
  {
    MidnightOfDay(DayOf(start) + dayNumber - 1);
    MidnightOfDay(DayOf(now));
  }

  /** At most one day number of a challenge is due on any day. */
  lemma DueTodayIsUnique(start: Instant, n1: int, n2: int, now: Instant)
    requires IsTaskForToday(start, n1, now) && IsTaskForToday(start, n2, now)
    ensures n1 == n2
  {
    TodayAndPastExclusive(start, n1, now);
    TodayAndPastExclusive(start, n2, now);
  }

  /** `getDayNumber(startDate, currentDate)` (backend): whole days between
      the two local midnights, plus one. */
  function DayNumber(startDate: Instant, currentDate: Instant): int {
    (Midnight(currentDate) - Midnight(startDate)) / MsPerDay + 1
  }

  lemma {:induction false} DayNumberIsDayDifference(startDate: Instant, currentDate: Instant)
    ensures DayNumber(startDate, currentDate) == DayOf(currentDate) - DayOf(startDate) + 1
  {
    var k := DayOf(currentDate) - DayOf(startDate);
    assert Midnight(currentDate) - Midnight(startDate) == k * MsPerDay;
    MidnightOfDay(k);
  }

  /** The start day is day 1, every later calendar day adds exactly one, and
      days before the start have a number of at most 0. */
  lemma DayNumberProperties(startDate: Instant, currentDate: Instant)
    ensures DayNumber(startDate, startDate) == 1
    ensures DayNumber(startDate, currentDate + MsPerDay) == DayNumber(startDate, currentDate) + 1
    ensures DayOf(currentDate) < DayOf(startDate) ==> DayNumber(startDate, currentDate) <= 0
  {
    DayNumberIsDayDifference(startDate, startDate);
    DayNumberIsDayDifference(startDate, currentDate);
    DayNumberIsDayDifference(startDate, currentDate + MsPerDay);
  }

  /** The backend's day number and the frontend's task date agree: the day
      number of task n's date is n, and task n is due today exactly when
      today's day number is n. */
  lemma DayNumberAgreesWithTaskDate(start: Instant, dayNumber: int, now: Instant)
    ensures DayNumber(start, TaskDate(start, dayNumber)) == dayNumber
    ensures IsTaskForToday(start, dayNumber, now) <==> DayNumber(start, now) == dayNumber
  {
    DayNumberIsDayDifference(start, TaskDate(start, dayNumber));
    DayNumberIsDayDifference(start, now);
    TodayAndPastExclusive(start, dayNumber, now);
  }

  /** `isDeadlinePassed(deadlineTime)`: no deadline (null, undefined or "")
      never passes; otherwise the "HH:MM" text is split at ':' and each part
      converted with `Number`, and the deadline has passed when the current
      hour is later, or the hour is the same and the minute is not earlier.
      A part that is not a number (or is missing) compares false. */
  predicate IsDeadlinePassed(deadlineTime: Option<string>, now: Instant) {
    if deadlineTime.None? || deadlineTime.value == "" then false
    else
      var parts := Split(deadlineTime.value, ':');
      var deadlineHour := JsNumber(parts[0]);
      var deadlineMinute := if |parts| >= 2 then JsNumber(parts[1]) else NaN;
      var clock := ClockOf(now);
      Gt(clock.hour, deadlineHour) || (Eq(clock.hour, deadlineHour) && Ge(clock.minute, deadlineMinute))
  }

  /** The "HH:MM" text of a time input. */
  function FormatClock(t: TimeOfDay): string
    requires t.hour >= 0 && t.minute >= 0
  {
    Pad2(t.hour) + ":" + Pad2(t.minute)
  }

  /** (hour, minute) >= (h, m) in lexicographic order. */
  predicate ClockAtOrAfter(c: TimeOfDay, t: TimeOfDay) {
    c.hour > t.hour || (c.hour == t.hour && c.minute >= t.minute)
  }

  lemma {:induction false} DigitsHaveNoColon(s: string)
    requires AllDigits(s)
    ensures ':' !in s
  {
  }

  /** A formatted clock splits at ':' into its two padded fields. */
  lemma ClockSplit(t: TimeOfDay)
    requires t.hour >= 0 && t.minute >= 0
    ensures Split(FormatClock(t), ':') == [Pad2(t.hour), Pad2(t.minute)]
  {
    var hh, mm := Pad2(t.hour), Pad2(t.minute);
    Pad2Value(t.hour);
    Pad2Value(t.minute);
    DigitsHaveNoColon(hh);
    DigitsHaveNoColon(mm);
    SplitJoin(hh, ':', mm);
    SplitNoSeparator(mm, ':');
    assert FormatClock(t) == hh + [':'] + mm;
  }

  /** A padded field reads back as its number. */
  lemma Pad2Number(n: nat)
    ensures JsNumber(Pad2(n)) == N(n)
  {
    Pad2Value(n);
  }

  /** A formatted clock splits at ':' into two fields, which read back as
      the hour and the minute. */
  lemma FormatClockParts(t: TimeOfDay)
    requires t.hour >= 0 && t.minute >= 0
    ensures var parts := Split(FormatClock(t), ':');
      |parts| == 2 && JsNumber(parts[0]) == N(t.hour) && JsNumber(parts[1]) == N(t.minute)
  {
    ClockSplit(t);
    Pad2Number(t.hour);
    Pad2Number(t.minute);
  }

  /** For a well-formed "HH:MM" deadline the test is the lexicographic
      comparison of (hour, minute), and the deadline minute itself counts as
      passed. */
  lemma DeadlinePassedIffClockAtOrAfter(t: TimeOfDay, now: Instant)
    requires t.hour >= 0 && t.minute >= 0
    ensures IsDeadlinePassed(Some(FormatClock(t)), now) <==> ClockAtOrAfter(ClockOf(now), t)
  {
    FormatClockParts(t);
  }

  /** Without a deadline nothing is ever late. */
  lemma NoDeadlineNeverPassed(now: Instant)
    ensures !IsDeadlinePassed(None, now) && !IsDeadlinePassed(Some(""), now)
  {
  }

  /** The local calendar fields `getFullYear()`, `getMonth() + 1`,
      `getDate()`. */
  datatype CivilDate = CivilDate(year: int, month: int, day: int)

  /** `getLocalDateString(date)`: year, month and day joined by '-', month
      and day padded to two digits. */
  function LocalDateString(c: CivilDate): string {
    IntToString(c.year) + "-" + PadStart(IntToString(c.month), 2, '0') + "-" + PadStart(IntToString(c.day), 2, '0')
  }

  /** `const [y, m, d] = s.split('-').map(Number)`, as the challenge form
      reads its date pickers: None when a part is missing or not a number. */
  function ParseDateString(s: string): Option<CivilDate> {
    var parts := Split(s, '-');
    if |parts| < 3 then None
    else
      match (JsNumber(parts[0]), JsNumber(parts[1]), JsNumber(parts[2]))
      case (N(y), N(m), N(d)) => Some(CivilDate(y, m, d))
      case _ => None
  }

  /** Three separator-free pieces joined by '-' split back into themselves. */
  lemma SplitThree(a: string, b: string, c: string)
    requires '-' !in a && '-' !in b && '-' !in c
    ensures Split(a + "-" + b + "-" + c, '-') == [a, b, c]
  {
    SplitNoSeparator(c, '-');
    SplitJoin(b, '-', c);
    assert b + "-" + c == b + ['-'] + c;
    SplitJoin(a, '-', b + "-" + c);
    assert a + "-" + b + "-" + c == a + ['-'] + (b + "-" + c);
  }

  /** A non-negative field renders as digits that read back as its value. */
  lemma PaddedFieldValue(n: int)
    requires n >= 0
    ensures PadStart(IntToString(n), 2, '0') == Pad2(n)
    ensures JsNumber(Pad2(n)) == N(n) && '-' !in Pad2(n)
  {
    Pad2Value(n);
  }

  /** The rendering and the form's parsing are inverse for dates of year 0
      or later. */
  lemma ParseLocalDateString(c: CivilDate)
    requires c.year >= 0 && c.month >= 0 && c.day >= 0
    ensures ParseDateString(LocalDateString(c)) == Some(c)
  {
    var ys := NatToString(c.year);
    DigitsValueOfNatToString(c.year);
    assert JsNumber(ys) == N(c.year);
    PaddedFieldValue(c.month);
    PaddedFieldValue(c.day);
    SplitThree(ys, Pad2(c.month), Pad2(c.day));
  }

  lemma JoinShape(ys: string, ms: string, ds: string)
    requires |ms| == 2 && |ds| == 2
    ensures var s := ys + "-" + ms + "-" + ds; var w := |ys|;
      |s| == w + 6 && s[w] == '-' && s[w + 3] == '-' && s[w + 1..w + 3] == ms && s[w + 4..] == ds
  {
  }

  /** With one- or two-digit month and day the rendering is the year,
      then '-', two digits, '-', two digits. */
  lemma LocalDateStringShape(c: CivilDate)
    requires c.year >= 0 && 0 <= c.month < 100 && 0 <= c.day < 100
    ensures var w := |IntToString(c.year)|;
      var s := LocalDateString(c);
      |s| == w + 6 && s[w] == '-' && s[w + 3] == '-' &&
      AllDigits(s[w + 1..w + 3]) && AllDigits(s[w + 4..])
  {
    PaddedFieldValue(c.month);
    PaddedFieldValue(c.day);
    Pad2Value(c.month);
    Pad2Value(c.day);
    JoinShape(IntToString(c.year), Pad2(c.month), Pad2(c.day));
  }

  /** `date.getDay()` of a local day: 1970-01-01 was a Thursday (4); Sunday
      is 0 and Saturday 6. */
  function Weekday(day: int): (w: int)
    ensures 0 <= w < 7
  {
    (day + 4) % 7
  }

  /** The Gregorian leap-year rule. */
  predicate IsLeapYear(y: int) {
    y % 4 == 0 && (y % 100 != 0 || y % 400 == 0)
  }

  function DaysInYear(y: int): int {
    if IsLeapYear(y) then 366 else 365
  }

  function DaysInMonth(y: int, m: int): int {
    if m == 2 then (if IsLeapYear(y) then 29 else 28)
    else if m == 4 || m == 6 || m == 9 || m == 11 then 30
    else 31
  }

  /** The date d days (0-based) after 1 January of year y, found by walking
      whole years forwards or backwards. */
  function CivilFromYearDay(y: int, d: int): (c: CivilDate)
    ensures 1 <= c.month <= 12 && c.day >= 1
    decreases if d < 0 then 1 else 0, if d < 0 then -d else d
  {
    if d < 0 then CivilFromYearDay(y - 1, d + DaysInYear(y - 1))
    else if d >= DaysInYear(y) then CivilFromYearDay(y + 1, d - DaysInYear(y))
    else CivilFromMonthDay(y, 1, d)
  }

  /** The date d days (0-based) after the first of month m of year y, found
      by walking whole months. */
  function CivilFromMonthDay(y: int, m: int, d: nat): (c: CivilDate)
    requires 1 <= m <= 12
    ensures m <= c.month <= 12 && c.day >= 1
    decreases 12 - m
  {
    if m == 12 || d < DaysInMonth(y, m) then CivilDate(y, m, d + 1)
    else CivilFromMonthDay(y, m + 1, d - DaysInMonth(y, m))
  }

  /** The local calendar fields `getFullYear()`, `getMonth() + 1` and
      `getDate()` of a local day number (day 0 is 1 January 1970) in the
      proleptic Gregorian calendar. */
  function CivilFromDays(day: int): (c: CivilDate)
    ensures 1 <= c.month <= 12 && c.day >= 1
  {
    CivilFromYearDay(1970, day)
  }

  /** `getLocalDateString(getTaskDate(...))`: the text key of a local day. */
  function DateKey(t: Instant): string {
    LocalDateString(CivilFromDays(DayOf(t)))
  }

  /** The key of a day of year 0 or later reads back as that day's date. */
  lemma DateKeyParses(t: Instant)
    requires CivilFromDays(DayOf(t)).year >= 0
    ensures ParseDateString(DateKey(t)) == Some(CivilFromDays(DayOf(t)))
  {
    ParseLocalDateString(CivilFromDays(DayOf(t)));
  }

  /** `generateVerificationToken()`: `Math.floor(100000 + Math.random() *
      900000)` rendered in decimal. `draw` is `Math.floor(Math.random() *
      900000)`; the code is then always exactly six digits, from 100000 to
      999999. */
  function VerificationCode(draw: int): (code: string)
    requires 0 <= draw < 900000
    ensures |code| == 6 && AllDigits(code)
    ensures DigitsValue(code) == 100000 + draw
    ensures 100000 <= DigitsValue(code) <= 999999
  {
    var n := 100000 + draw;
    assert Pow10(5) == 100000 && Pow10(6) == 1000000;
    NatToStringLength(n, 5);
    DigitsValueOfNatToString(n);
    NatToString(n)
  }
}
