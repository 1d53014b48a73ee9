/** When a cron job runs next (cronjob_find_next_exec_date, libwzd-core/wzd_crontab.c).

    mktime is modelled as Gregorian normalisation of the fields it is given, in a
    zone at a fixed distance from UTC, without daylight saving time. localtime is
    its inverse on normal fields: a start time is given by such fields. */
module CronDate {

  // ----- The calendar -----

  /** struct tm, with the full year. */
  datatype Tm = Tm(sec: int, min: int, hour: int, mday: int, mon: int, year: int)

  predicate IsLeap(y: int) { y % 4 == 0 && (y % 100 != 0 || y % 400 == 0) }

  /** Days from the start of year 0 to the start of year `y`. */
  function DaysBeforeYear(y: int): int { 365 * y + (y - 1) / 4 - (y - 1) / 100 + (y - 1) / 400 }

  function MonthDays(y: int, m: int): int {
    if m == 1 then (if IsLeap(y) then 29 else 28)
    else if m == 3 || m == 5 || m == 8 || m == 10 then 30
    else 31
  }

  function DaysBeforeMonth(y: int, m: nat): int {
    if m == 0 then 0 else DaysBeforeMonth(y, m - 1) + MonthDays(y, m - 1)
  }

  /** The day before the first of month `k`, counted from the start of year 0. */
  function MonthStart(k: int): int { DaysBeforeYear(k / 12) + DaysBeforeMonth(k / 12, k % 12) }

  /** The month of the fields, whose `mon` may be past the end of the year. */
  function MonthOf(tm: Tm): int { 12 * tm.year + tm.mon }

  function DayOf(tm: Tm): int { MonthStart(MonthOf(tm)) + tm.mday }

  function SecondOf(tm: Tm): int { tm.hour * 3600 + tm.min * 60 + tm.sec }

  /** mktime, as seconds from the start of 1970 shifted by the zone. */
  function Mktime(tm: Tm, zone: int): int {
    (DayOf(tm) - (MonthStart(12 * 1970) + 1)) * 86400 + SecondOf(tm) + zone
  }

  /** The fields that localtime gives. */
  predicate Normal(tm: Tm) {
    0 <= tm.sec < 60 && 0 <= tm.min < 60 && 0 <= tm.hour < 24 && 0 <= tm.mon < 12 &&
      1 <= tm.mday <= MonthDays(tm.year, tm.mon)
  }

  // ----- The computation -----

  /** Advances the fields of the start time as the code does; -1 stands for `*`. */
  function Advance(tm: Tm, minutes: int, hours: int, day: int, month: int): Tm {
    var min0, hour0 := if minutes > 0 then minutes else 0, if hours > 0 then hours else 0;
    var day0 := if day > 0 then day else 0;
    if month != -1 then Tm(0, min0, hour0, day0, month, if month <= tm.mon then tm.year + 1 else tm.year)
    else if day != -1 then Tm(0, min0, hour0, day, if day <= tm.mday then tm.mon + 1 else tm.mon, tm.year)
    else if hours != -1 then Tm(0, min0, hours, if hours <= tm.hour then tm.mday + 1 else tm.mday, tm.mon, tm.year)
    else if minutes != -1 then
      Tm(0, minutes, if minutes <= tm.min then tm.hour + 1 else tm.hour, tm.mday, tm.mon, tm.year)
    else tm.(min := tm.min + 1)
  }

  predicate InRange(minutes: int, hours: int, day: int, month: int) {
    -1 <= minutes < 60 && -1 <= hours < 24 && (day == -1 || 1 <= day <= 31) && -1 <= month < 12
  }

  // ----- Months follow each other -----

  lemma Fourth(y: int)
    ensures y / 4 == (y - 1) / 4 + if y % 4 == 0 then 1 else 0
  {
  }

  lemma Hundredth(y: int)
    ensures y / 100 == (y - 1) / 100 + if y % 100 == 0 then 1 else 0
    ensures y % 100 == 0 ==> y % 4 == 0
  {
  }

  lemma FourHundredth(y: int)
    ensures y / 400 == (y - 1) / 400 + if y % 400 == 0 then 1 else 0
    ensures y % 400 == 0 ==> y % 100 == 0
  {
  }

  lemma YearStep(y: int)
    ensures DaysBeforeYear(y + 1) == DaysBeforeYear(y) + if IsLeap(y) then 366 else 365
  {
    Fourth(y);
    Hundredth(y);
    FourHundredth(y);
  }

  lemma YearLength(y: int)
    ensures DaysBeforeYear(y + 1) == DaysBeforeYear(y) + DaysBeforeMonth(y, 12)
  {
    YearStep(y);
    hide DaysBeforeYear, IsLeap;
    assert DaysBeforeMonth(y, 0) == 0;
    assert DaysBeforeMonth(y, 1) == 31;
    assert DaysBeforeMonth(y, 2) == 31 + MonthDays(y, 1);
    assert DaysBeforeMonth(y, 3) == 62 + MonthDays(y, 1);
    assert DaysBeforeMonth(y, 4) == 92 + MonthDays(y, 1);
    assert DaysBeforeMonth(y, 5) == 123 + MonthDays(y, 1);
    assert DaysBeforeMonth(y, 6) == 153 + MonthDays(y, 1);
    assert DaysBeforeMonth(y, 7) == 184 + MonthDays(y, 1);
    assert DaysBeforeMonth(y, 8) == 215 + MonthDays(y, 1);
    assert DaysBeforeMonth(y, 9) == 245 + MonthDays(y, 1);
    assert DaysBeforeMonth(y, 10) == 276 + MonthDays(y, 1);
    assert DaysBeforeMonth(y, 11) == 306 + MonthDays(y, 1);
  }

  /** Every month begins where the one before it ends, across years and leap years. */
  lemma NextMonth(k: int)
    ensures MonthStart(k + 1) == MonthStart(k) + MonthDays(k / 12, k % 12)
  {
    YearLength(k / 12);
    hide DaysBeforeYear, MonthDays;
    if k % 12 == 11 {
      assert (k + 1) / 12 == k / 12 + 1 && (k + 1) % 12 == 0;
    } else {
      assert (k + 1) / 12 == k / 12 && (k + 1) % 12 == k % 12 + 1;
    }
  }

  lemma {:induction false} LaterMonth(k: int, later: int)
    requires k < later
    ensures MonthStart(k) < MonthStart(later)
    decreases later - k
  {
    NextMonth(later - 1);
    if k < later - 1 { LaterMonth(k, later - 1); }
  }

  /** The days of a month come before the next month. */
  lemma WithinMonth(tm: Tm)
    requires Normal(tm)
    ensures MonthStart(MonthOf(tm)) < DayOf(tm) <= MonthStart(MonthOf(tm) + 1)
    ensures DayOf(tm) == MonthStart(MonthOf(tm) + 1) <==> tm.mday == MonthDays(tm.year, tm.mon)
  {
    NextMonth(MonthOf(tm));
    assert MonthOf(tm) / 12 == tm.year && MonthOf(tm) % 12 == tm.mon;
  }

  /** The month the code picks is a later one. */
  lemma PickedMonth(tm: Tm, t: Tm)
    requires Normal(tm) && 0 <= t.mon < 12 && t.year == if t.mon <= tm.mon then tm.year + 1 else tm.year
    ensures MonthOf(t) == MonthOf(tm) + 1 <==> t.mon == (tm.mon + 1) % 12
    ensures MonthStart(MonthOf(t)) >= MonthStart(MonthOf(tm) + 1)
    ensures MonthStart(MonthOf(t)) == MonthStart(MonthOf(tm) + 1) <==> MonthOf(t) == MonthOf(tm) + 1
  {
    hide MonthStart;
    if MonthOf(t) > MonthOf(tm) + 1 { LaterMonth(MonthOf(tm) + 1, MonthOf(t)); }
  }

  lemma LaterDay(a: Tm, b: Tm, zone: int)
    requires DayOf(a) < DayOf(b) && 0 <= SecondOf(a) < 86400 && 0 <= SecondOf(b)
    ensures Mktime(a, zone) < Mktime(b, zone)
  {
    hide DayOf, SecondOf, MonthStart;
  }

  lemma NormalSecond(tm: Tm)
    requires 0 <= tm.sec < 60 && 0 <= tm.min < 60 && 0 <= tm.hour < 24
    ensures 0 <= SecondOf(tm) < 86400
  {
  }

  // ----- The next run is later -----

  /** Every specification but an explicit month with any day runs strictly later. */
  lemma NextRunLater(tm: Tm, minutes: int, hours: int, day: int, month: int, zone: int)
    requires Normal(tm) && InRange(minutes, hours, day, month) && !(month != -1 && day == -1)
    ensures Mktime(Advance(tm, minutes, hours, day, month), zone) > Mktime(tm, zone)
  {
    var t := Advance(tm, minutes, hours, day, month);
    NormalSecond(tm);
    WithinMonth(tm);
    hide MonthStart;
    if month != -1 {
      NormalSecond(t);
      PickedMonth(tm, t);
      LaterDay(tm, t, zone);
    } else if day != -1 {
      NormalSecond(t);
      LaterDay(tm, t, zone);
    } else if hours != -1 {
      NormalSecond(t);
      if hours <= tm.hour { LaterDay(tm, t, zone); }
    }
  }

  /** The start is on the last day of a month, the job is for the next month, and its
      time of day has come. */
  predicate MissesLastDay(tm: Tm, t: Tm) {
    t.mon == (tm.mon + 1) % 12 && tm.mday == MonthDays(tm.year, tm.mon) && SecondOf(t) <= SecondOf(tm)
  }

  /** With an explicit month and any day, the code asks for day 0, the last day of the
      month before. The run is later than the start exactly when that day has not
      come, or not its time. */
  lemma MonthAnyDay(tm: Tm, minutes: int, hours: int, month: int, zone: int)
    requires Normal(tm) && InRange(minutes, hours, -1, month) && month != -1
    ensures var t := Advance(tm, minutes, hours, -1, month);
      Mktime(t, zone) > Mktime(tm, zone) <==> !MissesLastDay(tm, t)
  {
    var t := Advance(tm, minutes, hours, -1, month);
    NormalSecond(tm);
    NormalSecond(t);
    PickedMonth(tm, t);
    WithinMonth(tm);
    hide SecondOf, MonthStart;
    assert DayOf(t) >= DayOf(tm);
    if DayOf(t) > DayOf(tm) { LaterDay(tm, t, zone); }
  }

  /** At noon on 31 January 2024, a job for February and any day is dated to midnight before. */
  lemma MonthAnyDayMissed(tm: Tm, zone: int)
    requires tm == Tm(0, 0, 12, 31, 0, 2024)
    ensures Normal(tm) && Mktime(Advance(tm, 0, 0, -1, 1), zone) <= Mktime(tm, zone)
  {
    hide Mktime, DayOf, MonthStart;
    MonthAnyDay(tm, 0, 0, 1, zone);
  }

  /** Whatever the fields, as long as they are in range, the run is less than a day
      before the start. */
  lemma LessThanADayBefore(tm: Tm, minutes: int, hours: int, day: int, month: int, zone: int)
    requires Normal(tm) && InRange(minutes, hours, day, month)
    ensures Mktime(Advance(tm, minutes, hours, day, month), zone) > Mktime(tm, zone) - 86400
  {
    if month != -1 && day == -1 {
      var t := Advance(tm, minutes, hours, day, month);
      NormalSecond(tm);
      NormalSecond(t);
      PickedMonth(tm, t);
      WithinMonth(tm);
      hide SecondOf, MonthStart;
      assert DayOf(t) >= DayOf(tm);
    } else {
      NextRunLater(tm, minutes, hours, day, month, zone);
    }
  }

  /** An explicit hour runs at that hour and minute, to the second. */
  lemma RunsOnTheMinute(tm: Tm, minutes: int, hours: int, day: int, month: int, zone: int)
    requires Normal(tm) && InRange(minutes, hours, day, month) && (month != -1 || day != -1 || hours != -1)
    ensures (Mktime(Advance(tm, minutes, hours, day, month), zone) - zone) % 86400 ==
            (if hours > 0 then hours else 0) * 3600 + (if minutes > 0 then minutes else 0) * 60
  {
    var t := Advance(tm, minutes, hours, day, month);
    NormalSecond(t);
    Remainder(DayOf(t) - (MonthStart(12 * 1970) + 1), SecondOf(t));
    hide DayOf, MonthStart;
  }

  lemma Remainder(days: int, seconds: int)
    requires 0 <= seconds < 86400
    ensures (days * 86400 + seconds) % 86400 == seconds
  {
  }

  // ----- From a clock reading and a job's fields -----

  /** strtol in base 10: blanks, a sign, digits, and whatever follows. */
  function Strtol(s: string): int {
    if s != [] && (s[0] == ' ' || '\t' <= s[0] <= '\r') then Strtol(s[1..])
    else if s != [] && s[0] == '-' then 0 - Digits(s[1..], 0)
    else if s != [] && s[0] == '+' then Digits(s[1..], 0)
    else Digits(s, 0)
  }

  function Digits(s: string, n: nat): nat {
    if s != [] && '0' <= s[0] <= '9' then Digits(s[1..], n * 10 + (s[0] as int - '0' as int)) else n
  }

  function FieldValue(s: string): int { if s != [] && s[0] == '*' then -1 else Strtol(s) }

  /** The time fields of a job. The day of the week is never looked at. */
  datatype Spec = Spec(minutes: string, hours: string, day: string, month: string)

  function MonthValue(s: string): int { if s != [] && s[0] == '*' then -1 else Strtol(s) - 1 }

  /** The month that day `day` is in, searching from month `k` up. */
  function FindMonth(day: int, k: int): (m: int)
    requires MonthStart(k) < day
    ensures MonthStart(m) < day <= MonthStart(m + 1)
    decreases day - MonthStart(k)
  {
    LaterMonth(k, k + 1);
    if day <= MonthStart(k + 1) then k else FindMonth(day, k + 1)
  }

  function DayAt(t: int, zone: int): int { (t - zone) / 86400 + MonthStart(12 * 1970) + 1 }

  lemma MonthZero()
    ensures MonthStart(0) < 0
  {
  }

  /** localtime: the normal fields that mktime takes back to `t`. */
  function Localtime(t: int, zone: int): (tm: Tm)
    requires DayAt(t, zone) >= 0
    ensures Normal(tm) && Mktime(tm, zone) == t
  {
    hide MonthStart;
    var s, day := (t - zone) % 86400, DayAt(t, zone);
    MonthZero();
    var k := FindMonth(day, 0);
    LocalFields(t, zone, s, day, k);
    Tm(s % 60, s / 60 % 60, s / 3600, day - MonthStart(k), k % 12, k / 12)
  }

  lemma LocalFields(t: int, zone: int, s: int, day: int, k: int)
    requires s == (t - zone) % 86400 && day == DayAt(t, zone) && MonthStart(k) < day <= MonthStart(k + 1)
    ensures var tm := Tm(s % 60, s / 60 % 60, s / 3600, day - MonthStart(k), k % 12, k / 12);
      Normal(tm) && Mktime(tm, zone) == t
  {
    var tm := Tm(s % 60, s / 60 % 60, s / 3600, day - MonthStart(k), k % 12, k / 12);
    NextMonth(k);
    hide MonthStart, MonthDays;
    Clock(s);
    assert MonthOf(tm) == k;
    assert SecondOf(tm) == s;
  }

  lemma Clock(s: int)
    requires 0 <= s < 86400
    ensures s / 3600 * 3600 + s / 60 % 60 * 60 + s % 60 == s && s / 3600 < 24
  {
    assert s / 60 / 60 == s / 3600;
  }

  /** cronjob_find_next_exec_date. */
  function NextRun(start: int, zone: int, spec: Spec): int
    requires DayAt(start, zone) >= 0
  {
    if spec.minutes == "ONCE" then 0
    else
      Mktime(Advance(Localtime(start, zone), FieldValue(spec.minutes), FieldValue(spec.hours), FieldValue(spec.day),
                     MonthValue(spec.month)), zone)
  }

  predicate FieldsInRange(spec: Spec) {
    InRange(FieldValue(spec.minutes), FieldValue(spec.hours), FieldValue(spec.day), MonthValue(spec.month))
  }

  predicate Sensible(spec: Spec) {
    FieldsInRange(spec) && !(MonthValue(spec.month) != -1 && FieldValue(spec.day) == -1)
  }

  /** A repeating job with sensible fields always runs next strictly after the start. */
  lemma RunsLater(start: int, zone: int, spec: Spec)
    requires DayAt(start, zone) >= 0 && spec.minutes != "ONCE" && Sensible(spec)
    ensures NextRun(start, zone, spec) > start
  {
    hide Advance, Mktime, Strtol;
    NextRunLater(Localtime(start, zone), FieldValue(spec.minutes), FieldValue(spec.hours), FieldValue(spec.day),
                 MonthValue(spec.month), zone);
  }

  lemma RunsNoDayBefore(start: int, zone: int, spec: Spec)
    requires DayAt(start, zone) >= 0 && spec.minutes != "ONCE" && FieldsInRange(spec)
    ensures NextRun(start, zone, spec) > start - 86400
  {
    hide Advance, Mktime, Strtol;
    LessThanADayBefore(Localtime(start, zone), FieldValue(spec.minutes), FieldValue(spec.hours), FieldValue(spec.day),
                       MonthValue(spec.month), zone);
  }

  // ----- A job from before 1970 -----

  const FIRST_MONTH := 12 * 1970

  /** The first second of the year 3000. */
  const YEAR_3000 := 32503680000

  lemma YearStarts()
    ensures MonthStart(FIRST_MONTH) == 719527 && MonthStart(12 * 3000) == 719527 + YEAR_3000 / 86400
  {
    StartOfYear(1970);
    StartOfYear(3000);
    hide MonthStart;
    assert DaysBeforeYear(1970) == 719527;
    assert DaysBeforeYear(3000) == 719527 + 376200;
  }

  lemma StartOfYear(y: int)
    ensures MonthStart(12 * y) == DaysBeforeYear(y)
  {
    assert 12 * y / 12 == y && 12 * y % 12 == 0;
  }

  lemma LastMonth(k: int)
    requires k < FIRST_MONTH
    ensures MonthStart(k) + 31 <= MonthStart(FIRST_MONTH)
  {
    NextMonth(FIRST_MONTH - 1);
    hide MonthStart;
    if k < FIRST_MONTH - 1 { LaterMonth(k, FIRST_MONTH - 1); }
  }

  /** With a time of day and a day of 0 to 31, a date is before 1970 exactly when its month
      is, or when it is day 0 of the first month. */
  lemma BeforeFirstMonth(t: Tm)
    requires 0 <= SecondOf(t) < 86400 && 0 <= t.mday <= 31
    ensures Mktime(t, 0) < 0 <==> MonthOf(t) < FIRST_MONTH || (MonthOf(t) == FIRST_MONTH && t.mday == 0)
  {
    if MonthOf(t) < FIRST_MONTH { LastMonth(MonthOf(t)); }
    if MonthOf(t) > FIRST_MONTH { LaterMonth(FIRST_MONTH, MonthOf(t)); }
    hide MonthStart, SecondOf;
  }

  /** The month that an explicit month field reaches from the fields of the clock. */
  function MonthReached(tm: Tm, month: int): int {
    12 * (if month <= tm.mon then tm.year + 1 else tm.year) + month
  }

  /** The month field reaches back before 1970. */
  predicate ReachesBack(tm: Tm, day: int, month: int) {
    month != -1 &&
    (MonthReached(tm, month) < FIRST_MONTH || (MonthReached(tm, month) == FIRST_MONTH && day == -1))
  }

  /** Time of day and day in range, the month any number. */
  predicate TimeInRange(spec: Spec) {
    InRange(FieldValue(spec.minutes), FieldValue(spec.hours), FieldValue(spec.day), -1)
  }

  /** A job is redated to before 1970 exactly when its month field reaches back that far. */
  lemma RedatedBack(start: int, spec: Spec)
    requires 0 <= start && DayAt(start, 0) >= 0 && spec.minutes != "ONCE" && TimeInRange(spec)
    ensures NextRun(start, 0, spec) < 0 <==>
      ReachesBack(Localtime(start, 0), FieldValue(spec.day), MonthValue(spec.month))
  {
    hide MonthStart, Localtime, Strtol, Mktime;
    var tm, month := Localtime(start, 0), MonthValue(spec.month);
    if month == -1 {
      RunsLater(start, 0, spec);
    } else {
      var t := Advance(tm, FieldValue(spec.minutes), FieldValue(spec.hours), FieldValue(spec.day), month);
      NormalSecond(t);
      BeforeFirstMonth(t);
    }
  }

  lemma BeforeYear3000(tm: Tm)
    requires Normal(tm) && Mktime(tm, 0) < YEAR_3000
    ensures tm.year < 3000
  {
    hide MonthStart, SecondOf, MonthDays;
    NormalSecond(tm);
    WithinMonth(tm);
    YearStarts();
    if tm.year >= 3000 && MonthOf(tm) > 12 * 3000 { LaterMonth(12 * 3000, MonthOf(tm)); }
  }

  lemma MinusMany()
    ensures MonthValue("-24000") == -24001
  {
    assert Digits("", 24000) == 24000;
    assert Digits("0", 2400) == 24000;
    assert Digits("00", 240) == 24000;
    assert Digits("000", 24) == 24000;
    assert Digits("4000", 2) == 24000;
    assert "-24000"[1..] == "24000";
  }

  /** Up to the year 3000, a job for month -24000 and any day is dated before 1970. */
  lemma MonthFarBack(start: int)
    requires 0 <= start < YEAR_3000
    ensures DayAt(start, 0) >= 0 && NextRun(start, 0, Spec("*", "*", "*", "-24000")) < 0
  {
    YearStarts();
    MinusMany();
    hide MonthStart, Localtime, Strtol, NextRun;
    BeforeYear3000(Localtime(start, 0));
    RedatedBack(start, Spec("*", "*", "*", "-24000"));
  }
}
