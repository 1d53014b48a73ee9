/** Which day, hour and minute a repeating job runs at: the first later one that its most
    significant field asks for, stated on the calendar and the clock. */
module CronFirst {
  import opened CronDate

  // ----- Counting months, hours and minutes -----

  /** Minutes and hours of the local clock, counted from the start of 1970. */
  function MinuteAt(t: int, zone: int): int { (t - zone) / 60 }

  function HourAt(t: int, zone: int): int { (t - zone) / 3600 }

  /** Day `day` is day `d` of month `k`. */
  predicate DayOfMonth(day: int, k: int, d: int) {
    MonthStart(k) < day <= MonthStart(k + 1) && day == MonthStart(k) + d
  }

  /** Day `day` is day `d` of some month. */
  ghost predicate IsDay(day: int, d: int) { exists k: int :: DayOfMonth(day, k, d) }

  /** `at` is the first one after `from` that `asked` holds of. */
  ghost predicate FirstLater(asked: int -> bool, from: int, at: int) {
    from < at && asked(at) && forall x :: from < x < at ==> !asked(x)
  }

  /** The next one that leaves remainder `r` is the first later one. */
  lemma NextRemainder(n: int, r: int, from: int, at: int)
    requires 0 <= r < n && from < at <= from + n && at % n == r
    ensures FirstLater((x: int) => x % n == r, from, at)
  {
    forall x | from < x < at ensures x % n != r {
      if x % n == r {
        Apart(n, x, at);
        assert false;
      }
    }
  }

  lemma Apart(n: int, x: int, y: int)
    requires n > 0 && x < y && x % n == y % n
    ensures x + n <= y
  {
    var a, b := x / n, y / n;
    assert x == a * n + x % n && y == b * n + y % n;
    if b <= a {
      Monotone(n, b, a);
    } else {
      Monotone(n, a + 1, b);
      assert (a + 1) * n == a * n + n;
    }
  }

  lemma Monotone(n: int, a: int, b: int)
    requires n > 0 && a <= b
    ensures a * n <= b * n
  {
  }

  // ----- From fields to the clock -----

  /** The day and the time of day of fields whose time of day is normal. */
  lemma ClockOf(t: Tm, zone: int)
    requires 0 <= SecondOf(t) < 86400
    ensures DayAt(Mktime(t, zone), zone) == DayOf(t) && (Mktime(t, zone) - zone) % 86400 == SecondOf(t)
  {
    hide DayOf, MonthStart, SecondOf;
    var days, s := DayOf(t) - (MonthStart(12 * 1970) + 1), SecondOf(t);
    assert (days * 86400 + s) / 86400 == days;
  }

  lemma HourOf(t: Tm, zone: int)
    requires 0 <= t.sec < 60 && 0 <= t.min < 60
    ensures HourAt(Mktime(t, zone), zone) == 24 * (DayOf(t) - (MonthStart(12 * 1970) + 1)) + t.hour
    ensures (Mktime(t, zone) - zone) % 3600 == t.min * 60 + t.sec
  {
    hide DayOf, MonthStart;
    var days := DayOf(t) - (MonthStart(12 * 1970) + 1);
    Quotient(3600, 24 * days + t.hour, t.min * 60 + t.sec, Mktime(t, zone) - zone);
  }

  lemma MinuteOf(t: Tm, zone: int)
    requires 0 <= t.sec < 60
    ensures MinuteAt(Mktime(t, zone), zone) == 1440 * (DayOf(t) - (MonthStart(12 * 1970) + 1)) + 60 * t.hour + t.min
    ensures (Mktime(t, zone) - zone) % 60 == t.sec
  {
    hide DayOf, MonthStart;
    var days := DayOf(t) - (MonthStart(12 * 1970) + 1);
    Quotient(60, 1440 * days + 60 * t.hour + t.min, t.sec, Mktime(t, zone) - zone);
  }

  lemma Quotient(n: int, q: int, r: int, x: int)
    requires 0 <= r < n && x == q * n + r
    ensures x / n == q && x % n == r
  {
    var a, b := x / n, x % n;
    assert x == a * n + b;
    if a < q { Monotone(n, a + 1, q); }
    if a > q { Monotone(n, q + 1, a); }
  }

  // ----- Minutes and hours -----

  /** A job for a minute of every hour runs at the first later minute so numbered. */
  lemma FirstMinute(tm: Tm, minutes: int, zone: int)
    requires Normal(tm) && 0 <= minutes < 60
    ensures var run := Mktime(Advance(tm, minutes, -1, -1, -1), zone);
      FirstLater((x: int) => x % 60 == minutes, MinuteAt(Mktime(tm, zone), zone), MinuteAt(run, zone)) &&
      (run - zone) % 60 == 0
  {
    hide Mktime, MonthStart;
    var t := Advance(tm, minutes, -1, -1, -1);
    MinuteOf(tm, zone);
    MinuteOf(t, zone);
    var hours := 24 * (DayOf(t) - (MonthStart(12 * 1970) + 1)) + t.hour;
    Quotient(60, hours, minutes, 60 * hours + minutes);
    NextRemainder(60, minutes, MinuteAt(Mktime(tm, zone), zone), MinuteAt(Mktime(t, zone), zone));
  }

  /** A job for an hour of every day runs in the first later hour so numbered, at its minute. */
  lemma FirstHour(tm: Tm, minutes: int, hours: int, zone: int)
    requires Normal(tm) && -1 <= minutes < 60 && 0 <= hours < 24
    ensures var run := Mktime(Advance(tm, minutes, hours, -1, -1), zone);
      FirstLater((x: int) => x % 24 == hours, HourAt(Mktime(tm, zone), zone), HourAt(run, zone)) &&
      (run - zone) % 3600 == (if minutes > 0 then minutes else 0) * 60
  {
    hide Mktime, MonthStart;
    var t := Advance(tm, minutes, hours, -1, -1);
    HourOf(tm, zone);
    HourOf(t, zone);
    var days := DayOf(t) - (MonthStart(12 * 1970) + 1);
    Quotient(24, days, hours, 24 * days + hours);
    NextRemainder(24, hours, HourAt(Mktime(tm, zone), zone), HourAt(Mktime(t, zone), zone));
  }

  // ----- Days -----

  /** A day is in one month only. */
  lemma OneMonth(day: int, k: int, j: int)
    requires MonthStart(k) < day <= MonthStart(k + 1) && MonthStart(j) < day <= MonthStart(j + 1)
    ensures k == j
  {
    hide MonthStart;
    if k < j && k + 1 < j { LaterMonth(k + 1, j); }
    if j < k && j + 1 < k { LaterMonth(j + 1, k); }
  }

  lemma NormalMonth(tm: Tm)
    requires Normal(tm)
    ensures DayOfMonth(DayOf(tm), MonthOf(tm), tm.mday)
  {
    WithinMonth(tm);
  }

  lemma MonthLength(k: int)
    ensures MonthStart(k + 1) == MonthStart(k) + MonthDays(k / 12, k % 12)
    ensures 28 <= MonthDays(k / 12, k % 12) <= 31
  {
    NextMonth(k);
  }

  /** The month that a day field asks for: this one while the day is to come, else the next. */
  function AskedMonth(tm: Tm, day: int): int { if day <= tm.mday then MonthOf(tm) + 1 else MonthOf(tm) }

  /** No day between the start and day `d` of the asked month, or the end of that month, is a
      day `d`. */
  lemma NoneBetween(tm: Tm, d: int, x: int)
    requires Normal(tm) && 1 <= d <= 31
    requires DayOf(tm) < x <= MonthStart(AskedMonth(tm, d) + 1) && x != MonthStart(AskedMonth(tm, d)) + d
    ensures !IsDay(x, d)
  {
    hide MonthStart, MonthDays;
    var k := MonthOf(tm);
    WithinMonth(tm);
    if IsDay(x, d) {
      var j: int :| DayOfMonth(x, j, d);
      if x <= MonthStart(k + 1) { OneMonth(x, j, k); } else { OneMonth(x, j, k + 1); }
      assert false;
    }
  }

  /** A job for a day of every month runs on that day of the asked month, counted on into
      the next month where the asked one is too short. */
  lemma AskedDay(tm: Tm, minutes: int, hours: int, day: int, zone: int)
    requires Normal(tm) && InRange(minutes, hours, day, -1) && day != -1
    ensures var run := Mktime(Advance(tm, minutes, hours, day, -1), zone);
      DayAt(run, zone) == MonthStart(AskedMonth(tm, day)) + day &&
      (run - zone) % 86400 == (if hours > 0 then hours else 0) * 3600 + (if minutes > 0 then minutes else 0) * 60
  {
    hide MonthStart, Mktime;
    var t := Advance(tm, minutes, hours, day, -1);
    NormalSecond(t);
    ClockOf(t, zone);
    assert MonthOf(t) == AskedMonth(tm, day);
  }

  /** The first later day so numbered is `at`. */
  ghost predicate FirstDayLater(d: int, from: int, at: int) {
    from < at && IsDay(at, d) && forall x :: from < x < at ==> !IsDay(x, d)
  }

  lemma DayKept(tm: Tm, d: int)
    requires Normal(tm) && 1 <= d <= 31
    requires var k := AskedMonth(tm, d); d <= MonthDays(k / 12, k % 12)
    ensures FirstDayLater(d, DayOf(tm), MonthStart(AskedMonth(tm, d)) + d)
  {
    hide MonthStart, MonthDays, IsDay;
    var k := AskedMonth(tm, d);
    MonthLength(k);
    WithinMonth(tm);
    HasDay(k, d);
    forall x | DayOf(tm) < x < MonthStart(k) + d ensures !IsDay(x, d) { NoneBetween(tm, d, x); }
  }

  /** Day `d` of the asked month is the first later day so numbered exactly when that month
      has it; else it is counted on into the next month. A day of 1 to 28 every month has. */
  lemma FirstDay(tm: Tm, d: int)
    requires Normal(tm) && 1 <= d <= 31
    ensures var k := AskedMonth(tm, d);
      FirstDayLater(d, DayOf(tm), MonthStart(k) + d) <==> d <= MonthDays(k / 12, k % 12)
    ensures var k := AskedMonth(tm, d);
      d > MonthDays(k / 12, k % 12) ==> DayOfMonth(MonthStart(k) + d, k + 1, d - MonthDays(k / 12, k % 12))
    ensures d <= 28 ==> FirstDayLater(d, DayOf(tm), MonthStart(AskedMonth(tm, d)) + d)
  {
    hide MonthStart, MonthDays, IsDay, Normal;
    var k := AskedMonth(tm, d);
    MonthLength(k);
    MonthLength(k + 1);
    if d <= MonthDays(k / 12, k % 12) {
      DayKept(tm, d);
    } else {
      WrongDay(k, d);
    }
  }

  lemma HasDay(k: int, d: int)
    requires 1 <= d && MonthStart(k) + d <= MonthStart(k + 1)
    ensures IsDay(MonthStart(k) + d, d)
  {
    hide MonthStart;
    assert DayOfMonth(MonthStart(k) + d, k, d);
  }

  lemma WrongDay(k: int, d: int)
    requires MonthStart(k + 1) < MonthStart(k) + d <= MonthStart(k + 2)
    ensures !IsDay(MonthStart(k) + d, d)
  {
    hide MonthStart;
    if IsDay(MonthStart(k) + d, d) {
      var j: int :| DayOfMonth(MonthStart(k) + d, j, d);
      OneMonth(MonthStart(k) + d, j, k + 1);
      LaterMonth(k, k + 1);
      assert false;
    }
  }

  // ----- A day or an hour under way -----

  /** Moment `x` is `s` seconds into a day `d` of a month. */
  ghost predicate DayMoment(zone: int, d: int, s: int, x: int) { IsDay(DayAt(x, zone), d) && (x - zone) % 86400 == s }

  ghost predicate FirstDayMoment(zone: int, d: int, s: int, from: int, at: int) {
    from < at && DayMoment(zone, d, s, at) && forall x :: from < x < at ==> !DayMoment(zone, d, s, x)
  }

  /** A time of day on its own day is left out: the run is the first later moment of that
      time on a day so numbered, exactly unless the start is on such a day and before it. */
  lemma DayUnderWay(tm: Tm, minutes: int, hours: int, d: int, zone: int)
    requires Normal(tm) && InRange(minutes, hours, d, -1) && d != -1
    requires var k := AskedMonth(tm, d); d <= MonthDays(k / 12, k % 12)
    ensures var t := Advance(tm, minutes, hours, d, -1);
      FirstDayMoment(zone, d, SecondOf(t), Mktime(tm, zone), Mktime(t, zone)) <==>
      !(tm.mday == d && SecondOf(tm) < SecondOf(t))
  {
    hide MonthStart, MonthDays, IsDay, Mktime, AskedMonth, SecondOf, DayAt, DayOf;
    var t := Advance(tm, minutes, hours, d, -1);
    NormalSecond(t);
    NormalSecond(tm);
    ClockOf(t, zone);
    AskedDay(tm, minutes, hours, d, zone);
    DayKept(tm, d);
    LaterDay(tm, t, zone);
    if tm.mday == d && SecondOf(tm) < SecondOf(t) {
      var x := SameDayMoment(tm, t, d, zone);
    } else {
      forall x | Mktime(tm, zone) < x < Mktime(t, zone) ensures !DayMoment(zone, d, SecondOf(t), x) {
        NoMomentBetween(tm, t, d, zone, x);
      }
    }
  }

  lemma NoMomentBetween(tm: Tm, t: Tm, d: int, zone: int, x: int)
    requires Normal(tm) && 0 <= SecondOf(tm) < 86400 && 0 <= SecondOf(t) < 86400
    requires FirstDayLater(d, DayOf(tm), DayOf(t)) && !(tm.mday == d && SecondOf(tm) < SecondOf(t))
    requires Mktime(tm, zone) < x < Mktime(t, zone)
    ensures !DayMoment(zone, d, SecondOf(t), x)
  {
    hide MonthStart, MonthDays, IsDay, SecondOf, DayAt, DayOf, Normal;
    MomentOf(x, zone);
    if DayAt(x, zone) == DayOf(tm) && IsDay(DayAt(x, zone), d) { OnlyDay(tm, d); }
  }

  /** A moment is its day and its time of day. */
  lemma MomentOf(x: int, zone: int)
    ensures x == (DayAt(x, zone) - (MonthStart(12 * 1970) + 1)) * 86400 + (x - zone) % 86400 + zone
  {
    hide MonthStart;
  }

  lemma OnlyDay(tm: Tm, d: int)
    requires Normal(tm) && IsDay(DayOf(tm), d)
    ensures tm.mday == d
  {
    hide MonthStart;
    var k: int :| DayOfMonth(DayOf(tm), k, d);
    WithinMonth(tm);
    OneMonth(DayOf(tm), k, MonthOf(tm));
  }

  lemma SameDayMoment(tm: Tm, t: Tm, d: int, zone: int) returns (x: int)
    requires Normal(tm) && tm.mday == d && 0 <= SecondOf(tm) < SecondOf(t) < 86400 && DayOf(tm) < DayOf(t)
    ensures Mktime(tm, zone) < x < Mktime(t, zone) && DayMoment(zone, d, SecondOf(t), x)
  {
    NormalMonth(tm);
    hide MonthStart, SecondOf, DayOf;
    var days := DayOf(tm) - (MonthStart(12 * 1970) + 1);
    x := Mktime(tm, zone) + SecondOf(t) - SecondOf(tm);
    Quotient(86400, days, SecondOf(t), x - zone);
  }

  /** At ten o'clock, a job for half past ten is put off to the next day. */
  lemma HourUnderWay(zone: int)
    ensures var tm := Tm(0, 0, 10, 1, 0, 2024);
      Normal(tm) && Mktime(Advance(tm, 30, 10, -1, -1), zone) == Mktime(tm, zone) + 86400 + 30 * 60
  {
    hide MonthStart;
  }

  predicate TimeMoment(zone: int, s: int, x: int) { (x - zone) % 86400 == s }

  ghost predicate FirstTimeMoment(zone: int, s: int, from: int, at: int) {
    from < at && TimeMoment(zone, s, at) && forall x :: from < x < at ==> !TimeMoment(zone, s, x)
  }

  /** Of a job for an hour of every day: it runs at the first later moment of that time,
      exactly unless the start is in that hour and before it. */
  lemma HourFirstMoment(tm: Tm, minutes: int, hours: int, zone: int)
    requires Normal(tm) && -1 <= minutes < 60 && 0 <= hours < 24
    ensures var t := Advance(tm, minutes, hours, -1, -1);
      FirstTimeMoment(zone, SecondOf(t), Mktime(tm, zone), Mktime(t, zone)) <==>
      !(tm.hour == hours && SecondOf(tm) < SecondOf(t))
  {
    hide MonthStart, MonthDays;
    var t := Advance(tm, minutes, hours, -1, -1);
    var start, run := Mktime(tm, zone), Mktime(t, zone);
    NormalSecond(t);
    NormalSecond(tm);
    ClockOf(t, zone);
    assert DayOf(t) == DayOf(tm) + t.mday - tm.mday;
    assert run - start == (t.mday - tm.mday) * 86400 + SecondOf(t) - SecondOf(tm);
    hide Mktime, DayOf;
    if tm.hour == hours && SecondOf(tm) < SecondOf(t) {
      assert TimeMoment(zone, SecondOf(t), run - 86400);
    } else {
      assert start < run <= start + 86400;
      forall x | start < x < run ensures !TimeMoment(zone, SecondOf(t), x) {
        if TimeMoment(zone, SecondOf(t), x) { Apart(86400, x - zone, run - zone); }
      }
    }
  }

  // ----- Months -----

  /** A job for a month runs in the first later month so numbered, on its day: counted on
      into the month after where that one is too short, and the day before its first where
      any day is asked for. */
  lemma FirstMonth(tm: Tm, minutes: int, hours: int, day: int, month: int, zone: int)
    requires Normal(tm) && InRange(minutes, hours, day, month) && month != -1
    ensures var run, k := Mktime(Advance(tm, minutes, hours, day, month), zone), MonthReached(tm, month);
      FirstLater((x: int) => x % 12 == month, MonthOf(tm), k) &&
      DayAt(run, zone) == MonthStart(k) + (if day == -1 then 0 else day) &&
      (run - zone) % 86400 == (if hours > 0 then hours else 0) * 3600 + (if minutes > 0 then minutes else 0) * 60
  {
    hide MonthStart, Mktime;
    var t, k := Advance(tm, minutes, hours, day, month), MonthReached(tm, month);
    NormalSecond(t);
    ClockOf(t, zone);
    assert MonthOf(t) == k;
    Quotient(12, if month <= tm.mon then tm.year + 1 else tm.year, month, k);
    NextRemainder(12, month, MonthOf(tm), k);
  }

  // ----- From a clock reading and a job's fields -----

  predicate Any(s: string) { s != [] && s[0] == '*' }

  /** The start as the local clock shows it. */
  lemma StartClock(start: int, zone: int)
    requires DayAt(start, zone) >= 0
    ensures DayOf(Localtime(start, zone)) == DayAt(start, zone)
  {
    hide DayOf, MonthStart;
    var tm := Localtime(start, zone);
    NormalSecond(tm);
    ClockOf(tm, zone);
  }

  /** With nothing but `*`, the next run is a minute after the start. */
  lemma EveryMinute(start: int, zone: int, spec: Spec)
    requires DayAt(start, zone) >= 0 && Any(spec.minutes) && Any(spec.hours) && Any(spec.day) && Any(spec.month)
    ensures NextRun(start, zone, spec) == start + 60
  {
    hide DayOf, MonthStart;
    var tm := Localtime(start, zone);
    assert DayOf(tm.(min := tm.min + 1)) == DayOf(tm) by { SameDay(tm, tm.(min := tm.min + 1)); }
  }

  lemma SameDay(a: Tm, b: Tm)
    requires a.mday == b.mday && a.mon == b.mon && a.year == b.year
    ensures DayOf(a) == DayOf(b)
  {
  }

  /** A job for a minute of every hour. */
  lemma MinuteJob(start: int, zone: int, spec: Spec)
    requires DayAt(start, zone) >= 0 && spec.minutes != "ONCE" && !Any(spec.minutes)
    requires Any(spec.hours) && Any(spec.day) && Any(spec.month) && 0 <= Strtol(spec.minutes) < 60
    ensures var run := NextRun(start, zone, spec);
      FirstLater((x: int) => x % 60 == Strtol(spec.minutes), MinuteAt(start, zone), MinuteAt(run, zone)) &&
      (run - zone) % 60 == 0
  {
    hide Mktime, Strtol, MonthStart, Advance;
    FirstMinute(Localtime(start, zone), Strtol(spec.minutes), zone);
  }

  /** A job for an hour of every day. */
  lemma HourJob(start: int, zone: int, spec: Spec)
    requires DayAt(start, zone) >= 0 && spec.minutes != "ONCE" && -1 <= FieldValue(spec.minutes) < 60
    requires !Any(spec.hours) && Any(spec.day) && Any(spec.month) && 0 <= Strtol(spec.hours) < 24
    ensures var run, minute := NextRun(start, zone, spec), FieldValue(spec.minutes);
      FirstLater((x: int) => x % 24 == Strtol(spec.hours), HourAt(start, zone), HourAt(run, zone)) &&
      (run - zone) % 3600 == (if minute > 0 then minute else 0) * 60
  {
    hide Mktime, Strtol, MonthStart, Advance;
    FirstHour(Localtime(start, zone), FieldValue(spec.minutes), Strtol(spec.hours), zone);
  }

  /** The time of day that the fields ask for, in seconds; `*` counts as 0. */
  function TimeAsked(spec: Spec): int {
    var hour, minute := FieldValue(spec.hours), FieldValue(spec.minutes);
    (if hour > 0 then hour else 0) * 3600 + (if minute > 0 then minute else 0) * 60
  }

  /** A job for a day of every month: on the first later day so numbered, exactly when the
      month it falls in has such a day. */
  lemma DayJob(start: int, zone: int, spec: Spec)
    requires DayAt(start, zone) >= 0 && spec.minutes != "ONCE" && FieldsInRange(spec)
    requires !Any(spec.day) && Any(spec.month) && 1 <= Strtol(spec.day) <= 31
    ensures var run, d := NextRun(start, zone, spec), Strtol(spec.day);
      var k := AskedMonth(Localtime(start, zone), d);
      (run - zone) % 86400 == TimeAsked(spec) && DayAt(run, zone) == MonthStart(k) + d &&
      (FirstDayLater(d, DayAt(start, zone), DayAt(run, zone)) <==> d <= MonthDays(k / 12, k % 12)) &&
      (d <= 28 ==> FirstDayLater(d, DayAt(start, zone), DayAt(run, zone)))
  {
    hide Mktime, Strtol, MonthStart, Advance, FirstDayLater, MonthDays, DayAt, AskedMonth;
    var tm, d := Localtime(start, zone), Strtol(spec.day);
    StartClock(start, zone);
    AskedDay(tm, FieldValue(spec.minutes), FieldValue(spec.hours), d, zone);
    FirstDay(tm, d);
  }

  /** A job for a month: in the first later month so numbered, from 1 for January. */
  lemma MonthJob(start: int, zone: int, spec: Spec) returns (k: int)
    requires DayAt(start, zone) >= 0 && spec.minutes != "ONCE" && FieldsInRange(spec)
    requires !Any(spec.month) && 1 <= Strtol(spec.month) <= 12
    ensures FirstLater((x: int) => x % 12 + 1 == Strtol(spec.month), MonthOf(Localtime(start, zone)), k)
    ensures var run, day := NextRun(start, zone, spec), FieldValue(spec.day);
      (run - zone) % 86400 == TimeAsked(spec) && DayAt(run, zone) == MonthStart(k) + (if day == -1 then 0 else day)
  {
    hide Mktime, Strtol, MonthStart, Advance, DayAt;
    var tm, month := Localtime(start, zone), Strtol(spec.month) - 1;
    k := MonthReached(tm, month);
    FirstMonth(tm, FieldValue(spec.minutes), FieldValue(spec.hours), FieldValue(spec.day), month, zone);
  }

  // ----- Field texts -----

  function Decimal(n: nat): (s: string)
    ensures s != [] && forall i :: 0 <= i < |s| ==> '0' <= s[i] <= '9'
  {
    var digit := [('0' as int + n % 10) as char];
    if n < 10 then digit else Decimal(n / 10) + digit
  }

  lemma {:induction false} DigitsSplit(s: string, t: string, n: nat)
    requires forall i :: 0 <= i < |s| ==> '0' <= s[i] <= '9'
    ensures Digits(s + t, n) == Digits(t, Digits(s, n))
    decreases |s|
  {
    if s == [] {
      assert s + t == t;
    } else {
      assert (s + t)[1..] == s[1..] + t;
      DigitsSplit(s[1..], t, n * 10 + (s[0] as int - '0' as int));
    }
  }

  lemma {:induction false} DigitsOfDecimal(n: nat)
    ensures Digits(Decimal(n), 0) == n
  {
    var digit := [('0' as int + n % 10) as char];
    assert Digits(digit, n / 10) == n / 10 * 10 + n % 10 by { assert digit[1..] == []; }
    if n >= 10 {
      DigitsOfDecimal(n / 10);
      DigitsSplit(Decimal(n / 10), digit, 0);
    }
  }

  /** A field that writes a number in decimal stands for that number. */
  lemma StrtolDecimal(n: nat)
    ensures Strtol(Decimal(n)) == n && Strtol("-" + Decimal(n)) == 0 - n
  {
    DigitsOfDecimal(n);
    assert ("-" + Decimal(n))[1..] == Decimal(n);
  }
}
