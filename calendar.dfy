/** The calendar carry of a `Date`'s setters, for in-range arguments, and
    what it does to `getDate` (index.js:38-47). `getDate` starts from the
    clock's date and sets the year, the month and the day one at a time. A
    `setMonth` that lands on a day the new month does not have carries into
    the following month, and the later `setDate` keeps that month. */
module Calendar {
  import opened Wrappers
  import opened DateInput

  /** The leap years of the proleptic Gregorian calendar. */
  predicate IsLeapYear(y: int) {
    y % 4 == 0 && (y % 100 != 0 || y % 400 == 0)
  }

  /** The length of month `m` (0-based) of year `y`. */
  function DaysInMonth(y: int, m: int): (n: int)
    requires 0 <= m < 12
    ensures 28 <= n <= 31
    ensures n == 31 <==> m in {0, 2, 4, 6, 7, 9, 11}
    ensures n == 30 <==> m in {3, 5, 8, 10}
    ensures m == 1 ==> (n == 29 <==> IsLeapYear(y))
  {
    if m == 1 then (if IsLeapYear(y) then 29 else 28)
    else if m == 3 || m == 5 || m == 8 || m == 10 then 30
    else 31
  }

  /** The range a setter's argument must lie in to be modelled here: one
      that names a field value of some valid date. */
  predicate InRange(f: Field, v: int) {
    match f
    case FullYear => true
    case Month => 0 <= v < 12
    case Date => 1 <= v <= 31
    case Hours => 0 <= v < 24
    case Minutes => 0 <= v < 60
    case Seconds => 0 <= v < 60
  }

  /** A date whose fields name a real instant: every field in range and the
      day within its month. */
  predicate ValidDate(d: DateFields) {
    && 0 <= d.month < 12
    && 1 <= d.date <= DaysInMonth(d.fullYear, d.month)
    && 0 <= d.hours < 24 && 0 <= d.minutes < 60 && 0 <= d.seconds < 60
    && 0 <= d.milliseconds < 1000
  }

  /** A date whose day may run up to three days past the end of its month. */
  predicate Overflowing(d: DateFields) {
    && 0 <= d.month < 12
    && 1 <= d.date <= 31
    && 0 <= d.hours < 24 && 0 <= d.minutes < 60 && 0 <= d.seconds < 60
    && 0 <= d.milliseconds < 1000
  }

  /** The date a `Date` holds after its fields are set to `d`: a day past the
      end of the month counts on into the next month. */
  function Normalize(d: DateFields): (r: DateFields)
    requires Overflowing(d)
    ensures ValidDate(r)
    ensures ValidDate(d) ==> r == d
    ensures !ValidDate(d) ==>
      r.fullYear == d.fullYear && r.month == d.month + 1
      && r.date + DaysInMonth(d.fullYear, d.month) == d.date
    ensures r.hours == d.hours && r.minutes == d.minutes && r.seconds == d.seconds
    ensures r.milliseconds == d.milliseconds
  {
    var n := DaysInMonth(d.fullYear, d.month);
    if d.date <= n then d else d.(month := d.month + 1, date := d.date - n)
  }

  /** `date[`set${f}`](v)` on a valid date, for an in-range `v`. */
  function CalendarSet(d: DateFields, f: Field, v: int): (r: DateFields)
    requires ValidDate(d) && InRange(f, v)
    ensures ValidDate(r)
    ensures ValidDate(Set(d, f, v)) ==> r == Set(d, f, v)
  {
    Normalize(Set(d, f, v))
  }

  /** `getDate` when the inputs hold the fields of `target`, from the date
      `start`: the six setters in the order of `Fields`. */
  function SetAll(start: DateFields, target: DateFields): (r: DateFields)
    requires ValidDate(start) && ValidDate(target)
    ensures ValidDate(r)
  {
    var y := CalendarSet(start, FullYear, target.fullYear);
    var m := CalendarSet(y, Month, target.month);
    var dd := CalendarSet(m, Date, target.date);
    var h := CalendarSet(dd, Hours, target.hours);
    var mi := CalendarSet(h, Minutes, target.minutes);
    CalendarSet(mi, Seconds, target.seconds)
  }

  /** `getDate` as written: from the clock's date with milliseconds zeroed. */
  function GetDateAsWritten(now: DateFields, target: DateFields): DateFields
    requires ValidDate(now) && ValidDate(target)
  {
    SetAll(now.(milliseconds := 0), target)
  }

  /** `getDate` with the day first set to 1, so that no setter before
      `setDate` can land past the end of a month. */
  function GetDateFromFirstDay(now: DateFields, target: DateFields): DateFields
    requires ValidDate(now) && ValidDate(target)
  {
    SetAll(now.(date := 1, milliseconds := 0), target)
  }

  /** On 31 January, inputs showing 15 February are read as 15 March:
      `setMonth(1)` makes 31 February, which is 3 March, and `setDate(15)`
      keeps March. */
  lemma MonthCarryAsWritten()
    ensures var now := DateFields(2026, 0, 31, 12, 0, 0, 500);
      var target := DateFields(2026, 1, 15, 10, 0, 0, 0);
      ValidDate(now) && ValidDate(target)
      && GetDateAsWritten(now, target) == DateFields(2026, 2, 15, 10, 0, 0, 0)
      && GetDateAsWritten(now, target) != target
  {
    var now := DateFields(2026, 0, 31, 12, 0, 0, 500);
    var target := DateFields(2026, 1, 15, 10, 0, 0, 0);
    assert !IsLeapYear(2026);
    var y := CalendarSet(now.(milliseconds := 0), FullYear, 2026);
    assert y == DateFields(2026, 0, 31, 12, 0, 0, 0);
    var m := CalendarSet(y, Month, 1);
    assert m == DateFields(2026, 2, 3, 12, 0, 0, 0);
  }

  /** The setters in turn reproduce a valid target when the start's day is
      at most 28, so no month or year they pass through is too short. */
  lemma SetAllFromEarlyDay(start: DateFields, target: DateFields)
    requires ValidDate(start) && ValidDate(target) && start.date <= 28
    ensures SetAll(start, target) == target.(milliseconds := start.milliseconds)
  {
    var y := CalendarSet(start, FullYear, target.fullYear);
    assert y == start.(fullYear := target.fullYear);
    var m := CalendarSet(y, Month, target.month);
    assert m == y.(month := target.month);
    var dd := CalendarSet(m, Date, target.date);
    assert dd == m.(date := target.date);
  }

  /** As written, `getDate` reads back a valid target whenever the clock's
      day is at most 28: the defect needs the 29th, 30th or 31st. */
  lemma AsWrittenEarlyInMonth(now: DateFields, target: DateFields)
    requires ValidDate(now) && ValidDate(target) && now.date <= 28
    ensures GetDateAsWritten(now, target) == target.(milliseconds := 0)
  {
    SetAllFromEarlyDay(now.(milliseconds := 0), target);
  }

  /** As written, `getDate` reads back a valid target exactly when the day
      left after `setFullYear` still exists in the target month; otherwise
      the result lands in the month after the target's. (A clock on 29
      February moves to 1 March under `setFullYear` of a common year, so a
      clock day past the month's length does not by itself decide.) */
  lemma AsWrittenReadsBackIff(now: DateFields, target: DateFields)
    requires ValidDate(now) && ValidDate(target)
    ensures var y := CalendarSet(now.(milliseconds := 0), FullYear, target.fullYear);
      GetDateAsWritten(now, target) == target.(milliseconds := 0)
      <==> y.date <= DaysInMonth(target.fullYear, target.month)
    ensures var y := CalendarSet(now.(milliseconds := 0), FullYear, target.fullYear);
      y.date > DaysInMonth(target.fullYear, target.month) ==>
        GetDateAsWritten(now, target).month == target.month + 1
  {
    var y := CalendarSet(now.(milliseconds := 0), FullYear, target.fullYear);
    assert y.fullYear == target.fullYear;
    var m := CalendarSet(y, Month, target.month);
    if y.date <= DaysInMonth(target.fullYear, target.month) {
      assert m == y.(month := target.month);
      var dd := CalendarSet(m, Date, target.date);
      assert dd == m.(date := target.date);
    } else {
      assert m.fullYear == target.fullYear && m.month == target.month + 1;
      assert DaysInMonth(m.fullYear, m.month) == 31;
      var dd := CalendarSet(m, Date, target.date);
      assert dd == m.(date := target.date);
    }
  }

  /** The day after `d`, rolling over the month and the year. */
  function NextDay(d: DateFields): (r: DateFields)
    requires ValidDate(d)
    ensures ValidDate(r)
    ensures r.hours == d.hours && r.minutes == d.minutes && r.seconds == d.seconds
    ensures r.milliseconds == d.milliseconds
    ensures d.date < DaysInMonth(d.fullYear, d.month) ==> r == d.(date := d.date + 1)
    ensures d.date == DaysInMonth(d.fullYear, d.month) ==>
      r.date == 1
      && (if d.month < 11 then r.fullYear == d.fullYear && r.month == d.month + 1
          else r.fullYear == d.fullYear + 1 && r.month == 0)
  {
    if d.date < DaysInMonth(d.fullYear, d.month) then d.(date := d.date + 1)
    else if d.month < 11 then d.(month := d.month + 1, date := 1)
    else d.(fullYear := d.fullYear + 1, month := 0, date := 1)
  }

  /** The constructor's target with `setHours(getHours() + 3)` carried as a
      `Date` does: from 21:00 on it is early on the next day. */
  function DefaultTargetCarried(now: DateFields): (r: DateFields)
    requires ValidDate(now)
    ensures ValidDate(r)
    ensures r.hours == (now.hours + 3) % 24 && r.minutes == 0 && r.seconds == 0 && r.milliseconds == 0
    ensures now.hours < 21 ==> r == DefaultTarget(now)
    ensures now.hours >= 21 ==> r == NextDay(now).(hours := now.hours - 21, minutes := 0, seconds := 0, milliseconds := 0)
  {
    var d := now.(minutes := 0, seconds := 0, milliseconds := 0);
    if now.hours < 21 then d.(hours := now.hours + 3)
    else NextDay(d).(hours := now.hours - 21)
  }

  /** Starting from the first of the month, `getDate` reads back every valid
      target whatever the clock reads, and agrees with the carry-free reading
      of `DateInput` on the texts `setDate` writes. */
  lemma FromFirstDayRoundTrip(now: DateFields, target: DateFields)
    requires ValidDate(now) && ValidDate(target)
    ensures GetDateFromFirstDay(now, target) == target.(milliseconds := 0)
    ensures DateFromTexts(now, InputTexts(target)) == Some(GetDateFromFirstDay(now, target))
  {
    SetAllFromEarlyDay(now.(date := 1, milliseconds := 0), target);
    SetThenGet(now, target);
  }
}
