/** The Date class of the C++ datetime module: a validated (year, month, day)
    triple with its ordinal, weekday, comparison, and arithmetic with
    Timedelta. Dates are values in the source (every member is const), so
    they are a datatype here. */
module Dates {
  import opened Wrappers
  import opened DatetimeInternal
  import opened Calendar
  import opened Timedeltas

  /** The modulus of size_t arithmetic. */
  const SizeModulus: int := 0x1_0000_0000_0000_0000

  datatype Date = Date(year: nat, month: nat, day: nat) {
    /** The invariant the constructor establishes through
        _check_date_fields. */
    predicate Valid() {
      CheckDateFields(year, month, day).Ok?
    }

    /** Date::to_ordinal: the ordinal of the date, 1-Jan-0001 being 1. */
    function ToOrdinal(): (n: int)
      requires Valid()
      ensures 1 <= n <= MaxOrdinal
    {
      CheckedDatesAreOrdinals(year, month, day);
      Ymd2Ord(year, month, day)
    }

    /** Date::_cmp: year, then month, then day. */
    function Cmp(other: Date): int {
      var byYear := DatetimeInternal.Cmp(year, other.year);
      if byYear != 0 then byYear
      else
        var byMonth := DatetimeInternal.Cmp(month, other.month);
        if byMonth != 0 then byMonth
        else DatetimeInternal.Cmp(day, other.day)
    }

    predicate Eq(other: Date) { Cmp(other) == 0 }
    predicate Lt(other: Date) { Cmp(other) < 0 }
    predicate Le(other: Date) { Cmp(other) <= 0 }
    predicate Gt(other: Date) { Cmp(other) > 0 }
    predicate Ge(other: Date) { Cmp(other) >= 0 }
  }

  /** The Date constructor: the fields are kept when _check_date_fields
      accepts them, else invalid_argument. */
  function MakeDate(year: nat, month: nat, day: nat): (r: Result<Date>)
    ensures r.Ok? <==> MinYear <= year <= MaxYear && ValidYmd(year, month, day)
    ensures r.Ok? ==> r.value == Date(year, month, day) && r.value.Valid()
    ensures r.Err? ==> r.error == InvalidArgument
  {
    var _ :- CheckDateFields(year, month, day);
    Ok(Date(year, month, day))
  }

  /** Date::from_ordinal: _ord2ymd on the size_t argument (so 0 is read as
      2^64 - 1 days after 1-Jan-0001), then the constructor on the ushort
      fields it returns. Every valid date is returned for its own ordinal;
      for an ordinal past _MAX_ORDINAL the year wraps modulo 2^16 and the
      result is whatever the constructor makes of the wrapped year. */
  method FromOrdinal(n: nat) returns (r: Result<Date>)
    requires n < SizeModulus
    ensures 1 <= n <= MaxOrdinal ==> r.Ok? && r.value.Valid() && r.value.ToOrdinal() == n
    ensures forall d: Date :: d.Valid() && d.ToOrdinal() == n ==> r == Ok(d)
    ensures forall y: nat, m: nat, d: nat :: ValidYmd(y, m, d) && Ymd2Ord(y, m, d) == (if n == 0 then SizeModulus else n) ==>
      r == MakeDate(y % 0x1_0000, m, d)
    ensures r.Ok? ==> r.value.Valid()
    ensures r.Err? ==> r.error == InvalidArgument
  {
    var year, month, day, fullYear := Ord2Ymd(if n == 0 then SizeModulus else n);
    r := MakeDate(year, month, day);
    forall y: nat, m: nat, d: nat | ValidYmd(y, m, d) && Ymd2Ord(y, m, d) == (if n == 0 then SizeModulus else n)
      ensures r == MakeDate(y % 0x1_0000, m, d)
    {
      Ymd2OrdInjective(y, m, d, fullYear, month, day);
    }
    forall d: Date | d.Valid() && d.ToOrdinal() == n
      ensures r == Ok(d)
    {
      Ymd2OrdInjective(d.year, d.month, d.day, fullYear, month, day);
    }
  }

  /** The size_t sum of an ordinal and a day count of a normalised Timedelta
      lies in 1.._MAX_ORDINAL exactly when the true sum does, and is then the
      true sum. */
  lemma SizeSumInRange(ordinal: int, days: int)
    requires 1 <= ordinal <= MaxOrdinal && Abs(days) <= 999999999
    ensures var o := (ordinal + days) % SizeModulus;
      (0 < o <= MaxOrdinal <==> 1 <= ordinal + days <= MaxOrdinal) &&
      (0 < o <= MaxOrdinal ==> o == ordinal + days)
  {
    var s := ordinal + days;
    if s >= 0 {
      DivModUnique(s, SizeModulus, 0, s);
    } else {
      DivModUnique(s, SizeModulus, -1, s + SizeModulus);
    }
  }

  /** Date + Timedelta: the date days() days later, or out_of_range when the
      resulting ordinal leaves 1.._MAX_ORDINAL. The sum is a size_t, so a
      negative one wraps past _MAX_ORDINAL. */
  method Add(date: Date, delta: Timedelta) returns (r: Result<Date>)
    requires date.Valid() && delta.Normalised()
    ensures r.Ok? <==> 1 <= date.ToOrdinal() + delta.days <= MaxOrdinal
    ensures r.Ok? ==> r.value.Valid() && r.value.ToOrdinal() == date.ToOrdinal() + delta.days
    ensures r.Err? ==> r.error == OutOfRange
  {
    var o := (date.ToOrdinal() + delta.days) % SizeModulus;
    SizeSumInRange(date.ToOrdinal(), delta.days);
    if 0 < o <= MaxOrdinal {
      r := FromOrdinal(o);
    } else {
      r := Err(OutOfRange);
    }
  }

  /** Date - Date: the Timedelta of the difference of the ordinals. */
  function Difference(left: Date, right: Date): (r: Result<Timedelta>)
    requires left.Valid() && right.Valid()
    ensures r.Ok? && r.value.Normalised()
    ensures r.value == Timedelta(left.ToOrdinal() - right.ToOrdinal(), 0, 0)
  {
    NewOfDays(left.ToOrdinal() - right.ToOrdinal());
    New(left.ToOrdinal() - right.ToOrdinal(), 0, 0, 0, 0, 0, 0)
  }

  /** Adding the difference of two dates to the second gives back the
      first: the sum stays in range and has the first date's ordinal, which
      determines the date. */
  lemma DifferenceThenAdd(left: Date, right: Date, sum: Date)
    requires left.Valid() && right.Valid() && sum.Valid()
    requires sum.ToOrdinal() == right.ToOrdinal() + Difference(left, right).value.days
    ensures 1 <= right.ToOrdinal() + Difference(left, right).value.days <= MaxOrdinal
    ensures sum == left
  {
    Ymd2OrdInjective(sum.year, sum.month, sum.day, left.year, left.month, left.day);
  }

  /** Date - Timedelta: the date plus Timedelta(-days()), so the seconds and
      microseconds of the Timedelta are ignored. */
  method Subtract(date: Date, delta: Timedelta) returns (r: Result<Date>)
    requires date.Valid() && delta.Normalised()
    ensures r.Ok? <==> 1 <= date.ToOrdinal() - delta.days <= MaxOrdinal
    ensures r.Ok? ==> r.value.Valid() && r.value.ToOrdinal() == date.ToOrdinal() - delta.days
    ensures r.Err? ==> r.error == OutOfRange
  {
    NewOfDays(-delta.days);
    var negated := New(-delta.days, 0, 0, 0, 0, 0, 0);
    r := Add(date, negated.value);
  }

  /** Date::weekday: Monday is 0 and Sunday is 6. */
  function Weekday(date: Date): (r: int)
    requires date.Valid()
    ensures 0 <= r < 7
    ensures r == (date.ToOrdinal() + 6) % 7
  {
    ModIsRemainder(date.ToOrdinal() + 6, 7);
    Mod(date.ToOrdinal() + 6, 7)
  }

  /** Date::iso_weekday: Monday is 1 and Sunday is 7. */
  function IsoWeekday(date: Date): (r: int)
    requires date.Valid()
    ensures 1 <= r <= 7
  {
    var wd := Mod(date.ToOrdinal(), 7);
    if wd == 0 then 7 else wd
  }

  /** The two weekday numberings differ by one. */
  lemma IsoWeekdayIsWeekdayPlusOne(date: Date)
    requires date.Valid()
    ensures IsoWeekday(date) == Weekday(date) + 1
  {
    var o := date.ToOrdinal();
    ModIsRemainder(o, 7);
    DivModUnique(o + 6, 7, o / 7 + (if o % 7 == 0 then 0 else 1), if o % 7 == 0 then 6 else o % 7 - 1);
  }

  /** The day after a date falls on the next weekday. */
  lemma NextDayNextWeekday(date: Date, next: Date)
    requires date.Valid() && next.Valid() && next.ToOrdinal() == date.ToOrdinal() + 1
    ensures Weekday(next) == (Weekday(date) + 1) % 7
  {
    NextDayOfWeek(date.ToOrdinal() + 6);
  }

  /** Counting days modulo 7, the next day follows on. */
  lemma NextDayOfWeek(o: int)
    ensures (o + 1) % 7 == (o % 7 + 1) % 7
  {
    DivModUnique(o + 1, 7, o / 7 + (if o % 7 == 6 then 1 else 0), if o % 7 == 6 then 0 else o % 7 + 1);
    DivModUnique(o % 7 + 1, 7, if o % 7 == 6 then 1 else 0, if o % 7 == 6 then 0 else o % 7 + 1);
  }

  /** 1-Jan-0001 is a Monday. */
  lemma FirstDateIsMonday()
    ensures Date(1, 1, 1).Valid() && Weekday(Date(1, 1, 1)) == 0
  {
    var first := Date(1, 1, 1);
    assert first.Valid();
    assert first.ToOrdinal() == 1;
    ModIsRemainder(7, 7);
  }

  /** On valid dates the field-wise comparison orders by ordinal. */
  lemma CmpIsOrdinalOrder(a: Date, b: Date)
    requires a.Valid() && b.Valid()
    ensures a.Cmp(b) == DatetimeInternal.Cmp(a.ToOrdinal(), b.ToOrdinal())
  {
    Ymd2OrdInYear(a.year, a.month, a.day);
    Ymd2OrdInYear(b.year, b.month, b.day);
    YearsOrdered(a.year, b.year);
    YearsOrdered(b.year, a.year);
    MonthsInOrder(a.year, a.month, b.month);
    MonthsInOrder(a.year, b.month, a.month);
  }

  /** Exactly one of <, == and > holds, and == is field equality. */
  lemma Trichotomy(a: Date, b: Date)
    ensures a.Eq(b) <==> a == b
    ensures a.Lt(b) <==> b.Gt(a)
    ensures a.Lt(b) || a.Eq(b) || a.Gt(b)
    ensures !(a.Lt(b) && a.Gt(b))
    ensures a.Le(b) <==> a.Lt(b) || a.Eq(b)
    ensures a.Ge(b) <==> a.Gt(b) || a.Eq(b)
  {
  }

  /** ISO week 1 of a year starts between two days before and four days
      after the end of the previous year. */
  lemma WeekOneMondayNearNewYear(year: nat)
    requires year >= 1
    ensures DaysBeforeYear(year) - 2 <= IsoWeek1Monday(year) <= DaysBeforeYear(year) + 4
    ensures (IsoWeek1Monday(year) + 6) % 7 == 0
  {
    assert Ymd2Ord(year, 1, 4) == DaysBeforeYear(year) + 4;
  }

  /** Two Mondays, each within a week of a year start, that are a 365 or 366
      day year apart are 52 or 53 weeks apart. */
  lemma MondaysAYearApart(w: int, w': int, start: int, start': int, length: int)
    requires (w + 6) % 7 == 0 && (w' + 6) % 7 == 0
    requires start - 2 <= w <= start + 4 && start' - 2 <= w' <= start' + 4
    requires start' == start + length && (length == 365 || length == 366)
    ensures w' - w == 364 || w' - w == 371
  {
    var a, b := (w + 6) / 7, (w' + 6) / 7;
    assert w + 6 == 7 * a && w' + 6 == 7 * b;
    assert 358 < 7 * (b - a) < 373;
  }

  /** The week-1 Mondays of two consecutive years, each near its own new
      year, with the years one year length apart. */
  lemma ConsecutiveWeekOnes(year: nat)
    requires year >= 1
    ensures (IsoWeek1Monday(year) + 6) % 7 == 0 && (IsoWeek1Monday(year + 1) + 6) % 7 == 0
    ensures DaysBeforeYear(year) - 2 <= IsoWeek1Monday(year) <= DaysBeforeYear(year) + 4
    ensures DaysBeforeYear(year + 1) - 2 <= IsoWeek1Monday(year + 1) <= DaysBeforeYear(year + 1) + 4
    ensures DaysBeforeYear(year + 1) == DaysBeforeYear(year) + YearLength(year)
    ensures YearLength(year) == 365 || YearLength(year) == 366
  {
    WeekOneMondayNearNewYear(year);
    WeekOneMondayNearNewYear(year + 1);
    DaysBeforeYearSucc(year);
  }

  /** An ISO year is 52 or 53 weeks long. */
  lemma IsoYearWeeks(year: nat)
    requires year >= 1
    ensures var weeks := IsoWeek1Monday(year + 1) - IsoWeek1Monday(year);
      weeks == 364 || weeks == 371
  {
    ConsecutiveWeekOnes(year);
    MondaysAYearApart(IsoWeek1Monday(year), IsoWeek1Monday(year + 1), DaysBeforeYear(year), DaysBeforeYear(year + 1), YearLength(year));
  }

  /** ISO week 1 moves forward by at least 52 weeks a year. */
  lemma {:induction false} WeekOneMondayMonotone(y1: nat, y2: nat)
    requires 1 <= y1 <= y2
    ensures IsoWeek1Monday(y1) + 364 * (y2 - y1) <= IsoWeek1Monday(y2)
    decreases y2 - y1
  {
    if y1 < y2 {
      WeekOneMondayMonotone(y1 + 1, y2);
      IsoYearWeeks(y1);
    }
  }

  /** Two Mondays in the same seven-day window are the same day. */
  lemma OneMondayAWeek(w: int, monday: int, start: int)
    requires (w + 6) % 7 == 0 && (monday + 6) % 7 == 0
    requires start - 2 <= w <= start + 4 && start - 2 <= monday <= start + 4
    ensures w == monday
  {
    var a, b := (w + 6) / 7, (monday + 6) / 7;
    assert w + 6 == 7 * a && monday + 6 == 7 * b;
  }

  /** A later ISO year starts after an earlier one ends. */
  lemma IsoYearsOrdered(y1: nat, y2: nat)
    requires y1 >= 1 && y2 >= 1
    ensures y1 < y2 ==> IsoWeek1Monday(y1 + 1) <= IsoWeek1Monday(y2)
  {
    if y1 < y2 {
      WeekOneMondayMonotone(y1 + 1, y2);
    }
  }

  /** ISO week 1 of year 1 starts on 1-Jan-0001. */
  lemma IsoWeekOneOfFirstYear()
    ensures IsoWeek1Monday(MinYear) == 1
  {
    WeekOneMondayNearNewYear(MinYear);
    OneMondayAWeek(IsoWeek1Monday(MinYear), 1, 0);
  }

  /** ISO week 1 of year 10000 starts after the last date, 9999-12-31. */
  lemma IsoWeekOneAfterLastYear()
    ensures IsoWeek1Monday(MaxYear + 1) > MaxOrdinal
  {
    WeekOneMondayNearNewYear(MaxYear + 1);
    LastOrdinal();
    OneMondayAWeek(IsoWeek1Monday(MaxYear + 1), 3652062, MaxOrdinal);
  }

  /** (year, week, weekday) is the ISO calendar date of an ordinal: the
      ordinal lies week - 1 weeks and weekday - 1 days after the Monday of
      year's week 1, and before the next year's week 1. */
  predicate IsIsoCalendarOf(ordinal: int, year: nat, week: nat, weekday: nat) {
    year >= 1 && week >= 1 && 1 <= weekday <= 7 &&
    IsoWeek1Monday(year) + 7 * (week - 1) + (weekday - 1) == ordinal &&
    ordinal < IsoWeek1Monday(year + 1)
  }

  /** An ordinal has at most one ISO calendar date, and its week is at most
      53. */
  lemma IsoCalendarUnique(ordinal: int, y1: nat, w1: nat, d1: nat, y2: nat, w2: nat, d2: nat)
    requires IsIsoCalendarOf(ordinal, y1, w1, d1) && IsIsoCalendarOf(ordinal, y2, w2, d2)
    ensures y1 == y2 && w1 == w2 && d1 == d2
    ensures w1 <= 53
  {
    IsoYearsOrdered(y1, y2);
    IsoYearsOrdered(y2, y1);
    IsoYearWeeks(y1);
    DivModUnique(ordinal - IsoWeek1Monday(y1), 7, w1 - 1, d1 - 1);
    DivModUnique(ordinal - IsoWeek1Monday(y1), 7, w2 - 1, d2 - 1);
  }

  /** The range iso_calendar works on: today is the ordinal of a day of
      year, a year of the supported range. */
  predicate InYear(year: nat, today: int) {
    MinYear <= year <= MaxYear && DaysBeforeYear(year) < today <= DaysBeforeYear(year + 1) &&
    today <= MaxOrdinal
  }

  /** A valid date lies in its own year. */
  lemma DateInYear(date: Date)
    requires date.Valid()
    ensures InYear(date.year, date.ToOrdinal())
  {
    Ymd2OrdInYear(date.year, date.month, date.day);
  }

  /** Date::iso_calendar as written, on the year and ordinal of the date.
      The difference today - week1monday is a size_t, so a date before its
      year's week 1 wraps to a huge offset: the week < 0 branch is never
      taken, and _div_mod on the non-negative offset is Euclidean division
      (DivModOfNatural). The week is narrowed to ushort on return. */
  function IsoCalendarOf(year: nat, today: int): (r: (nat, nat, nat))
    requires InYear(year, today)
    ensures 1 <= r.2 <= 7
  {
    var week1Monday := IsoWeek1Monday(year);
    var offset := (today - week1Monday) % SizeModulus;
    var week, day := offset / 7, offset % 7;
    if week >= 52 && today >= IsoWeek1Monday(year + 1) then (year + 1, 1, day + 1)
    else (year, (week + 1) % 0x1_0000, day + 1)
  }

  function IsoCalendar(date: Date): (r: (nat, nat, nat))
    requires date.Valid()
    ensures 1 <= r.2 <= 7
  {
    DateInYear(date);
    IsoCalendarOf(date.year, date.ToOrdinal())
  }

  /** Date::iso_calendar as intended, with signed floor division: a date
      before its year's week 1 belongs to the last week of the previous
      year. */
  function IsoCalendarIntendedOf(year: nat, today: int): (nat, nat, nat)
    requires InYear(year, today)
  {
    var week1Monday := IsoWeek1Monday(year);
    if today < week1Monday then
      IsoBeforeWeekOne(year, today);
      var previous := IsoWeek1Monday(year - 1);
      (year - 1, (today - previous) / 7 + 1, (today - previous) % 7 + 1)
    else if today >= IsoWeek1Monday(year + 1) then
      (year + 1, 1, (today - week1Monday) % 7 + 1)
    else
      (year, (today - week1Monday) / 7 + 1, (today - week1Monday) % 7 + 1)
  }

  /** The intended iso_calendar gives the ISO calendar date of the day, in
      the supported range of years and with at most 53 weeks. */
  lemma IsoCalendarIntendedOfIsIso(year: nat, today: int)
    requires InYear(year, today)
    ensures var r := IsoCalendarIntendedOf(year, today);
      IsIsoCalendarOf(today, r.0, r.1, r.2) && MinYear <= r.0 <= MaxYear && r.1 <= 53
  {
    if today < IsoWeek1Monday(year) {
      IsoBeforeWeekOne(year, today);
    } else if today >= IsoWeek1Monday(year + 1) {
      IsoAfterLastWeek(year, today);
    } else {
      IsoWithinYear(year, today);
    }
  }

  function IsoCalendarIntended(date: Date): (nat, nat, nat)
    requires date.Valid()
  {
    DateInYear(date);
    IsoCalendarIntendedOf(date.year, date.ToOrdinal())
  }

  /** The intended iso_calendar of a date is its ISO calendar date. */
  lemma IsoCalendarIntendedIsIso(date: Date)
    requires date.Valid()
    ensures var r := IsoCalendarIntended(date);
      IsIsoCalendarOf(date.ToOrdinal(), r.0, r.1, r.2) && MinYear <= r.0 <= MaxYear && r.1 <= 53
  {
    DateInYear(date);
    IsoCalendarIntendedOfIsIso(date.year, date.ToOrdinal());
  }

  /** An offset from a week-1 Monday, short of the next year's week 1,
      splits into at most 52 whole weeks and a day of the week. */
  lemma WeeksFrom(today: int, w: int, next: int)
    requires w <= today < next && (next - w == 364 || next - w == 371)
    ensures w + 7 * ((today - w) / 7) + (today - w) % 7 == today
    ensures 0 <= (today - w) % 7 < 7 && 0 <= (today - w) / 7 <= 52
  {
    NatDivMod(today - w, 7);
  }

  /** A day within a week of the next Monday w' has, counted from a Monday
      w a whole number of weeks before w', the day of the week today - w'. */
  lemma DayOfWeekAfter(today: int, w: int, w': int)
    requires (w' - w == 364 || w' - w == 371) && w' <= today < w' + 7
    ensures (today - w) % 7 == today - w'
  {
    DivModUnique(today - w, 7, (w' - w) / 7, today - w');
  }

  /** No day of year 1 precedes its week 1, which starts on day 1. */
  lemma FirstYearFromWeekOne(year: nat, today: int)
    requires InYear(year, today) && today < IsoWeek1Monday(year)
    ensures year >= 2
  {
    IsoWeekOneOfFirstYear();
    BeforeWeekOneOfLaterYear(year, today, IsoWeek1Monday(year), DaysBeforeYear(year));
  }

  /** A day after the start of its year and before week 1 cannot be in
      year 1, whose start and week 1 are day 0 and day 1. */
  lemma BeforeWeekOneOfLaterYear(year: nat, today: int, w: int, start: int)
    requires year >= 1 && (year == 1 ==> w == 1 && start == 0)
    requires start < today < w
    ensures year >= 2
  {
  }

  /** The previous year's week 1 starts 52 or 53 weeks before this year's,
      which starts at most four days into this year. */
  lemma PreviousWeekOne(year: nat)
    requires year >= 2
    ensures var w, previous := IsoWeek1Monday(year), IsoWeek1Monday(year - 1);
      (w - previous == 364 || w - previous == 371) && w <= DaysBeforeYear(year) + 4
  {
    ConsecutiveWeekOnes(year - 1);
    IsoYearWeeks(year - 1);
  }

  /** A day before its year's week 1 lies in the previous ISO year. */
  lemma IsoBeforeWeekOne(year: nat, today: int)
    requires InYear(year, today) && today < IsoWeek1Monday(year)
    ensures year >= 2
    ensures var previous := IsoWeek1Monday(year - 1);
      previous <= today &&
      IsIsoCalendarOf(today, year - 1, (today - previous) / 7 + 1, (today - previous) % 7 + 1) &&
      (today - previous) / 7 + 1 <= 53
  {
    FirstYearFromWeekOne(year, today);
    PreviousWeekOne(year);
    WeeksFrom(today, IsoWeek1Monday(year - 1), IsoWeek1Monday(year));
  }

  /** No day of year 9999 reaches the week 1 of year 10000. */
  lemma LastYearBeforeWeekOne(year: nat, today: int)
    requires InYear(year, today) && today >= IsoWeek1Monday(year + 1)
    ensures year + 1 <= MaxYear
  {
    IsoWeekOneAfterLastYear();
  }

  /** The next year's week 1 starts 52 or 53 weeks after this year's, at
      most two days before the next year, and is itself 52 or 53 weeks
      long. */
  lemma NextWeekOne(year: nat)
    requires year >= 1
    ensures var w, next := IsoWeek1Monday(year), IsoWeek1Monday(year + 1);
      (next - w == 364 || next - w == 371) && DaysBeforeYear(year + 1) - 2 <= next &&
      next + 364 <= IsoWeek1Monday(year + 2)
  {
    ConsecutiveWeekOnes(year + 1);
    IsoYearWeeks(year);
    IsoYearWeeks(year + 1);
  }

  /** A day on or after the next year's week 1 is in week 1 of the next ISO
      year, on the weekday its offset from this year's week 1 gives. */
  lemma IsoAfterLastWeek(year: nat, today: int)
    requires InYear(year, today) && today >= IsoWeek1Monday(year + 1)
    ensures year + 1 <= MaxYear
    ensures IsIsoCalendarOf(today, year + 1, 1, (today - IsoWeek1Monday(year)) % 7 + 1)
  {
    LastYearBeforeWeekOne(year, today);
    NextWeekOne(year);
    DayOfWeekAfter(today, IsoWeek1Monday(year), IsoWeek1Monday(year + 1));
  }

  /** A day from its year's week 1 up to the next year's week 1, or in the
      first 52 weeks after its year's week 1, is in its own ISO year. */
  lemma IsoWithinYear(year: nat, today: int)
    requires InYear(year, today)
    requires IsoWeek1Monday(year) <= today < IsoWeek1Monday(year + 1)
    ensures var w := IsoWeek1Monday(year);
      IsIsoCalendarOf(today, year, (today - w) / 7 + 1, (today - w) % 7 + 1) &&
      (today - w) / 7 + 1 <= 53
  {
    IsoYearWeeks(year);
    WeeksFrom(today, IsoWeek1Monday(year), IsoWeek1Monday(year + 1));
  }

  /** From week 1 of its year on, the as-written iso_calendar gives the
      intended triple. */
  lemma IsoCalendarAgreesFromWeekOne(date: Date)
    requires date.Valid() && date.ToOrdinal() >= IsoWeek1Monday(date.year)
    ensures IsoCalendar(date) == IsoCalendarIntended(date)
  {
    DateInYear(date);
    IsoCalendarOfAgrees(date.year, date.ToOrdinal());
  }

  /** A non-negative offset is its own size_t value; an offset of a whole
      ISO year or more is in week 52 or later, and a shorter one gives a
      week that fits a ushort. */
  lemma OffsetWeeks(offset: int, span: int)
    requires 0 <= offset <= MaxOrdinal && (span == 364 || span == 371)
    ensures offset % SizeModulus == offset
    ensures offset >= span ==> offset / 7 >= 52
    ensures offset < span ==> (offset / 7 + 1) % 0x1_0000 == offset / 7 + 1
  {
    DivModUnique(offset, SizeModulus, 0, offset);
    NatDivMod(offset, 7);
    if offset < span {
      DivModUnique(offset / 7 + 1, 0x1_0000, 0, offset / 7 + 1);
    }
  }

  lemma IsoCalendarOfAgrees(year: nat, today: int)
    requires InYear(year, today) && today >= IsoWeek1Monday(year)
    ensures IsoCalendarOf(year, today) == IsoCalendarIntendedOf(year, today)
  {
    IsoYearWeeks(year);
    OffsetWeeks(today - IsoWeek1Monday(year), IsoWeek1Monday(year + 1) - IsoWeek1Monday(year));
  }

  /** 1-Jan-2021, a Friday, lies in week 53 of ISO year 2020; the
      as-written iso_calendar returns week 9362 of 2021 and weekday 7. */
  lemma IsoCalendarBeforeWeekOne()
    ensures Date(2021, 1, 1).Valid()
    ensures IsoCalendar(Date(2021, 1, 1)) == (2021, 9362, 7)
    ensures IsoCalendarIntended(Date(2021, 1, 1)) == (2020, 53, 5)
  {
    assert Date(2021, 1, 1).ToOrdinal() == 737791;
    assert IsoWeek1Monday(2021) == 737794;
    assert IsoWeek1Monday(2020) == 737423;
  }
}
