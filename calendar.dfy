/** The proleptic Gregorian calendar helpers of the C++ datetime module: leap
    years, year and month offsets, and the conversions between a
    (year, month, day) triple and its ordinal, 1-Jan-0001 being day 1. */
module Calendar {
  import opened Wrappers
  import opened DatetimeInternal

  const MinYear: nat := 1
  const MaxYear: nat := 9999

  /** Days in 400, 100 and 4 years: _days_before_year(401), (101) and (5). */
  const DaysIn400Years: nat := 146097
  const DaysIn100Years: nat := 36524
  const DaysIn4Years: nat := 1461

  predicate IsLeap(year: nat) {
    year % 4 == 0 && (year % 100 != 0 || year % 400 == 0)
  }

  /** Number of days in a year: the reference against which the offsets
      below are stated. */
  function YearLength(year: nat): nat {
    if IsLeap(year) then 366 else 365
  }

  /** Days before 1 January of year. */
  function DaysBeforeYear(year: nat): int
    requires year >= 1
  {
    var y := year - 1;
    y * 365 + y / 4 - y / 100 + y / 400
  }

  function DaysInMonth(year: nat, month: nat): (r: int)
    requires 1 <= month <= 12
    ensures 28 <= r <= 31
  {
    if month == 2 && IsLeap(year) then 29 else DaysInMonthTable[month]
  }

  /** Days of year that precede the first day of month. */
  function DaysBeforeMonth(year: nat, month: nat): (r: int)
    requires 1 <= month <= 12
    ensures 0 <= r <= 335
  {
    DaysBeforeMonthTable[month] + (if month > 2 && IsLeap(year) then 1 else 0)
  }

  predicate ValidYmd(year: nat, month: nat, day: nat) {
    1 <= year && 1 <= month <= 12 && 1 <= day <= DaysInMonth(year, month)
  }

  /** _ymd2ord: the ordinal of a date, 1-Jan-0001 being 1. The month and
      day ranges are asserted by the source and are preconditions here. */
  function Ymd2Ord(year: nat, month: nat, day: nat): int
    requires ValidYmd(year, month, day)
  {
    DaysBeforeYear(year) + DaysBeforeMonth(year, month) + day
  }

  /** The cycle lengths are the offsets of years 401, 101 and 5. */
  lemma CycleLengths()
    ensures DaysIn400Years == DaysBeforeYear(401)
    ensures DaysIn100Years == DaysBeforeYear(101)
    ensures DaysIn4Years == DaysBeforeYear(5)
  {
  }

  /** Euclidean division of a successor: the quotient steps up exactly when
      the successor is a multiple of the divisor. */
  lemma DivSucc(x: nat, k: int)
    requires k > 0
    ensures (x + 1) / k == x / k + (if (x + 1) % k == 0 then 1 else 0)
  {
    var q, r := x / k, x % k;
    if r == k - 1 {
      DivModUnique(x + 1, k, q + 1, 0);
    } else {
      DivModUnique(x + 1, k, q, r + 1);
    }
  }

  /** The offset of each year is the sum of the lengths of the years before
      it: year 1 starts at offset 0 and each year adds its own length. */
  lemma DaysBeforeYearSucc(year: nat)
    requires year >= 1
    ensures DaysBeforeYear(1) == 0
    ensures DaysBeforeYear(year + 1) == DaysBeforeYear(year) + YearLength(year)
  {
    var y := year - 1;
    DivSucc(y, 4);
    DivSucc(y, 100);
    DivSucc(y, 400);
    DivisibilityChain(year);
  }

  /** A multiple of 400 is a multiple of 100, which is a multiple of 4. */
  lemma DivisibilityChain(n: nat)
    ensures n % 400 == 0 ==> n % 100 == 0
    ensures n % 100 == 0 ==> n % 4 == 0
  {
    if n % 400 == 0 {
      DivModUnique(n, 100, 4 * (n / 400), 0);
    }
    if n % 100 == 0 {
      DivModUnique(n, 4, 25 * (n / 100), 0);
    }
  }

  lemma {:induction false} DaysBeforeYearMonotone(y1: nat, y2: nat)
    requires 1 <= y1 <= y2
    ensures DaysBeforeYear(y1) + 365 * (y2 - y1) <= DaysBeforeYear(y2)
    decreases y2 - y1
  {
    if y1 < y2 {
      DaysBeforeYearSucc(y1);
      DaysBeforeYearMonotone(y1 + 1, y2);
    }
  }

  /** Within a year the months tile the days: January starts at offset 0,
      each month starts where the previous one ends, December ends at the
      year length. */
  lemma MonthsTile(year: nat)
    ensures DaysBeforeMonth(year, 1) == 0
    ensures forall m :: 1 <= m < 12 ==>
      DaysBeforeMonth(year, m + 1) == DaysBeforeMonth(year, m) + DaysInMonth(year, m)
    ensures DaysBeforeMonth(year, 12) + DaysInMonth(year, 12) == YearLength(year)
  {
    TablesAgree();
  }

  /** The offset of a day within its year stays inside that year, and later
      months start after earlier months end. */
  lemma {:induction false} MonthsOrdered(year: nat, m1: nat, m2: nat)
    requires 1 <= m1 < m2 <= 12
    ensures DaysBeforeMonth(year, m1) + DaysInMonth(year, m1) <= DaysBeforeMonth(year, m2)
    decreases m2 - m1
  {
    MonthsTile(year);
    if m1 + 1 < m2 {
      MonthsOrdered(year, m1 + 1, m2);
    }
  }

  /** An ordinal lies between the first and the last day of its year. */
  lemma Ymd2OrdInYear(year: nat, month: nat, day: nat)
    requires ValidYmd(year, month, day)
    ensures DaysBeforeYear(year) + 1 <= Ymd2Ord(year, month, day) <= DaysBeforeYear(year + 1)
  {
    MonthsTile(year);
    DaysBeforeYearSucc(year);
    if month < 12 {
      MonthsOrdered(year, month, 12);
    }
  }

  /** A later year starts after an earlier one ends. */
  lemma YearsOrdered(y1: nat, y2: nat)
    requires y1 >= 1 && y2 >= 1
    ensures y1 < y2 ==> DaysBeforeYear(y1 + 1) <= DaysBeforeYear(y2)
  {
    if y1 < y2 {
      DaysBeforeYearMonotone(y1 + 1, y2);
    }
  }

  /** A later month starts after an earlier one ends. */
  lemma MonthsInOrder(year: nat, m1: nat, m2: nat)
    requires 1 <= m1 <= 12 && 1 <= m2 <= 12
    ensures m1 < m2 ==> DaysBeforeMonth(year, m1) + DaysInMonth(year, m1) <= DaysBeforeMonth(year, m2)
  {
    if m1 < m2 {
      MonthsOrdered(year, m1, m2);
    }
  }

  /** Different valid dates have different ordinals. */
  lemma Ymd2OrdInjective(y1: nat, m1: nat, d1: nat, y2: nat, m2: nat, d2: nat)
    requires ValidYmd(y1, m1, d1) && ValidYmd(y2, m2, d2)
    requires Ymd2Ord(y1, m1, d1) == Ymd2Ord(y2, m2, d2)
    ensures y1 == y2 && m1 == m2 && d1 == d2
  {
    Ymd2OrdInYear(y1, m1, d1);
    Ymd2OrdInYear(y2, m2, d2);
    YearsOrdered(y1, y2);
    YearsOrdered(y2, y1);
    MonthsInOrder(y1, m1, m2);
    MonthsInOrder(y1, m2, m1);
  }

  /** 1-Jan-0001 is day 1. */
  lemma FirstOrdinal()
    ensures Ymd2Ord(MinYear, 1, 1) == 1
  {
  }

  /** 31-Dec-9999 is _MAX_ORDINAL, the day before year 10000 starts. */
  lemma LastOrdinal()
    ensures Ymd2Ord(MaxYear, 12, 31) == MaxOrdinal == DaysBeforeYear(MaxYear + 1)
  {
  }

  /** A valid date has an ordinal in 1.._MAX_ORDINAL exactly when its year
      is in MIN_YEAR..MAX_YEAR. */
  lemma OrdinalInRangeIffYearInRange(year: nat, month: nat, day: nat)
    requires ValidYmd(year, month, day)
    ensures 1 <= Ymd2Ord(year, month, day)
    ensures Ymd2Ord(year, month, day) <= MaxOrdinal <==> year <= MaxYear
  {
    Ymd2OrdInYear(year, month, day);
    DaysBeforeYearMonotone(1, year);
    if year <= MaxYear {
      DaysBeforeYearMonotone(year + 1, MaxYear + 1);
    } else {
      DaysBeforeYearMonotone(MaxYear + 1, year);
    }
  }

  /** The offset of year 1 + 400a + 100b + 4c + d in whole cycles, and its
      leapness from the cycle position. */
  lemma YearDecomposition(a: nat, b: nat, c: nat, d: nat, year: nat)
    requires b <= 3 && c <= 24 && d <= 3 && year == 1 + 400 * a + 100 * b + 4 * c + d
    ensures DaysBeforeYear(year) == 146097 * a + 36524 * b + 1461 * c + 365 * d
    ensures IsLeap(year) <==> d == 3 && (c != 24 || b == 3)
  {
    CycleOffset(a, b, c, d, year);
    CycleLeapness(a, b, c, d, year);
  }

  lemma CycleOffset(a: nat, b: nat, c: nat, d: nat, year: nat)
    requires b <= 3 && c <= 24 && d <= 3 && year == 1 + 400 * a + 100 * b + 4 * c + d
    ensures DaysBeforeYear(year) == 146097 * a + 36524 * b + 1461 * c + 365 * d
  {
    var y := 400 * a + 100 * b + 4 * c + d;
    DivModUnique(y, 4, 100 * a + 25 * b + c, d);
    DivModUnique(y, 100, 4 * a + b, 4 * c + d);
    DivModUnique(y, 400, a, 100 * b + 4 * c + d);
  }

  lemma CycleLeapness(a: nat, b: nat, c: nat, d: nat, year: nat)
    requires b <= 3 && c <= 24 && d <= 3 && year == 1 + 400 * a + 100 * b + 4 * c + d
    ensures IsLeap(year) <==> d == 3 && (c != 24 || b == 3)
  {
    var y := 400 * a + 100 * b + 4 * c + d;
    if d == 3 {
      DivModUnique(y + 1, 4, 100 * a + 25 * b + c + 1, 0);
    } else {
      DivModUnique(y + 1, 4, 100 * a + 25 * b + c, d + 1);
    }
    if c == 24 && d == 3 {
      DivModUnique(y + 1, 100, 4 * a + b + 1, 0);
    } else {
      DivModUnique(y + 1, 100, 4 * a + b, 4 * c + d + 1);
    }
    if b == 3 && c == 24 && d == 3 {
      DivModUnique(y + 1, 400, a + 1, 0);
    } else {
      DivModUnique(y + 1, 400, a, 100 * b + 4 * c + d + 1);
    }
  }

  /** _div_mod on size_t operands: for unsigned values it is Euclidean
      division, the quotient and remainder of a == b * q + r, 0 <= r < b. */
  method DivModUnsigned(a: nat, b: nat) returns (q: nat, r: nat)
    requires b > 0
    ensures a == b * q + r && r < b
    ensures q == a / b && r == a % b
  {
    DivModOfNatural(a, b);
    NatDivMod(a, b);
    var qr := DivMod(a, b);
    q, r := qr.0, qr.1;
  }

  /** The month estimate (offset + 50) >> 5 of _ord2ymd is the month of the
      offset or the one after it, and one correction step finds the month. */
  lemma MonthEstimate(year: nat, offset: int, leap: bool)
    requires 0 <= offset <= 364 && leap == IsLeap(year)
    ensures var m0 := (offset + 50) / 32;
      1 <= m0 <= 12 &&
      var p0 := DaysBeforeMonthTable[m0] + (if m0 > 2 && leap then 1 else 0);
      p0 == DaysBeforeMonth(year, m0) &&
      (p0 > offset ==>
         2 <= m0 &&
         p0 - (DaysInMonthTable[m0 - 1] + (if m0 - 1 == 2 && leap then 1 else 0)) == DaysBeforeMonth(year, m0 - 1) &&
         DaysBeforeMonth(year, m0 - 1) <= offset < DaysBeforeMonth(year, m0 - 1) + DaysInMonth(year, m0 - 1)) &&
      (p0 <= offset ==> offset < p0 + DaysInMonth(year, m0))
  {
  }

  /** The cascade of divisions in _ord2ymd splits a day offset into whole
      400-, 100-, 4- and 1-year cycles and a day within the year; a count of
      4 centuries or 4 years can only happen on a cycle's last day. */
  lemma CycleSplit(k: nat)
    ensures var n400, r400 := k / 146097, k % 146097;
      var n100, r100 := r400 / 36524, r400 % 36524;
      var n4, r4 := r100 / 1461, r100 % 1461;
      var n1, r1 := r4 / 365, r4 % 365;
      k == 146097 * n400 + 36524 * n100 + 1461 * n4 + 365 * n1 + r1 &&
      n100 <= 4 && n4 <= 24 && n1 <= 4 && r1 <= 364 &&
      (n100 == 4 ==> n4 == 0 && n1 == 0 && r1 == 0) &&
      (n100 < 4 && n1 == 4 ==> n4 <= 23 && r1 == 0)
  {
    NatDivMod(k, 146097);
  }

  /** The last day of a 400-year cycle. */
  lemma EndOf400Years(a: nat, year: nat, n: int)
    requires year == 400 * a + 400 && n == 146097 * a + 146097
    ensures ValidYmd(year, 12, 31) && Ymd2Ord(year, 12, 31) == n
  {
    YearDecomposition(a, 3, 24, 3, year);
  }

  /** The last day of a leap year that closes a 4-year cycle. */
  lemma EndOf4Years(a: nat, b: nat, c: nat, year: nat, n: int)
    requires b <= 3 && c <= 23 && year == 1 + 400 * a + 100 * b + 4 * c + 3
    requires n == 146097 * a + 36524 * b + 1461 * c + 1461
    ensures ValidYmd(year, 12, 31) && Ymd2Ord(year, 12, 31) == n
  {
    YearDecomposition(a, b, c, 3, year);
  }

  /** The tail of _ord2ymd: the month and day of a 0-based day offset in a
      year, found from the estimate (offset + 50) >> 5 and at most one step
      back. leap is the year's leapness as _ord2ymd derives it from the
      cycle position. */
  method MonthAndDay(year: nat, offset: nat, leap: bool) returns (month: nat, day: nat)
    requires year >= 1 && offset <= 364 && leap == IsLeap(year)
    ensures ValidYmd(year, month, day)
    ensures DaysBeforeMonth(year, month) + day == offset + 1
  {
    MonthEstimate(year, offset, leap);
    month := (offset + 50) / 32;
    var preceding := DaysBeforeMonthTable[month] + (if month > 2 && leap then 1 else 0);
    if preceding > offset {
      month := month - 1;
      preceding := preceding - (DaysInMonthTable[month] + (if month == 2 && leap then 1 else 0));
    }
    day := offset - preceding + 1;
  }

  /** _ord2ymd: the date of an ordinal. The year is narrowed to ushort
      (modulo 2^16) as in the source; fullYear is the year before narrowing.
      The divisors are DaysIn400Years, DaysIn100Years, DaysIn4Years and 365,
      written as literals. */
  method Ord2Ymd(n: nat) returns (year: nat, month: nat, day: nat, ghost fullYear: nat)
    requires n >= 1
    ensures ValidYmd(fullYear, month, day) && Ymd2Ord(fullYear, month, day) == n
    ensures year == fullYear % 0x1_0000
    ensures n <= MaxOrdinal ==> year == fullYear <= MaxYear
  {
    var k: nat := n - 1;
    CycleSplit(k);
    var n400;
    n400, k := DivModUnsigned(k, 146097);  // _DI400Y
    var y := n400 * 400 + 1;
    var n100;
    n100, k := DivModUnsigned(k, 36524);  // _DI100Y
    var n4;
    n4, k := DivModUnsigned(k, 1461);  // _DI4Y
    var n1;
    n1, k := DivModUnsigned(k, 365);

    y := y + n100 * 100 + n4 * 4 + n1;
    if n1 == 4 || n100 == 4 {
      fullYear := y - 1;
      if n100 == 4 {
        EndOf400Years(n400, fullYear, n);
      } else {
        EndOf4Years(n400, n100, n4, fullYear, n);
      }
      year, month, day := (y - 1) % 0x1_0000, 12, 31;
    } else {
      fullYear := y;
      YearDecomposition(n400, n100, n4, n1, fullYear);
      var leap := n1 == 3 && (n4 != 24 || n100 == 3);
      month, day := MonthAndDay(y, k, leap);
      year := y % 0x1_0000;
    }
    OrdinalInRangeIffYearInRange(fullYear, month, day);
    if n <= MaxOrdinal {
      DivModUnique(fullYear, 0x1_0000, 0, fullYear);
    }
  }

  /** _check_date_fields: MIN_YEAR <= year <= MAX_YEAR, 1 <= month <= 12 and
      1 <= day <= days in that month, else invalid_argument. */
  function CheckDateFields(year: nat, month: nat, day: nat): (r: Result<()>)
    ensures r.Ok? <==> MinYear <= year <= MaxYear && ValidYmd(year, month, day)
    ensures r.Err? ==> r.error == InvalidArgument
  {
    if !(MinYear <= year <= MaxYear) then Err(InvalidArgument)
    else if !(1 <= month <= 12) then Err(InvalidArgument)
    else if !(1 <= day <= DaysInMonth(year, month)) then Err(InvalidArgument)
    else Ok(())
  }

  /** Every date that passes _check_date_fields has an ordinal in
      1.._MAX_ORDINAL, and every such ordinal is the ordinal of one. */
  lemma CheckedDatesAreOrdinals(year: nat, month: nat, day: nat)
    requires CheckDateFields(year, month, day).Ok?
    ensures 1 <= Ymd2Ord(year, month, day) <= MaxOrdinal
  {
    OrdinalInRangeIffYearInRange(year, month, day);
  }

  /** The week arithmetic of _iso_week1monday on the ordinal of 1 January:
      stepping back to that week's Monday, and forward one week when
      1 January falls after Thursday, lands on the Monday of the week that
      holds 4 January. */
  lemma Week1MondayOfFirstDay(firstDay: int)
    requires firstDay == 1 || firstDay >= 7
    ensures var firstWeekday := (firstDay + 6) % 7;
      var r := if firstWeekday > 3 then firstDay - firstWeekday + 7 else firstDay - firstWeekday;
      (r + 6) % 7 == 0 && r <= firstDay + 3 < r + 7 && r >= 1
  {
  }

  /** _iso_week1monday: the ordinal of the Monday that starts ISO week 1,
      the week holding 4 January (the year's first Thursday). */
  function IsoWeek1Monday(year: nat): (r: int)
    requires year >= 1
    ensures (r + 6) % 7 == 0
    ensures r <= Ymd2Ord(year, 1, 4) < r + 7
    ensures r >= 1
  {
    var firstDay := Ymd2Ord(year, 1, 1);
    FirstDayOfYear(year);
    Week1MondayOfFirstDay(firstDay);
    var firstWeekday := (firstDay + 6) % 7;
    var week1Monday := firstDay - firstWeekday;
    if firstWeekday > 3 then week1Monday + 7 else week1Monday
  }

  /** 1 January of year 1 is ordinal 1; every later 1 January is past the
      first week. */
  lemma FirstDayOfYear(year: nat)
    requires year >= 1
    ensures Ymd2Ord(year, 1, 4) == Ymd2Ord(year, 1, 1) + 3
    ensures Ymd2Ord(year, 1, 1) == 1 || Ymd2Ord(year, 1, 1) >= 7
  {
    if year > 1 {
      DaysBeforeYearSucc(1);
      DaysBeforeYearMonotone(2, year);
    }
  }
}
