/** A duration, normalised to days, seconds and microseconds as CPython's
    timedelta is: 0 <= seconds < 86400 and 0 <= microseconds < 10^6, with
    the sign carried by the day count. */
module Timedeltas {
  import opened Wrappers
  import opened DatetimeInternal

  datatype Timedelta = Timedelta(days: int, seconds: int, microseconds: int) {
    /** The invariant the constructor establishes. */
    predicate Normalised() {
      0 <= seconds < 86400 && 0 <= microseconds < 1000000 && Abs(days) <= 999999999
    }

    /** The duration in microseconds. */
    function TotalMicros(): int {
      days * 86400000000 + seconds * 1000000 + microseconds
    }

    /** Timedelta::_cmp: _cmp_arr over {days, seconds, microseconds}. */
    function Cmp(other: Timedelta): int {
      LexCmp([days, seconds, microseconds], [other.days, other.seconds, other.microseconds])
    }

    predicate Eq(other: Timedelta) { Cmp(other) == 0 }
    predicate Lt(other: Timedelta) { Cmp(other) < 0 }
    predicate Le(other: Timedelta) { Cmp(other) <= 0 }
    predicate Gt(other: Timedelta) { Cmp(other) > 0 }
    predicate Ge(other: Timedelta) { Cmp(other) >= 0 }
  }

  /** Which division the constructor's normalisation uses: the source's
      _div_mod (truncate, then decrement any negative quotient) or the floor
      division it is meant to be. */
  datatype Division = AsWritten | Intended

  /** How far _true_div(a, b) lies from the floor quotient for a positive b:
      one below it for an exact negative quotient, one above it for a
      negative dividend smaller in magnitude than b, and on it otherwise. */
  function TruncationSkew(a: int, b: int): (k: int)
    requires b > 0
    ensures a >= 0 ==> k == 0
  {
    if a <= -b && a % b == 0 then -1 else if -b < a < 0 then 1 else 0
  }

  /** One carry step of the constructor: the quotient and remainder of a by b
      under the chosen division, in closed form (CarryIsDivMod relates it to
      _div_mod and to floor division). */
  function Carry(division: Division, a: int, b: int): (qr: (int, int))
    requires b > 0
    ensures 0 <= qr.1 < b
    ensures division == Intended ==> a == qr.0 * b + qr.1
  {
    (a / b + (if division == AsWritten then TruncationSkew(a, b) else 0), a % b)
  }

  /** The closed form is _div_mod for AsWritten and the floor quotient and
      remainder for Intended. */
  lemma CarryIsDivMod(division: Division, a: int, b: int)
    requires b > 0
    ensures division == AsWritten ==> Carry(division, a, b) == DivMod(a, b)
    ensures division == Intended ==> Carry(division, a, b) == FloorDivMod(a, b)
  {
    ModIsRemainder(a, b);
    FloorDivUnique(a, b, a / b, a % b);
    TrueDivIsSkewed(a, b);
  }

  lemma TrueDivIsSkewed(a: int, b: int)
    requires b > 0
    ensures TrueDiv(a, b) == a / b + TruncationSkew(a, b)
  {
    if -b < a < 0 {
      SmallNegativeSkew(a, b);
    } else if a <= -b {
      var q, r := (-a) / b, (-a) % b;
      LargeNegativeTruncation(a, b, q, r);
      if r == 0 {
        DivModUnique(a, b, -q, 0);
        assert TruncationSkew(a, b) == -1;
      } else {
        assert b * (-q) - r == b * (-q - 1) + (b - r);
        DivModUnique(a, b, -q - 1, b - r);
        assert TruncationSkew(a, b) == 0;
      }
    } else {
      NatDivMod(a, b);
      assert CDiv(a, b) == a / b;
    }
  }

  /** A negative dividend smaller in magnitude than the divisor truncates to
      0 and floors to -1. */
  lemma SmallNegativeSkew(a: int, b: int)
    requires -b < a < 0
    ensures TrueDiv(a, b) == 0 && a / b == -1 && TruncationSkew(a, b) == 1
  {
    DivModUnique(-a, b, 0, -a);
    DivModUnique(a, b, -1, a + b);
  }

  /** A dividend at most -b truncates to a negative quotient. */
  lemma LargeNegativeTruncation(a: int, b: int, q: int, r: int)
    requires b > 0 && a <= -b && q == (-a) / b && r == (-a) % b
    ensures q >= 1 && TrueDiv(a, b) == -q - 1 && a == b * (-q) - r && 0 <= r < b
  {
    NatDivMod(-a, b);
  }

  /** The Timedelta constructor, step by step: fold weeks, minutes, hours and
      milliseconds into days, seconds and microseconds, carry microseconds
      into seconds and seconds into days, then reject more than 999999999
      days either way with invalid_argument. The fractional parts of the
      source are all zero and are left out. */
  function Build(division: Division, days: int, seconds: int, microseconds: int,
                 milliseconds: int, minutes: int, hours: int, weeks: int): (r: Result<Timedelta>)
    ensures r.Ok? ==> r.value.Normalised()
    ensures r.Err? ==> r.error == InvalidArgument
  {
    var days := days + weeks * 7;
    var seconds := seconds + minutes * 60 + hours * 3600;
    var microseconds := microseconds + milliseconds * 1000;
    var d := days;
    var s := 0;

    var dayCarry := Carry(division, seconds, 86400);
    var d := d + dayCarry.0;
    var s := s + dayCarry.1;

    var secondCarry := Carry(division, microseconds, 1000000);
    var dayCarry := Carry(division, secondCarry.0, 86400);
    var d := d + dayCarry.0;
    var s := s + dayCarry.1;
    var microseconds := secondCarry.1;

    var secondCarry := Carry(division, microseconds, 1000000);
    var s := s + secondCarry.0;
    var us := secondCarry.1;

    var dayCarry := Carry(division, s, 86400);
    var d := d + dayCarry.0;
    var s := dayCarry.1;
    if Abs(d) > 999999999 then Err(InvalidArgument) else Ok(Timedelta(d, s, us))
  }

  /** The constructor as written, on the source's _div_mod. */
  function New(days: int, seconds: int, microseconds: int,
               milliseconds: int, minutes: int, hours: int, weeks: int): (r: Result<Timedelta>)
    ensures r.Ok? ==> r.value.Normalised()
    ensures r.Err? ==> r.error == InvalidArgument
  {
    Build(AsWritten, days, seconds, microseconds, milliseconds, minutes, hours, weeks)
  }

  /** The constructor with floor division. */
  function NewIntended(days: int, seconds: int, microseconds: int,
                       milliseconds: int, minutes: int, hours: int, weeks: int): (r: Result<Timedelta>)
    ensures r.Ok? ==> r.value.Normalised()
    ensures r.Err? ==> r.error == InvalidArgument
  {
    Build(Intended, days, seconds, microseconds, milliseconds, minutes, hours, weeks)
  }

  /** The duration the constructor's arguments denote, in microseconds. */
  function ArgumentMicros(days: int, seconds: int, microseconds: int,
                          milliseconds: int, minutes: int, hours: int, weeks: int): int
  {
    ((days + weeks * 7) * 86400 + seconds + minutes * 60 + hours * 3600) * 1000000
      + microseconds + milliseconds * 1000
  }

  /** With floor division the constructor keeps the duration it was given,
      and it throws exactly when that duration's whole day count exceeds
      999999999 in magnitude. */
  lemma NewIntendedKeepsDuration(days: int, seconds: int, microseconds: int,
                                 milliseconds: int, minutes: int, hours: int, weeks: int)
    ensures var total := ArgumentMicros(days, seconds, microseconds, milliseconds, minutes, hours, weeks);
      var r := NewIntended(days, seconds, microseconds, milliseconds, minutes, hours, weeks);
      (r.Ok? ==> r.value.TotalMicros() == total && r.value.days == FloorDiv(total, 86400000000)) &&
      (r.Err? <==> Abs(FloorDiv(total, 86400000000)) > 999999999)
  {
    var total := ArgumentMicros(days, seconds, microseconds, milliseconds, minutes, hours, weeks);
    var days' := days + weeks * 7;
    var seconds' := seconds + minutes * 60 + hours * 3600;
    var micros' := microseconds + milliseconds * 1000;
    var c1 := Carry(Intended, seconds', 86400);
    var c2 := Carry(Intended, micros', 1000000);
    var c3 := Carry(Intended, c2.0, 86400);
    var c4 := Carry(Intended, c2.1, 1000000);
    DivModUnique(c2.1, 1000000, 0, c2.1);
    var s := c1.1 + c3.1 + c4.0;
    var c5 := Carry(Intended, s, 86400);
    var d := days' + c1.0 + c3.0 + c5.0;
    assert total == d * 86400000000 + c5.1 * 1000000 + c4.1;
    FloorDivUnique(total, 86400000000, d, c5.1 * 1000000 + c4.1);
  }

  /** Timedelta(0, -1) as written is +23:59:59, not -1 second: _div_mod(-1,
      86400) truncates to 0 and yields remainder 86399. The intended
      constructor gives -1 day + 86399 seconds. */
  lemma NewNegativeSecond()
    ensures New(0, -1, 0, 0, 0, 0, 0) == Ok(Timedelta(0, 86399, 0))
    ensures New(0, -1, 0, 0, 0, 0, 0).value.TotalMicros() != ArgumentMicros(0, -1, 0, 0, 0, 0, 0)
  {
    assert Carry(AsWritten, -1, 86400) == (0, 86399);
  }

  /** With floor division Timedelta(0, -1) is -1 day + 86399 seconds. */
  lemma NewIntendedNegativeSecond()
    ensures NewIntended(0, -1, 0, 0, 0, 0, 0) == Ok(Timedelta(-1, 86399, 0))
  {
    assert Carry(Intended, -1, 86400) == (-1, 86399);
    assert Carry(Intended, 86399, 86400) == (0, 86399);
  }

  /** Timedelta(0, -86400) as written is -2 days: the exact quotient -1 is
      decremented again. */
  lemma NewNegativeDay()
    ensures New(0, -86400, 0, 0, 0, 0, 0) == Ok(Timedelta(-2, 0, 0))
    ensures NewIntended(0, -86400, 0, 0, 0, 0, 0) == Ok(Timedelta(-1, 0, 0))
  {
  }

  /** A whole number of days, as Date subtraction builds, is kept as written
      by both constructors. */
  lemma NewOfDays(days: int)
    ensures New(days, 0, 0, 0, 0, 0, 0) == NewIntended(days, 0, 0, 0, 0, 0, 0)
    ensures New(days, 0, 0, 0, 0, 0, 0) ==
      if Abs(days) > 999999999 then Err(InvalidArgument) else Ok(Timedelta(days, 0, 0))
  {
  }

  /** On normalised durations the field-wise comparison orders by duration:
      Cmp is the comparison of the totals. */
  lemma CmpIsDurationOrder(a: Timedelta, b: Timedelta)
    requires a.Normalised() && b.Normalised()
    ensures a.Cmp(b) == Cmp(a.TotalMicros(), b.TotalMicros())
  {
    LexCmpOfTriple(a.days, a.seconds, a.microseconds, b.days, b.seconds, b.microseconds);
    MixedRadixOrder(a.days, a.seconds, a.microseconds, b.days, b.seconds, b.microseconds);
  }

  /** Comparing two day, second, microsecond counts with in-range seconds and
      microseconds field by field compares the durations they add up to. */
  lemma MixedRadixOrder(d1: int, s1: int, u1: int, d2: int, s2: int, u2: int)
    requires 0 <= s1 < 86400 && 0 <= u1 < 1000000 && 0 <= s2 < 86400 && 0 <= u2 < 1000000
    ensures var t1, t2 := d1 * 86400000000 + s1 * 1000000 + u1, d2 * 86400000000 + s2 * 1000000 + u2;
      Cmp(t1, t2) == if d1 != d2 then Cmp(d1, d2) else if s1 != s2 then Cmp(s1, s2) else Cmp(u1, u2)
  {
    var t1, t2 := d1 * 86400000000 + s1 * 1000000 + u1, d2 * 86400000000 + s2 * 1000000 + u2;
    if d1 < d2 {
      assert t1 < (d1 + 1) * 86400000000 <= t2;
    } else if d1 > d2 {
      assert t2 < (d2 + 1) * 86400000000 <= t1;
    } else if s1 < s2 {
      assert t1 < d1 * 86400000000 + (s1 + 1) * 1000000 <= t2;
    } else if s1 > s2 {
      assert t2 < d2 * 86400000000 + (s2 + 1) * 1000000 <= t1;
    }
  }

  /** Exactly one of <, == and > holds, and == is field equality. */
  lemma Trichotomy(a: Timedelta, b: Timedelta)
    ensures a.Eq(b) <==> a == b
    ensures (a.Lt(b) && !a.Eq(b) && !a.Gt(b)) || (!a.Lt(b) && a.Eq(b) && !a.Gt(b)) || (!a.Lt(b) && !a.Eq(b) && a.Gt(b))
    ensures a.Lt(b) <==> b.Gt(a)
    ensures a.Le(b) <==> a.Lt(b) || a.Eq(b)
    ensures a.Ge(b) <==> a.Gt(b) || a.Eq(b)
  {
    var l, r := [a.days, a.seconds, a.microseconds], [b.days, b.seconds, b.microseconds];
    LexCmpProperties(l, r);
    if l == r {
      assert a.days == l[0] == r[0] == b.days;
      assert a.seconds == l[1] == r[1] == b.seconds;
      assert a.microseconds == l[2] == r[2] == b.microseconds;
    }
  }
}
