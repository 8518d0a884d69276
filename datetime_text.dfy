/** The text helpers of the C++ datetime module: zero padding (_lf), replacing
    every occurrence of a substring in place (_replace), the isoformat date
    and time writers and parsers, the time-field validator and the rounding
    division used by Timedelta. */
module DatetimeText {
  import opened Wrappers
  import opened Numerals
  import opened StdString
  import StringUtils
  import opened DatetimeInternal
  import opened Calendar

  const UshortModulus: int := 0x1_0000
  const UintModulus: int := 0x1_0000_0000

  /** _lf(num, w, c): the decimal text of num, left-padded with c up to w
      characters; a longer text is returned as it is. */
  function Lf(num: int, w: int, c: char): (s: string)
    ensures |s| == if w > |IntToString(num)| then w else |IntToString(num)|
    ensures s[|s| - |IntToString(num)|..] == IntToString(num)
    ensures forall i :: 0 <= i < |s| - |IntToString(num)| ==> s[i] == c
  {
    var digits := IntToString(num);
    var pad := w - |digits|;
    if pad > 0 then Repeat(c, pad) + digits else digits
  }

  /** _replace(src, old, new): replaces, left to right, every occurrence of
      old in src by new, resuming the search after the inserted text. The
      source loops for ever on an empty old, which is excluded here. */
  method Replace(src: string, target: string, replacement: string) returns (r: string)
    requires |target| > 0
    ensures r == ReplaceAll(src, target, replacement)
  {
    r := src;
    var index := 0;
    while true
      invariant 0 <= index <= |r|
      invariant r[..index] + ReplaceAll(r[index..], target, replacement) == ReplaceAll(src, target, replacement)
      decreases |r| - index
    {
      var found := Find(r, target, index);
      if found.None? {
        FindInSuffix(r, target, index);
        assert ReplaceAll(r[index..], target, replacement) == r[index..];
        assert r == r[..index] + r[index..];
        break;
      }
      var p := found.value;
      ghost var tail := r[p + |target|..];
      ghost var rest := ReplaceAll(tail, target, replacement);
      ghost var whole := r[index..p] + replacement + rest;
      StringUtils.ReplaceAllFrom(r, target, replacement, index, p, p + |target|);
      ghost var before := r;
      r := r[..p] + replacement + r[p + |target|..];
      Regroup(before, index, p, replacement, tail, rest, r, whole);
      index := p + |replacement|;
    }
  }

  lemma Regroup(r: string, index: nat, p: nat, replacement: string, tail: string, rest: string, r': string, whole: string)
    requires index <= p <= |r|
    requires r' == r[..p] + replacement + tail && whole == r[index..p] + replacement + rest
    ensures r'[..p + |replacement|] + rest == r[..index] + whole
    ensures r'[p + |replacement|..] == tail
  {
    assert r'[..p + |replacement|] == r[..p] + replacement;
    assert r[..p] == r[..index] + r[index..p];
  }

  /** The fields of a parsed time: hour, minute and second as ushort, the
      microsecond as uint. */
  datatype Hmsf = Hmsf(hour: nat, minute: nat, second: nat, microsecond: nat)

  /** Character pos of a std::string read with operator[]: the terminating
      NUL at pos == |t|. */
  function CharAt(t: string, pos: nat): char
    requires pos <= |t|
  {
    if pos < |t| then t[pos] else '\0'
  }

  /** One pass of the component loop of _parse_hh_mm_ss_ff, from comp on:
      read two characters with stol into time_comps[comp] (a uint), then stop
      at the end of the text, after the seconds, or go on past a ':'. The
      result is the filled components and the position after the last one. */
  function Components(t: string, comp: nat, pos: nat, comps: seq<nat>): (r: Result<(seq<nat>, nat)>)
    requires comp < 3 && pos <= |t| && |comps| == 4
    ensures r.Ok? ==> |r.value.0| == 4 && r.value.1 <= |t|
    decreases 3 - comp
  {
    if |t| - pos < 2 then Err(InvalidArgument)
    else
      var v :- Stol(t[pos..pos + 2]);
      var comps' := comps[comp := v % UintModulus];
      var next := CharAt(t, pos + 2);
      if next == '\0' || comp >= 2 then Ok((comps', pos + 2))
      else if next != ':' then Err(InvalidArgument)
      else Components(t, comp + 1, pos + 3, comps')
  }

  /** The optional fraction after the components: a '.' and exactly three
      digits (milliseconds, scaled by 1000 in uint) or six (microseconds). */
  function Fraction(t: string, pos: nat, comps: seq<nat>): Result<Hmsf>
    requires pos <= |t| && |comps| == 4
  {
    var us :-
      if pos == |t| then Ok(comps[3])
      else if t[pos] != '.' then Err(InvalidArgument)
      else
        var remaining := |t| - (pos + 1);
        if remaining != 3 && remaining != 6 then Err(InvalidArgument)
        else
          var f :- Stol(t[pos + 1..]);
          var us := f % UintModulus;
          Ok(if remaining == 3 then (us * 1000) % UintModulus else us);
    Ok(Hmsf(comps[0] % UshortModulus, comps[1] % UshortModulus, comps[2] % UshortModulus, us))
  }

  /** What _parse_hh_mm_ss_ff computes. */
  function ParseTime(t: string): Result<Hmsf> {
    var (comps, pos) :- Components(t, 0, 0, [0, 0, 0, 0]);
    Fraction(t, pos, comps)
  }

  /** _parse_hh_mm_ss_ff: "HH[:MM[:SS]][.fff|.ffffff]". */
  method ParseHhMmSsFf(t: string) returns (r: Result<Hmsf>)
    ensures r == ParseTime(t)
  {
    var comps: seq<nat> := [0, 0, 0, 0];
    var pos := 0;
    var comp := 0;
    while true
      invariant comp < 3 && pos <= |t| && |comps| == 4
      invariant Components(t, 0, 0, [0, 0, 0, 0]) == Components(t, comp, pos, comps)
      decreases 3 - comp
    {
      if |t| - pos < 2 {
        return Err(InvalidArgument);
      }
      var v := Stol(t[pos..pos + 2]);
      if v.Err? {
        return Err(v.error);
      }
      comps := comps[comp := v.value % UintModulus];
      pos := pos + 2;
      var next := CharAt(t, pos);
      if next == '\0' || comp >= 2 {
        break;
      }
      if next != ':' {
        return Err(InvalidArgument);
      }
      pos := pos + 1;
      comp := comp + 1;
    }
    if pos < |t| {
      if t[pos] != '.' {
        return Err(InvalidArgument);
      }
      pos := pos + 1;
      var remaining := |t| - pos;
      if remaining != 3 && remaining != 6 {
        return Err(InvalidArgument);
      }
      var f := Stol(t[pos..]);
      if f.Err? {
        return Err(f.error);
      }
      comps := comps[3 := f.value % UintModulus];
      if remaining == 3 {
        comps := comps[3 := (comps[3] * 1000) % UintModulus];
      }
    }
    r := Ok(Hmsf(comps[0] % UshortModulus, comps[1] % UshortModulus, comps[2] % UshortModulus, comps[3]));
  }

  /** 10^k. */
  function Pow10(k: nat): (r: nat)
    ensures r >= 1
  {
    if k == 0 then 1 else 10 * Pow10(k - 1)
  }

  /** A number below 10^k has at most k digits. */
  lemma {:induction false} NatToStringShort(n: nat, k: nat)
    requires k >= 1 && n < Pow10(k)
    ensures |NatToString(n)| <= k
  {
    if n >= 10 {
      NatToStringShort(n / 10, k - 1);
    }
  }

  /** _lf with '0' writes the digits of a natural number, leading zeros
      included. */
  lemma ZeroPaddedDigits(n: nat, w: int)
    ensures AllDigits(Lf(n, w, '0')) && DigitsValue(Lf(n, w, '0')) == n
  {
    var digits := NatToString(n);
    var s := Lf(n, w, '0');
    assert s == Repeat('0', |s| - |digits|) + digits;
    ZerosThenDigits(|s| - |digits|, digits);
    DigitsValueOfNatToString(n);
  }

  lemma ZerosThenDigits(k: nat, digits: string)
    requires AllDigits(digits)
    ensures AllDigits(Repeat('0', k) + digits)
    ensures DigitsValue(Repeat('0', k) + digits) == DigitsValue(digits)
  {
    var s := Repeat('0', k) + digits;
    ValueLeadingZeros(s, 0, k, |s|);
    ValueOffset(s, digits, k, 0, |digits|);
  }

  /** stol reads back a number that _lf zero-padded to any width. */
  lemma PaddedParses(n: nat, w: int)
    requires n <= LongMax
    ensures Stol(Lf(n, w, '0')) == Ok(n)
  {
    ZeroPaddedDigits(n, w);
    StolOfDigits(Lf(n, w, '0'));
  }

  /** The isoformat date text: year, month and day with separators, as
      _parse_isoformat_date sees it (year, month and day as ushort). */
  datatype Ymd = Ymd(year: nat, month: nat, day: nat)

  /** _parse_isoformat_date: "YYYY-MM-DD"; the caller guarantees ten
      characters. Each field is read with stol and narrowed to ushort. */
  function ParseIsoformatDate(s: string): (r: Result<Ymd>)
    requires |s| == 10
    ensures r.Ok? ==> s[4] == '-' && s[7] == '-'
    ensures r.Ok? ==> r.value.year < UshortModulus && r.value.month < UshortModulus && r.value.day < UshortModulus
  {
    var year :- Stol(s[0..4]);
    if s[4] != '-' then Err(InvalidArgument)
    else
      var month :- Stol(s[5..7]);
      if s[7] != '-' then Err(InvalidArgument)
      else
        var day :- Stol(s[8..10]);
        Ok(Ymd(year % UshortModulus, month % UshortModulus, day % UshortModulus))
  }

  /** Date::iso_format: the year padded to four digits, month and day to two. */
  function IsoFormatDate(year: nat, month: nat, day: nat): string {
    Lf(year, 4, '0') + "-" + Lf(month, 2, '0') + "-" + Lf(day, 2, '0')
  }

  /** Every date that passes _check_date_fields is written in ten
      characters, and parsing the text gives the date back. */
  lemma IsoFormatDateRoundTrip(year: nat, month: nat, day: nat)
    requires CheckDateFields(year, month, day).Ok?
    ensures |IsoFormatDate(year, month, day)| == 10
    ensures ParseIsoformatDate(IsoFormatDate(year, month, day)) == Ok(Ymd(year, month, day))
  {
    CheckedDayBound(year, month, day);
    IsoTextRoundTrip(year, month, day);
  }

  lemma IsoTextRoundTrip(year: nat, month: nat, day: nat)
    requires year < Pow10(4) && month < Pow10(2) && day < Pow10(2)
    ensures |IsoFormatDate(year, month, day)| == 10
    ensures ParseIsoformatDate(IsoFormatDate(year, month, day)) == Ok(Ymd(year, month, day))
  {
    NatToStringShort(year, 4);
    NatToStringShort(month, 2);
    NatToStringShort(day, 2);
    PaddedParses(year, 4);
    PaddedParses(month, 2);
    PaddedParses(day, 2);
    ParseDateFields(Lf(year, 4, '0'), Lf(month, 2, '0'), Lf(day, 2, '0'), Ymd(year, month, day));
  }

  lemma ParseDateFields(y: string, m: string, d: string, date: Ymd)
    requires |y| == 4 && |m| == 2 && |d| == 2
    requires Stol(y) == Ok(date.year) && Stol(m) == Ok(date.month) && Stol(d) == Ok(date.day)
    requires date.year < UshortModulus && date.month < UshortModulus && date.day < UshortModulus
    ensures ParseIsoformatDate(y + "-" + m + "-" + d) == Ok(date)
  {
    DateFields(y, m, d);
  }

  lemma CheckedDayBound(year: nat, month: nat, day: nat)
    requires CheckDateFields(year, month, day).Ok?
    ensures year < Pow10(4) && month < Pow10(2) && day < Pow10(2)
  {
    assert Pow10(2) == 100 && Pow10(4) == 10000;
  }

  lemma DateFields(y: string, m: string, d: string)
    requires |y| == 4 && |m| == 2 && |d| == 2
    ensures var s := y + "-" + m + "-" + d;
      |s| == 10 && s[0..4] == y && s[4] == '-' && s[5..7] == m && s[7] == '-' && s[8..10] == d
  {
  }


  /** The precision of an isoformat time (time_spec). */
  datatype TimeSpec = Auto | Hours | Minutes | Seconds | Milliseconds | Microseconds

  /** The switch of _format_time once AUTO has been resolved. */
  function FormatFields(hh: nat, mm: nat, ss: nat, us: nat, ts: TimeSpec): string
    requires ts != Auto
  {
    match ts
    case Hours => Lf(hh, 2, '0')
    case Minutes => Lf(hh, 2, '0') + ":" + Lf(mm, 2, '0')
    case Seconds => Lf(hh, 2, '0') + ":" + Lf(mm, 2, '0') + ":" + Lf(ss, 2, '0')
    case Milliseconds => Lf(hh, 2, '0') + ":" + Lf(mm, 2, '0') + ":" + Lf(ss, 2, '0') + "." + Lf(us, 3, '0')
    case Microseconds => Lf(hh, 2, '0') + ":" + Lf(mm, 2, '0') + ":" + Lf(ss, 2, '0') + "." + Lf(us, 6, '0')
  }

  /** _format_time as written: AUTO is meant to drop a zero microsecond
      part, but its test us >= 0 holds for every unsigned us, so AUTO always
      writes microseconds. MILLISECONDS divides us by 1000 first. */
  function FormatTime(hh: nat, mm: nat, ss: nat, us: nat, ts: TimeSpec): string {
    if ts == Auto then FormatFields(hh, mm, ss, us, Microseconds)
    else if ts == Milliseconds then FormatFields(hh, mm, ss, us / 1000, Milliseconds)
    else FormatFields(hh, mm, ss, us, ts)
  }

  /** _format_time as intended: AUTO writes microseconds only when they are
      not zero. */
  function FormatTimeIntended(hh: nat, mm: nat, ss: nat, us: nat, ts: TimeSpec): string {
    if ts == Auto then FormatFields(hh, mm, ss, us, if us != 0 then Microseconds else Seconds)
    else FormatTime(hh, mm, ss, us, ts)
  }

  /** The fields a text written with precision ts keeps: the ones below the
      precision are zero, and milliseconds keep whole thousands of
      microseconds. */
  function Kept(hh: nat, mm: nat, ss: nat, us: nat, ts: TimeSpec): Hmsf {
    match ts
    case Hours => Hmsf(hh, 0, 0, 0)
    case Minutes => Hmsf(hh, mm, 0, 0)
    case Seconds => Hmsf(hh, mm, ss, 0)
    case Milliseconds => Hmsf(hh, mm, ss, us / 1000 * 1000)
    case _ => Hmsf(hh, mm, ss, us)
  }

  /** _check_time_fields: hour 0..23, minute and second 0..59, microsecond
      0..999999 and fold 0 or 1, else invalid_argument. */
  function CheckTimeFields(hour: nat, minute: nat, second: nat, microsecond: nat, fold: nat): (r: Result<()>)
    ensures r.Ok? <==> hour <= 23 && minute <= 59 && second <= 59 && microsecond <= 999999 && fold <= 1
    ensures r.Err? ==> r.error == InvalidArgument
  {
    if !(hour <= 23) then Err(InvalidArgument)
    else if !(minute <= 59) then Err(InvalidArgument)
    else if !(second <= 59) then Err(InvalidArgument)
    else if !(microsecond <= 999999) then Err(InvalidArgument)
    else if fold != 0 && fold != 1 then Err(InvalidArgument)
    else Ok(())
  }

  /** Every time that passes _check_time_fields, written by _format_time
      with any precision, parses back to the fields that precision keeps. */
  lemma FormatTimeRoundTrip(hh: nat, mm: nat, ss: nat, us: nat, fold: nat, ts: TimeSpec)
    requires CheckTimeFields(hh, mm, ss, us, fold).Ok?
    ensures ParseTime(FormatTime(hh, mm, ss, us, ts)) == Ok(Kept(hh, mm, ss, us, ts))
  {
    match ts
    case Auto => FormatFieldsRoundTrip(hh, mm, ss, us, Microseconds);
    case Milliseconds => FormatFieldsRoundTrip(hh, mm, ss, us / 1000, Milliseconds);
    case _ => FormatFieldsRoundTrip(hh, mm, ss, us, ts);
  }

  /** The same for the intended AUTO, which keeps every field as well. */
  lemma FormatTimeIntendedRoundTrip(hh: nat, mm: nat, ss: nat, us: nat, fold: nat, ts: TimeSpec)
    requires CheckTimeFields(hh, mm, ss, us, fold).Ok?
    ensures ParseTime(FormatTimeIntended(hh, mm, ss, us, ts)) == Ok(Kept(hh, mm, ss, us, ts))
  {
    if ts == Auto {
      FormatFieldsRoundTrip(hh, mm, ss, us, if us != 0 then Microseconds else Seconds);
    } else {
      FormatTimeRoundTrip(hh, mm, ss, us, fold, ts);
    }
  }

  /** The intended AUTO writes "HH:MM:SS" for a zero microsecond and
      "HH:MM:SS.ffffff" otherwise. */
  lemma FormatTimeIntendedAutoLength(hh: nat, mm: nat, ss: nat, us: nat, fold: nat)
    requires CheckTimeFields(hh, mm, ss, us, fold).Ok?
    ensures |FormatTimeIntended(hh, mm, ss, us, Auto)| == if us == 0 then 8 else 15
  {
    if us == 0 {
      SecondsLength(hh, mm, ss);
    } else {
      MicrosecondsLength(hh, mm, ss, us);
    }
  }

  lemma SecondsLength(hh: nat, mm: nat, ss: nat)
    requires hh <= 23 && mm <= 59 && ss <= 59
    ensures |FormatFields(hh, mm, ss, 0, Seconds)| == 8
  {
    TwoDigitFields(hh, mm, ss);
  }

  lemma MicrosecondsLength(hh: nat, mm: nat, ss: nat, us: nat)
    requires hh <= 23 && mm <= 59 && ss <= 59 && us <= 999999
    ensures |FormatFields(hh, mm, ss, us, Microseconds)| == 15
  {
    TwoDigitFields(hh, mm, ss);
    FractionWidth(us);
  }

  lemma FractionWidth(us: nat)
    requires us <= 999999
    ensures |Lf(us, 6, '0')| == 6
  {
    assert Pow10(6) == 1000000;
    NatToStringShort(us, 6);
  }

  /** _format_time(hh, mm, ss, 0, AUTO) writes ".000000" after the
      "HH:MM:SS" that AUTO is meant to write for a zero microsecond (for
      12:00:00 it writes "12:00:00.000000"). */
  lemma FormatTimeAutoKeepsZeroMicroseconds(hh: nat, mm: nat, ss: nat)
    requires hh <= 23 && mm <= 59 && ss <= 59
    ensures FormatTime(hh, mm, ss, 0, Auto) == FormatTimeIntended(hh, mm, ss, 0, Auto) + ".000000"
    ensures |FormatTimeIntended(hh, mm, ss, 0, Auto)| == 8
  {
    var x := FormatTimeIntended(hh, mm, ss, 0, Auto);
    assert x == FormatFields(hh, mm, ss, 0, Seconds);
    assert FormatTime(hh, mm, ss, 0, Auto) == x + "." + Lf(0, 6, '0');
    SixZeros();
    AppendZeros(x);
    SecondsLength(hh, mm, ss);
  }

  lemma AppendZeros(x: string)
    ensures x + "." + "000000" == x + ".000000"
  {
  }

  /** The zero microsecond, padded to six places. */
  lemma SixZeros()
    ensures Lf(0, 6, '0') == "000000"
  {
    assert Repeat('0', 5) + "0" == Repeat('0', 6);
    assert Repeat('0', 6) == "000000";
  }

  lemma TwoDigitFields(hh: nat, mm: nat, ss: nat)
    requires hh < 100 && mm < 100 && ss < 100
    ensures |Lf(hh, 2, '0')| == 2 && |Lf(mm, 2, '0')| == 2 && |Lf(ss, 2, '0')| == 2
  {
    assert Pow10(2) == 100;
    NatToStringShort(hh, 2);
    NatToStringShort(mm, 2);
    NatToStringShort(ss, 2);
  }

  /** Each branch of the switch parses back. */
  lemma FormatFieldsRoundTrip(hh: nat, mm: nat, ss: nat, us: nat, ts: TimeSpec)
    requires ts != Auto && hh <= 23 && mm <= 59 && ss <= 59 && us <= 999999
    requires ts == Milliseconds ==> us <= 999
    ensures ParseTime(FormatFields(hh, mm, ss, us, ts)) ==
      Ok(if ts == Milliseconds then Hmsf(hh, mm, ss, us * 1000) else Kept(hh, mm, ss, us, ts))
  {
    FieldsParse(hh, mm, ss);
    var a, b, c := Lf(hh, 2, '0'), Lf(mm, 2, '0'), Lf(ss, 2, '0');
    match ts
    case Hours => ParseHh(a, hh);
    case Minutes => ParseHhMm(a, b, hh, mm);
    case Seconds => ParseHhMmSs(a, b, c, hh, mm, ss);
    case Milliseconds =>
      FractionParses(us, 3);
      ParseHhMmSsF(a, b, c, Lf(us, 3, '0'), hh, mm, ss, us);
    case Microseconds =>
      FractionParses(us, 6);
      ParseHhMmSsF(a, b, c, Lf(us, 6, '0'), hh, mm, ss, us);
  }

  /** The padded hour, minute and second are two digits each and read back. */
  lemma FieldsParse(hh: nat, mm: nat, ss: nat)
    requires hh <= 23 && mm <= 59 && ss <= 59
    ensures |Lf(hh, 2, '0')| == 2 && Stol(Lf(hh, 2, '0')) == Ok(hh)
    ensures |Lf(mm, 2, '0')| == 2 && Stol(Lf(mm, 2, '0')) == Ok(mm)
    ensures |Lf(ss, 2, '0')| == 2 && Stol(Lf(ss, 2, '0')) == Ok(ss)
  {
    TwoDigitFields(hh, mm, ss);
    PaddedParses(hh, 2);
    PaddedParses(mm, 2);
    PaddedParses(ss, 2);
  }

  /** The padded fraction has the width of its field and reads back. */
  lemma FractionParses(us: nat, w: nat)
    requires (w == 3 && us <= 999) || (w == 6 && us <= 999999)
    ensures |Lf(us, w, '0')| == w && Stol(Lf(us, w, '0')) == Ok(us)
  {
    assert Pow10(3) == 1000;
    assert Pow10(6) == 1000000;
    NatToStringShort(us, w);
    PaddedParses(us, w);
  }

  lemma ParseHh(a: string, hh: nat)
    requires |a| == 2 && Stol(a) == Ok(hh) && hh < UshortModulus
    ensures ParseTime(a) == Ok(Hmsf(hh, 0, 0, 0))
  {
    assert a[0..2] == a;
    LastComponent(a, 0, 0, [0, 0, 0, 0], hh);
    Updates(hh, 0, 0);
    ParseTimeOfComponents(a, [hh, 0, 0, 0], 2);
    FractionAtEnd(a, [hh, 0, 0, 0], hh, 0, 0);
  }

  lemma ParseHhMm(a: string, b: string, hh: nat, mm: nat)
    requires |a| == 2 && Stol(a) == Ok(hh) && hh < UshortModulus
    requires |b| == 2 && Stol(b) == Ok(mm) && mm < UshortModulus
    ensures ParseTime(a + ":" + b) == Ok(Hmsf(hh, mm, 0, 0))
  {
    var t := a + ":" + b;
    assert t[0..2] == a && t[2] == ':' && t[3..5] == b;
    ColonComponent(t, 0, 0, [0, 0, 0, 0], hh);
    LastComponent(t, 1, 3, [hh, 0, 0, 0], mm);
    Updates(hh, mm, 0);
    ParseTimeOfComponents(t, [hh, mm, 0, 0], 5);
    FractionAtEnd(t, [hh, mm, 0, 0], hh, mm, 0);
  }

  lemma ParseHhMmSs(a: string, b: string, c: string, hh: nat, mm: nat, ss: nat)
    requires |a| == 2 && Stol(a) == Ok(hh) && hh < UshortModulus
    requires |b| == 2 && Stol(b) == Ok(mm) && mm < UshortModulus
    requires |c| == 2 && Stol(c) == Ok(ss) && ss < UshortModulus
    ensures ParseTime(a + ":" + b + ":" + c) == Ok(Hmsf(hh, mm, ss, 0))
  {
    var t := a + ":" + b + ":" + c;
    assert t[..8] == t;
    TimeFields(t, a, b, c);
    ThreeComponents(t, hh, mm, ss);
    ParseTimeOfComponents(t, [hh, mm, ss, 0], 8);
    FractionAtEnd(t, [hh, mm, ss, 0], hh, mm, ss);
  }

  lemma ParseHhMmSsF(a: string, b: string, c: string, f: string, hh: nat, mm: nat, ss: nat, us: nat)
    requires |a| == 2 && Stol(a) == Ok(hh) && hh < UshortModulus
    requires |b| == 2 && Stol(b) == Ok(mm) && mm < UshortModulus
    requires |c| == 2 && Stol(c) == Ok(ss) && ss < UshortModulus
    requires (|f| == 3 || |f| == 6) && Stol(f) == Ok(us) && us <= 999999
    ensures ParseTime(a + ":" + b + ":" + c + "." + f) == Ok(Hmsf(hh, mm, ss, if |f| == 3 then us * 1000 else us))
  {
    var p := a + ":" + b + ":" + c;
    var t := p + "." + f;
    assert t[..8] == p && t[8] == '.' && t[9..] == f;
    TimeFields(t, a, b, c);
    ThreeComponents(t, hh, mm, ss);
    ParseTimeOfComponents(t, [hh, mm, ss, 0], 8);
    FractionDigits(t, 8, [hh, mm, ss, 0], us, hh, mm, ss);
  }

  /** The text after the components decides the result. */
  lemma ParseTimeOfComponents(t: string, comps: seq<nat>, pos: nat)
    requires Components(t, 0, 0, [0, 0, 0, 0]) == Ok((comps, pos))
    ensures |comps| == 4 && pos <= |t| && ParseTime(t) == Fraction(t, pos, comps)
  {
  }

  /** No fraction: the components narrowed to ushort. */
  lemma FractionAtEnd(t: string, comps: seq<nat>, hh: nat, mm: nat, ss: nat)
    requires comps == [hh, mm, ss, 0] && hh < UshortModulus && mm < UshortModulus && ss < UshortModulus
    ensures Fraction(t, |t|, comps) == Ok(Hmsf(hh, mm, ss, 0))
  {
    Narrow(hh, mm, ss);
  }

  /** A fraction of three digits counts milliseconds, one of six counts
      microseconds. */
  lemma FractionDigits(t: string, pos: nat, comps: seq<nat>, us: nat, hh: nat, mm: nat, ss: nat)
    requires pos < |t| && t[pos] == '.' && (|t| - pos - 1 == 3 || |t| - pos - 1 == 6)
    requires Stol(t[pos + 1..]) == Ok(us) && us <= 999999
    requires comps == [hh, mm, ss, 0] && hh < UshortModulus && mm < UshortModulus && ss < UshortModulus
    ensures Fraction(t, pos, comps) == Ok(Hmsf(hh, mm, ss, if |t| - pos - 1 == 3 then us * 1000 else us))
  {
    Narrow(hh, mm, ss);
    assert us % UintModulus == us;
    if |t| - pos - 1 == 3 {
      assert (us * 1000) % UintModulus == us * 1000;
    }
  }

  lemma Narrow(hh: nat, mm: nat, ss: nat)
    requires hh < UshortModulus && mm < UshortModulus && ss < UshortModulus
    ensures hh % UshortModulus == hh && mm % UshortModulus == mm && ss % UshortModulus == ss
  {
  }

  lemma TimeFields(t: string, a: string, b: string, c: string)
    requires |a| == 2 && |b| == 2 && |c| == 2 && |t| >= 8 && t[..8] == a + ":" + b + ":" + c
    ensures t[0..2] == a && t[2] == ':' && t[3..5] == b && t[5] == ':' && t[6..8] == c
  {
    assert t[0..2] == t[..8][0..2] && t[3..5] == t[..8][3..5] && t[6..8] == t[..8][6..8];
    assert t[2] == t[..8][2] && t[5] == t[..8][5];
  }

  /** One pass of the component loop that reads a field and goes on past
      a ':'. */
  lemma ColonComponent(t: string, comp: nat, pos: nat, comps: seq<nat>, v: nat)
    requires comp < 2 && pos + 2 < |t| && |comps| == 4 && t[pos + 2] == ':'
    requires Stol(t[pos..pos + 2]) == Ok(v) && v < UshortModulus
    ensures Components(t, comp, pos, comps) == Components(t, comp + 1, pos + 3, comps[comp := v])
  {
    assert v % UintModulus == v;
  }

  /** The last pass of the component loop: the text ends after the field,
      or the field is the seconds. */
  lemma LastComponent(t: string, comp: nat, pos: nat, comps: seq<nat>, v: nat)
    requires comp < 3 && pos + 2 <= |t| && |comps| == 4 && (pos + 2 == |t| || comp == 2)
    requires Stol(t[pos..pos + 2]) == Ok(v) && v < UshortModulus
    ensures Components(t, comp, pos, comps) == Ok((comps[comp := v], pos + 2))
  {
    assert v % UintModulus == v;
  }

  lemma ThreeComponents(t: string, hh: nat, mm: nat, ss: nat)
    requires |t| >= 8 && t[2] == ':' && t[5] == ':'
    requires Stol(t[0..2]) == Ok(hh) && Stol(t[3..5]) == Ok(mm) && Stol(t[6..8]) == Ok(ss)
    requires hh < UshortModulus && mm < UshortModulus && ss < UshortModulus
    ensures Components(t, 0, 0, [0, 0, 0, 0]) == Ok(([hh, mm, ss, 0], 8))
  {
    ColonComponent(t, 0, 0, [0, 0, 0, 0], hh);
    ColonComponent(t, 1, 3, [hh, 0, 0, 0], mm);
    LastComponent(t, 2, 6, [hh, mm, 0, 0], ss);
    Updates(hh, mm, ss);
  }

  lemma Updates(hh: nat, mm: nat, ss: nat)
    ensures [0, 0, 0, 0][0 := hh] == [hh, 0, 0, 0]
    ensures [hh, 0, 0, 0][1 := mm] == [hh, mm, 0, 0]
    ensures [hh, mm, 0, 0][2 := ss] == [hh, mm, ss, 0]
  {
  }

  /** The rounding step of _divide_and_round on a quotient and remainder:
      round up when twice the remainder passes the divisor (on the
      divisor's side), or equals it and the quotient is odd. */
  function RoundQuotient(q: int, r: int, b: int): int
    requires b != 0
  {
    var twice := r * 2;
    var greaterThanHalf := if b > 0 then twice > b else twice < b;
    if greaterThanHalf || (twice == b && Mod(q, 2) == 1) then q + 1 else q
  }

  /** _divide_and_round as written, on top of _div_mod. */
  function DivideAndRound(a: int, b: int): int
    requires b != 0
  {
    var (q, r) := DivMod(a, b);
    RoundQuotient(q, r, b)
  }

  /** _divide_and_round on the floor quotient and remainder, as intended. */
  function DivideAndRoundIntended(a: int, b: int): int
    requires b != 0
  {
    var (q, r) := FloorDivMod(a, b);
    RoundQuotient(q, r, b)
  }

  /** a / b rounded to the nearest integer, ties to the even one. */
  predicate NearestEven(a: int, b: int, q: int)
    requires b != 0
  {
    2 * Abs(a - b * q) <= Abs(b) && (2 * Abs(a - b * q) == Abs(b) ==> q % 2 == 0)
  }

  /** The intended _divide_and_round rounds half to even. */
  lemma DivideAndRoundIntendedIsNearestEven(a: int, b: int)
    requires b != 0
    ensures NearestEven(a, b, DivideAndRoundIntended(a, b))
  {
    var (q, r) := FloorDivMod(a, b);
    RoundsToNearestEven(a, b, q, r);
  }

  /** The rounding step applied to a floor quotient and remainder. */
  lemma RoundsToNearestEven(a: int, b: int, q: int, r: int)
    requires b != 0 && a == q * b + r
    requires b > 0 ==> 0 <= r < b
    requires b < 0 ==> b < r <= 0
    ensures NearestEven(a, b, RoundQuotient(q, r, b))
  {
    var q' := RoundQuotient(q, r, b);
    RoundingError(q, r, b);
    if q' == q {
      NearestEvenByError(a, b, q', r);
    } else {
      assert b * q' == b * q + b;
      NearestEvenByError(a, b, q', r - b);
    }
  }

  /** The error left by the rounding step: the remainder when it keeps q,
      the remainder less b when it moves up, and at most half of b either
      way, with ties on the even quotient. */
  lemma RoundingError(q: int, r: int, b: int)
    requires b > 0 ==> 0 <= r < b
    requires b < 0 ==> b < r <= 0
    requires b != 0
    ensures RoundQuotient(q, r, b) == q || RoundQuotient(q, r, b) == q + 1
    ensures RoundQuotient(q, r, b) == q ==>
      2 * Abs(r) <= Abs(b) && (2 * Abs(r) == Abs(b) ==> q % 2 == 0)
    ensures RoundQuotient(q, r, b) == q + 1 ==>
      2 * Abs(r - b) <= Abs(b) && (2 * Abs(r - b) == Abs(b) ==> (q + 1) % 2 == 0)
  {
    ModIsRemainder(q, 2);
  }

  /** Rounding half to even, judged by the error a - b * q. */
  lemma NearestEvenByError(a: int, b: int, q: int, e: int)
    requires b != 0 && a - b * q == e
    requires 2 * Abs(e) <= Abs(b) && (2 * Abs(e) == Abs(b) ==> q % 2 == 0)
    ensures NearestEven(a, b, q)
  {
  }

  /** At most one quotient rounds half to even. */
  lemma NearestEvenUnique(a: int, b: int, q: int, q': int)
    requires b != 0 && NearestEven(a, b, q) && NearestEven(a, b, q')
    ensures q == q'
  {
    if q < q' {
      NearestEvenApart(a, b, q, q');
    } else if q' < q {
      NearestEvenApart(a, b, q', q);
    }
  }

  lemma NearestEvenApart(a: int, b: int, q: int, q': int)
    requires b != 0 && q < q'
    ensures !(NearestEven(a, b, q) && NearestEven(a, b, q'))
  {
    var e, e' := a - b * q, a - b * q';
    assert e - e' == b * (q' - q);
    MulAtLeast(Abs(b), q' - q);
    assert Abs(b) * (q' - q) == Abs(e - e');
  }

  /** Where _true_div already floors, the division as written rounds half
      to even. */
  lemma DivideAndRoundAgrees(a: int, b: int)
    requires b != 0
    requires (a == 0 || (a > 0) == (b > 0)) || (CDiv(a, b) < 0 && CRem(a, b) != 0)
    ensures DivideAndRound(a, b) == DivideAndRoundIntended(a, b)
    ensures NearestEven(a, b, DivideAndRound(a, b))
  {
    TrueDivAgreesWithFloor(a, b);
    DivideAndRoundIntendedIsNearestEven(a, b);
  }

  /** _divide_and_round(-8, 4) is -3 and _divide_and_round(-1, 4) is 1: the
      exact and the small negative quotients of _true_div shift the result. */
  lemma DivideAndRoundNegativeQuotients()
    ensures DivideAndRound(-8, 4) == -3 && DivideAndRoundIntended(-8, 4) == -2
    ensures DivideAndRound(-1, 4) == 1 && DivideAndRoundIntended(-1, 4) == 0
    ensures !NearestEven(-8, 4, -3) && !NearestEven(-1, 4, 1)
  {
    DivModOfMinusEight();
    DivModOfMinusOne();
    assert RoundQuotient(-3, 0, 4) == -3 && RoundQuotient(-2, 0, 4) == -2;
    assert RoundQuotient(0, 3, 4) == 1 && RoundQuotient(-1, 3, 4) == 0;
  }

  lemma DivModOfMinusEight()
    ensures DivMod(-8, 4) == (-3, 0) && FloorDivMod(-8, 4) == (-2, 0)
  {
    assert CDiv(-8, 4) == -2;
    ModIsRemainder(-8, 4);
    FloorDivUnique(-8, 4, -2, 0);
  }

  lemma DivModOfMinusOne()
    ensures DivMod(-1, 4) == (0, 3) && FloorDivMod(-1, 4) == (-1, 3)
  {
    assert CDiv(-1, 4) == 0;
    ModIsRemainder(-1, 4);
    FloorDivUnique(-1, 4, -1, 3);
  }
}
