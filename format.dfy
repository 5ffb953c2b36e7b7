/**
 * The pure formatting and calendar helpers of src/utils/format.ts:
 * video durations as `m:ss`, local day keys `YYYY-MM-DD`, the key of the
 * previous calendar day, and the streak label.
 */
module Format {
  import opened Wrappers

  // ---------------------------------------------------------------------------
  // Decimal digits: `${n}` and `Number(s)`
  // ---------------------------------------------------------------------------

  predicate IsDigit(c: char) {
    '0' <= c <= '9'
  }

  predicate AllDigits(s: string) {
    forall i :: 0 <= i < |s| ==> IsDigit(s[i])
  }

  function DigitValue(c: char): nat
    requires IsDigit(c)
  {
    c as int - '0' as int
  }

  function DigitChar(d: nat): (c: char)
    requires d < 10
    ensures IsDigit(c) && DigitValue(c) == d
  {
    ('0' as int + d) as char
  }

  /** The value of a string of decimal digits, most significant digit first. */
  function DecimalValue(s: string): nat
    requires AllDigits(s)
  {
    if |s| == 0 then 0 else DecimalValue(s[..|s| - 1]) * 10 + DigitValue(s[|s| - 1])
  }

  /** `${n}` for a whole number n: its decimal digits, without leading zeros. */
  function DecimalString(n: nat): (s: string)
    ensures |s| >= 1 && AllDigits(s)
    ensures (s[0] == '0') == (n == 0)
    ensures n < 10 ==> |s| == 1
    ensures 10 <= n < 100 ==> |s| == 2
  {
    if n < 10 then [DigitChar(n)] else DecimalString(n / 10) + [DigitChar(n % 10)]
  }

  /** Reading back what `${n}` printed gives n. */
  lemma {:induction false} DecimalRoundTrip(n: nat)
    ensures DecimalValue(DecimalString(n)) == n
  {
    if n >= 10 {
      var s := DecimalString(n);
      assert s[..|s| - 1] == DecimalString(n / 10);
      DecimalRoundTrip(n / 10);
    }
  }

  lemma {:induction false} LeadingDigitPositive(s: string)
    requires |s| >= 1 && AllDigits(s) && s[0] != '0'
    ensures DecimalValue(s) >= 1
  {
    if |s| > 1 {
      LeadingDigitPositive(s[..|s| - 1]);
    }
  }

  /** Conversely, printing the value of a canonical digit string gives the string back. */
  lemma {:induction false} DecimalStringOfValue(s: string)
    requires |s| >= 1 && AllDigits(s)
    requires s[0] == '0' ==> s == "0"
    ensures DecimalString(DecimalValue(s)) == s
  {
    if |s| > 1 {
      var t := s[..|s| - 1];
      LeadingDigitPositive(t);
      DecimalStringOfValue(t);
      var n := DecimalValue(s);
      assert n / 10 == DecimalValue(t) && n % 10 == DigitValue(s[|s| - 1]);
      assert DigitChar(n % 10) == s[|s| - 1];
      assert s == t + [s[|s| - 1]];
    } else {
      assert DigitChar(DigitValue(s[0])) == s[0];
    }
  }

  /** A leading '0' does not change the value of a digit string. */
  lemma {:induction false} LeadingZero(s: string)
    requires AllDigits(s)
    ensures AllDigits("0" + s) && DecimalValue("0" + s) == DecimalValue(s)
  {
    if |s| > 0 {
      var z := "0" + s;
      assert z[..|z| - 1] == "0" + s[..|s| - 1];
      LeadingZero(s[..|s| - 1]);
    }
  }

  /** `s.padStart(2, '0')`. */
  function PadStart2(s: string): (r: string)
    ensures |r| == if |s| < 2 then 2 else |s|
    ensures AllDigits(s) ==> AllDigits(r) && DecimalValue(r) == DecimalValue(s)
  {
    if |s| >= 2 then s
    else if |s| == 1 then (if AllDigits(s) then LeadingZero(s); "0" + s else "0" + s)
    else "00"
  }

  /** `padStart` keeps the string as its suffix and fills only with '0'. */
  lemma PadStart2Shape(s: string)
    ensures var r := PadStart2(s);
      r[|r| - |s|..] == s && forall i :: 0 <= i < |r| - |s| ==> r[i] == '0'
  {
  }

  // ---------------------------------------------------------------------------
  // formatDuration
  // ---------------------------------------------------------------------------

  /** A JavaScript number as these helpers see it: finite, or NaN / an infinity. */
  datatype JsNumber = Finite(value: real) | NonFinite

  /** The whole seconds `formatDuration` shows: the floor of the input, clamped at zero. */
  function WholeSeconds(seconds: JsNumber): nat
  {
    match seconds
    case NonFinite => 0
    case Finite(v) => if v.Floor < 0 then 0 else v.Floor
  }

  /**
   * The template `${mins}:${secs.padStart(2, '0')}` for a whole number of
   * seconds: minutes, a colon and exactly two digits of seconds, which read
   * back as the minutes-and-seconds split of the total.
   */
  function MinutesSeconds(totalSeconds: nat): (r: string)
    ensures |r| >= 4 && r[|r| - 3] == ':'
    ensures AllDigits(r[..|r| - 3]) && AllDigits(r[|r| - 2..])
    ensures DecimalValue(r[|r| - 2..]) < 60
    ensures DecimalValue(r[..|r| - 3]) * 60 + DecimalValue(r[|r| - 2..]) == totalSeconds
    ensures r[0] == '0' ==> r[..|r| - 3] == "0"
  {
    var mins := totalSeconds / 60;
    var secs := totalSeconds % 60;
    var minsText := DecimalString(mins);
    var secsText := PadStart2(DecimalString(secs));
    DecimalRoundTrip(mins);
    DecimalRoundTrip(secs);
    TemplateSlices(minsText, secsText);
    assert mins == 0 ==> minsText == "0";
    minsText + ":" + secsText
  }

  /** The fields of `${a}:${b}` for a two-character b can be sliced back out. */
  lemma TemplateSlices(a: string, b: string)
    requires |a| >= 1 && |b| == 2
    ensures var r := a + ":" + b;
      && |r| == |a| + 3 && r[|r| - 3] == ':' && r[0] == a[0]
      && r[..|r| - 3] == a && r[|r| - 2..] == b
  {
  }

  /** No seconds print as "0:00". */
  lemma MinutesSecondsZero()
    ensures MinutesSeconds(0) == "0:00"
  {
    assert DecimalString(0) == "0" && PadStart2("0") == "00";
  }

  /**
   * `formatDuration`: "0:00" (the template for 0) for NaN and the
   * infinities, otherwise the template for the floor of the input clamped at
   * zero; so the fields split WholeSeconds, and zero or negative input shows
   * "0:00".
   */
  function FormatDuration(seconds: JsNumber): (r: string)
    ensures |r| >= 4 && r[|r| - 3] == ':'
    ensures AllDigits(r[..|r| - 3]) && AllDigits(r[|r| - 2..])
    ensures DecimalValue(r[|r| - 2..]) < 60
    ensures DecimalValue(r[..|r| - 3]) * 60 + DecimalValue(r[|r| - 2..]) == WholeSeconds(seconds)
    ensures r[0] == '0' ==> r[..|r| - 3] == "0"
    ensures WholeSeconds(seconds) == 0 ==> r == "0:00"
  {
    MinutesSecondsZero();
    if seconds.NonFinite? then MinutesSeconds(0)
    else
      var totalSeconds := if seconds.value.Floor < 0 then 0 else seconds.value.Floor;
      MinutesSeconds(totalSeconds)
  }

  // ---------------------------------------------------------------------------
  // Calendar dates
  // ---------------------------------------------------------------------------

  /** A date as a JavaScript `Date` reports it in local time: full year, 0-based month, day of the month. */
  datatype LocalDate = LocalDate(year: nat, monthIndex: nat, day: nat)

  predicate IsLeapYear(year: nat) {
    year % 4 == 0 && (year % 100 != 0 || year % 400 == 0)
  }

  function DaysInMonth(year: nat, monthIndex: nat): (n: nat)
    requires monthIndex < 12
    ensures 28 <= n <= 31
  {
    if monthIndex == 1 then (if IsLeapYear(year) then 29 else 28)
    else if monthIndex == 3 || monthIndex == 5 || monthIndex == 8 || monthIndex == 10 then 30
    else 31
  }

  predicate ValidDate(d: LocalDate) {
    d.monthIndex < 12 && 1 <= d.day <= DaysInMonth(d.year, d.monthIndex)
  }

  /** 1 January of year 0: the one valid date of the model without a predecessor. */
  predicate IsFirstDay(d: LocalDate) {
    d.year == 0 && d.monthIndex == 0 && d.day == 1
  }

  /** Calendar order: a is an earlier date than b. */
  predicate Before(a: LocalDate, b: LocalDate) {
    || a.year < b.year
    || (a.year == b.year && a.monthIndex < b.monthIndex)
    || (a.year == b.year && a.monthIndex == b.monthIndex && a.day < b.day)
  }

  /** The following calendar day: the earliest valid date after d. */
  function NextDate(d: LocalDate): (r: LocalDate)
    requires ValidDate(d)
    ensures ValidDate(r) && !IsFirstDay(r) && Before(d, r)
    ensures forall c :: ValidDate(c) && Before(d, c) ==> c == r || Before(r, c)
  {
    if d.day < DaysInMonth(d.year, d.monthIndex) then d.(day := d.day + 1)
    else if d.monthIndex < 11 then LocalDate(d.year, d.monthIndex + 1, 1)
    else LocalDate(d.year + 1, 0, 1)
  }

  /**
   * The previous calendar day (what `setDate(getDate() - 1)` does): back one day
   * in the month, or to the last day of the previous month, or to 31 December.
   */
  function PrevDate(d: LocalDate): (r: LocalDate)
    requires ValidDate(d) && !IsFirstDay(d)
    ensures ValidDate(r) && NextDate(r) == d
  {
    if d.day > 1 then d.(day := d.day - 1)
    else if d.monthIndex > 0 then LocalDate(d.year, d.monthIndex - 1, DaysInMonth(d.year, d.monthIndex - 1))
    else LocalDate(d.year - 1, 11, 31)
  }

  /** Going forward a day and back again is the identity. */
  lemma PrevOfNext(d: LocalDate)
    requires ValidDate(d)
    ensures PrevDate(NextDate(d)) == d
  {
  }

  /** 1 March's predecessor is 29 February exactly in leap years. */
  lemma PrevOfFirstOfMarch(year: nat)
    ensures PrevDate(LocalDate(year, 2, 1)) == LocalDate(year, 1, if IsLeapYear(year) then 29 else 28)
  {
  }

  // ---------------------------------------------------------------------------
  // Day keys: getLocalDayKey, the split of a key, getYesterdayKey
  // ---------------------------------------------------------------------------

  /**
   * The shape of a day key: digits, '-', two digits, '-', two digits, reading
   * as the given year, month and day.
   */
  predicate KeyShape(key: string, year: nat, month: nat, day: nat) {
    var n := |key|;
    && n >= 7 && key[n - 6] == '-' && key[n - 3] == '-'
    && AllDigits(key[..n - 6]) && AllDigits(key[n - 5..n - 3]) && AllDigits(key[n - 2..])
    && DecimalValue(key[..n - 6]) == year
    && DecimalValue(key[n - 5..n - 3]) == month
    && DecimalValue(key[n - 2..]) == day
  }

  lemma KeyPrefix(a: string, b: string, c: string)
    requires |b| == 2 && |c| == 2
    ensures var key := a + "-" + b + "-" + c; key[..|key| - 6] == a && key[|key| - 6] == '-'
  {
  }

  lemma KeyMonth(a: string, b: string, c: string)
    requires |b| == 2 && |c| == 2
    ensures var key := a + "-" + b + "-" + c; key[|key| - 5..|key| - 3] == b && key[|key| - 3] == '-'
  {
  }

  lemma KeyDay(a: string, b: string, c: string)
    requires |b| == 2 && |c| == 2
    ensures var key := a + "-" + b + "-" + c; key[|key| - 2..] == c
  {
  }

  lemma KeySlices(a: string, b: string, c: string)
    requires |a| >= 1 && AllDigits(a) && AllDigits(b) && AllDigits(c) && |b| == 2 && |c| == 2
    ensures KeyShape(a + "-" + b + "-" + c, DecimalValue(a), DecimalValue(b), DecimalValue(c))
  {
    var key := a + "-" + b + "-" + c;
    KeyPrefix(a, b, c);
    KeyMonth(a, b, c);
    KeyDay(a, b, c);
    var n := |key|;
    var p, q, r := key[..n - 6], key[n - 5..n - 3], key[n - 2..];
    assert p == a && q == b && r == c;
  }

  /** `getLocalDayKey(date)`: the year, then the 1-based month and the day, each padded to two digits. */
  function DayKey(d: LocalDate): string
  {
    DecimalString(d.year) + "-" + PadStart2(DecimalString(d.monthIndex + 1)) + "-" + PadStart2(DecimalString(d.day))
  }

  /** A day key is `year-MM-DD`: the year in digits, then exactly two digits each of 1-based month and day. */
  lemma DayKeyFormat(d: LocalDate)
    requires ValidDate(d)
    ensures KeyShape(DayKey(d), d.year, d.monthIndex + 1, d.day)
  {
    DecimalRoundTrip(d.year);
    DecimalRoundTrip(d.monthIndex + 1);
    DecimalRoundTrip(d.day);
    KeySlices(DecimalString(d.year), PadStart2(DecimalString(d.monthIndex + 1)), PadStart2(DecimalString(d.day)));
  }

  /** The parts of `s.split('-')` put back together with '-' between them. */
  function Join(parts: seq<string>): string
    requires |parts| >= 1
  {
    if |parts| == 1 then parts[0] else parts[0] + "-" + Join(parts[1..])
  }

  /** `s.split('-')`: the maximal '-'-free pieces of s, which joined with '-' give s back. */
  function Split(s: string): (parts: seq<string>)
    ensures |parts| >= 1
    ensures forall i :: 0 <= i < |parts| ==> '-' !in parts[i]
    ensures Join(parts) == s
  {
    if |s| == 0 then [""]
    else
      var rest := Split(s[1..]);
      if s[0] == '-' then
        assert s == "-" + s[1..];
        [""] + rest
      else
        var parts := [[s[0]] + rest[0]] + rest[1..];
        assert parts[1..] == rest[1..];
        assert s == [s[0]] + s[1..];
        parts
  }

  lemma {:induction false} SplitWithoutSeparator(a: string)
    requires '-' !in a
    ensures Split(a) == [a]
  {
    if |a| > 0 {
      assert '-' !in a[1..];
      SplitWithoutSeparator(a[1..]);
      assert [a[0]] + a[1..] == a;
    }
  }

  lemma {:induction false} SplitAfterFirstPart(a: string, b: string)
    requires '-' !in a
    ensures Split(a + "-" + b) == [a] + Split(b)
  {
    var s := a + "-" + b;
    if |a| == 0 {
      assert s[1..] == b;
    } else {
      assert s[1..] == a[1..] + "-" + b;
      assert '-' !in a[1..];
      SplitAfterFirstPart(a[1..], b);
      assert [a[0]] + a[1..] == a;
    }
  }

  /** Splitting recovers the '-'-free parts that were joined. */
  lemma {:induction false} SplitOfJoin(parts: seq<string>)
    requires |parts| >= 1
    requires forall i :: 0 <= i < |parts| ==> '-' !in parts[i]
    ensures Split(Join(parts)) == parts
  {
    if |parts| == 1 {
      SplitWithoutSeparator(parts[0]);
    } else {
      SplitOfJoin(parts[1..]);
      SplitAfterFirstPart(parts[0], Join(parts[1..]));
      assert [parts[0]] + parts[1..] == parts;
    }
  }

  lemma DigitsHaveNoSeparator(s: string)
    requires AllDigits(s)
    ensures '-' !in s
  {
    forall i | 0 <= i < |s| ensures s[i] != '-' {
      assert IsDigit(s[i]);
    }
  }

  /** `Number(part)` for the parts of a key: digits read as their value, the empty string as 0, anything else as NaN (None). */
  function ParseNumber(part: string): Option<nat>
  {
    if AllDigits(part) then Some(DecimalValue(part)) else None
  }

  /** `const [year, month, day] = key.split('-').map(Number)`, with a missing month or day read as 1. */
  function KeyFields(key: string): Option<(nat, nat, nat)>
  {
    var parts := Split(key);
    var year := ParseNumber(parts[0]);
    var month := if |parts| > 1 then ParseNumber(parts[1]) else Some(1);
    var day := if |parts| > 2 then ParseNumber(parts[2]) else Some(1);
    if year.Some? && month.Some? && day.Some? then Some((year.value, month.value, day.value)) else None
  }

  lemma JoinThree(a: string, b: string, c: string)
    ensures Join([a, b, c]) == a + "-" + b + "-" + c
  {
    assert [a, b, c][1..] == [b, c];
    assert [b, c][1..] == [c];
    assert Join([b, c]) == b + "-" + c;
    assert Join([a, b, c]) == a + "-" + (b + "-" + c);
  }

  lemma ParseDigits(s: string)
    requires AllDigits(s)
    ensures ParseNumber(s) == Some(DecimalValue(s))
  {
  }

  /** Splitting a day key recovers the year, the 1-based month and the day it was built from. */
  lemma DayKeyFields(d: LocalDate)
    requires ValidDate(d)
    ensures KeyFields(DayKey(d)) == Some((d.year, d.monthIndex + 1, d.day))
  {
    var yearText := DecimalString(d.year);
    var monthText := PadStart2(DecimalString(d.monthIndex + 1));
    var dayText := PadStart2(DecimalString(d.day));
    DecimalRoundTrip(d.year);
    DecimalRoundTrip(d.monthIndex + 1);
    DecimalRoundTrip(d.day);
    DigitsHaveNoSeparator(yearText);
    DigitsHaveNoSeparator(monthText);
    DigitsHaveNoSeparator(dayText);
    var parts := [yearText, monthText, dayText];
    JoinThree(yearText, monthText, dayText);
    assert Join(parts) == DayKey(d);
    SplitOfJoin(parts);
    assert Split(DayKey(d)) == parts;
    ParseDigits(yearText);
    ParseDigits(monthText);
    ParseDigits(dayText);
  }

  /** Distinct valid dates have distinct day keys. */
  lemma DayKeyInjective(a: LocalDate, b: LocalDate)
    requires ValidDate(a) && ValidDate(b) && a != b
    ensures DayKey(a) != DayKey(b)
  {
    DayKeyFields(a);
    DayKeyFields(b);
  }

  /**
   * The date `getYesterdayKey` builds from the fields of a key, as the intended
   * calendar date: None when the fields do not name a valid date.
   */
  function KeyDate(fields: (nat, nat, nat)): Option<LocalDate>
  {
    var (year, month, day) := fields;
    if month == 0 then None
    else if ValidDate(LocalDate(year, month - 1, day)) then Some(LocalDate(year, month - 1, day))
    else None
  }

  /**
   * `getYesterdayKey(todayKey)`, as intended: the key of the calendar day before
   * the date the key names. None when the key does not name a valid date.
   */
  function YesterdayKey(todayKey: string): Option<string>
  {
    match KeyFields(todayKey)
    case None => None
    case Some(fields) =>
      match KeyDate(fields)
      case None => None
      case Some(d) => if IsFirstDay(d) then None else Some(DayKey(PrevDate(d)))
  }

  /** The yesterday of a day key is the day key of the previous calendar day. */
  lemma YesterdayOfDayKey(d: LocalDate)
    requires ValidDate(d) && !IsFirstDay(d)
    ensures YesterdayKey(DayKey(d)) == Some(DayKey(PrevDate(d)))
  {
    DayKeyFields(d);
  }

  /** The yesterday of today's key: the previous day's key, or None on the first day of the model. */
  lemma YesterdayKeyOfToday(today: LocalDate)
    requires ValidDate(today)
    ensures YesterdayKey(DayKey(today)) == if IsFirstDay(today) then None else Some(DayKey(PrevDate(today)))
  {
    DayKeyFields(today);
  }

  /**
   * `getYesterdayKey` as written: `new Date(year, month - 1, day)` reads a year
   * from 0 to 99 as 1900 plus that year, so the key of such a date gets a
   * yesterday in the twentieth century.
   */
  function YesterdayKeyAsWritten(todayKey: string): Option<string>
  {
    match KeyFields(todayKey)
    case None => None
    case Some((year, month, day)) =>
      var fullYear := if year <= 99 then year + 1900 else year;
      match KeyDate((fullYear, month, day))
      case None => None
      case Some(d) => if IsFirstDay(d) then None else Some(DayKey(PrevDate(d)))
  }

  /** The two agree on every key whose year is at least 100. */
  lemma YesterdayAsWrittenAgreesFrom100(todayKey: string)
    requires KeyFields(todayKey).Some? && KeyFields(todayKey).value.0 >= 100
    ensures YesterdayKeyAsWritten(todayKey) == YesterdayKey(todayKey)
  {
  }

  /** On 2 January of year 50 the intended yesterday is 1 January of year 50 ... */
  lemma YesterdayOfYear50()
    ensures YesterdayKey(DayKey(LocalDate(50, 0, 2))) == Some(DayKey(LocalDate(50, 0, 1)))
  {
    YesterdayOfDayKey(LocalDate(50, 0, 2));
  }

  /** ... while the code as written answers 1 January 1950, a different key. */
  lemma TwoDigitYearShift()
    ensures YesterdayKeyAsWritten(DayKey(LocalDate(50, 0, 2))) == Some(DayKey(LocalDate(1950, 0, 1)))
    ensures YesterdayKeyAsWritten(DayKey(LocalDate(50, 0, 2))) != YesterdayKey(DayKey(LocalDate(50, 0, 2)))
  {
    var key := DayKey(LocalDate(50, 0, 2));
    DayKeyFields(LocalDate(50, 0, 2));
    assert KeyFields(key) == Some((50, 1, 2));
    assert KeyDate((1950, 1, 2)) == Some(LocalDate(1950, 0, 2));
    assert PrevDate(LocalDate(1950, 0, 2)) == LocalDate(1950, 0, 1);
    YesterdayOfYear50();
    DayKeyInjective(LocalDate(1950, 0, 1), LocalDate(50, 0, 1));
  }

  // ---------------------------------------------------------------------------
  // formatStreak
  // ---------------------------------------------------------------------------

  const STREAK_SUFFIX := "-day streak"

  /** `formatStreak(count)`: a placeholder for no streak, otherwise the count followed by "-day streak". */
  function FormatStreak(count: int): (r: string)
    ensures count <= 0 ==> r == "No streak yet"
    ensures count >= 1 ==>
      && |r| > |STREAK_SUFFIX| && r[|r| - |STREAK_SUFFIX|..] == STREAK_SUFFIX
      && var digits := r[..|r| - |STREAK_SUFFIX|];
         AllDigits(digits) && digits == DecimalString(count) && DecimalValue(digits) == count
  {
    if count <= 0 then "No streak yet"
    else if count == 1 then
      assert DecimalString(1) == "1";
      "1-day streak"
    else
      DecimalRoundTrip(count);
      var r := DecimalString(count) + STREAK_SUFFIX;
      assert r[..|r| - |STREAK_SUFFIX|] == DecimalString(count);
      r
  }
}
