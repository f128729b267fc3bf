/** Unix milliseconds to UTC calendar dates, and their ISO 8601 text. */
module Calendar {
  import opened Text
  import opened Ascii
  import opened Decimal

  datatype DateTime = DateTime(year: nat, month: nat, day: nat, hours: nat, minutes: nat, seconds: nat)

  predicate IsLeapYear(year: nat) {
    if year % 4 == 0 then (if year % 100 == 0 then year % 400 == 0 else true) else false
  }

  function DaysInMonth(year: nat, month: nat): nat {
    match month
    case 1 => 31
    case 2 => if IsLeapYear(year) then 29 else 28
    case 3 => 31
    case 4 => 30
    case 5 => 31
    case 6 => 30
    case 7 => 31
    case 8 => 31
    case 9 => 30
    case 10 => 31
    case 11 => 30
    case 12 => 31
    case _ => 0
  }

  /** One month carried out of the day count. */
  function CarryMonth(d: DateTime): DateTime
    requires d.day > DaysInMonth(d.year, d.month)
  {
    d.(year := if d.month == 12 then d.year + 1 else d.year,
       month := if d.month == 12 then 1 else d.month + 1,
       day := d.day - DaysInMonth(d.year, d.month))
  }

  /** Where the recursion ends: no month after December, unless there is no day
      to carry. */
  predicate Terminates(d: DateTime) {
    d.month <= 12 || d.day == 0
  }

  function NormalizeDate(d: DateTime): DateTime
    requires Terminates(d)
    decreases d.day, 12 - d.month
  {
    if d.day > DaysInMonth(d.year, d.month) then NormalizeDate(CarryMonth(d)) else d
  }

  /** All the days since the epoch, in the epoch's own month. */
  function EpochStart(millis: nat): (d: DateTime)
    ensures d.month == 1
  {
    var seconds := millis / 1000;
    var minutes := seconds / 60;
    var hours := minutes / 60;
    DateTime(1970, 1, 1 + hours / 24, hours % 24, minutes % 60, seconds % 60)
  }

  function EpochMillisToDateTime(millis: nat): DateTime {
    NormalizeDate(EpochStart(millis))
  }

  function YearWithPaddedZeros(year: nat): Str {
    var text := DecimalStr(year);
    if year < 10 then [48, 48, 48] + text
    else if year < 100 then [48, 48] + text
    else if year < 1000 then [48] + text
    else text
  }

  function TwoDigits(value: nat): Str {
    if value < 10 then [48] + DecimalStr(value) else DecimalStr(value)
  }

  function ToIso8601(d: DateTime): Str {
    YearWithPaddedZeros(d.year) + [MINUS] + TwoDigits(d.month) + [MINUS] + TwoDigits(d.day) + [84]
    + TwoDigits(d.hours) + [COLON] + TwoDigits(d.minutes) + [COLON] + TwoDigits(d.seconds) + [90]
  }

  // ----- The Gregorian calendar, counted in days -----

  /** Leap years from year 1 through year `y`, by the rule stated as counts. */
  function LeapsThrough(y: nat): int {
    y / 4 - y / 100 + y / 400
  }

  /** Days before the first of January of `year`, from that of year 1. */
  function DaysBeforeYear(year: nat): int
    requires year >= 1
  {
    365 * (year - 1) + LeapsThrough(year - 1)
  }

  /** Days before the first of `month` in a common year. */
  function CommonDaysBefore(month: nat): nat
    requires 1 <= month <= 12
  {
    [0, 31, 59, 90, 120, 151, 181, 212, 243, 273, 304, 334][month - 1]
  }

  function DaysBeforeMonth(year: nat, month: nat): nat
    requires 1 <= month <= 12
  {
    CommonDaysBefore(month) + if month > 2 && IsLeapYear(year) then 1 else 0
  }

  /** Days from 1970-01-01. The day of the month may run past its month. */
  function DayNumber(year: nat, month: nat, day: nat): int
    requires year >= 1 && 1 <= month <= 12
  {
    DaysBeforeYear(year) - 719162 + DaysBeforeMonth(year, month) + day - 1
  }

  /** A date of the calendar and a time of day (section 5.7 of RFC 3339, with
      no leap second). */
  predicate Valid(d: DateTime) {
    && d.year >= 1 && 1 <= d.month <= 12 && 1 <= d.day <= DaysInMonth(d.year, d.month)
    && d.hours < 24 && d.minutes < 60 && d.seconds < 60
  }

  /** Seconds from the epoch. */
  function EpochSeconds(d: DateTime): int
    requires d.year >= 1 && 1 <= d.month <= 12
  {
    DayNumber(d.year, d.month, d.day) * 86400 + d.hours * 3600 + d.minutes * 60 + d.seconds
  }

  predicate TimeEarlier(a: DateTime, b: DateTime) {
    || a.hours < b.hours
    || (a.hours == b.hours && a.minutes < b.minutes)
    || (a.hours == b.hours && a.minutes == b.minutes && a.seconds < b.seconds)
  }

  /** Earlier by field, the year first. */
  predicate Earlier(a: DateTime, b: DateTime) {
    || a.year < b.year
    || (a.year == b.year && a.month < b.month)
    || (a.year == b.year && a.month == b.month && a.day < b.day)
    || (a.year == b.year && a.month == b.month && a.day == b.day && TimeEarlier(a, b))
  }

  // ----- Counting -----

  lemma NoSmallMultiple(d: int, n: int)
    requires n >= 0
    ensures d >= 1 ==> d * n >= n
    ensures d <= -1 ==> d * n <= -n
  {
    if d >= 1 { assert (d - 1) * n >= 0; }
    if d <= -1 { assert (-d - 1) * n >= 0; }
  }

  lemma DivMod(y: int, n: nat, q: int, r: nat)
    requires r < n && y == q * n + r
    ensures y / n == q && y % n == r
  {
    var d := y / n - q;
    assert d * n == r - y % n;
    NoSmallMultiple(d, n);
  }

  /** The quotient steps exactly on a multiple. */
  lemma QuotientStep(y: nat, n: nat)
    requires y >= 1 && n >= 1
    ensures y / n - (y - 1) / n == if y % n == 0 then 1 else 0
  {
    var q, r := y / n, y % n;
    assert y == q * n + r;
    if r == 0 {
      assert y - 1 == (q - 1) * n + (n - 1);
      DivMod(y - 1, n, q - 1, n - 1);
    } else {
      DivMod(y - 1, n, q, r - 1);
    }
  }

  lemma Multiples(y: nat)
    ensures y % 100 == 0 ==> y % 4 == 0
    ensures y % 400 == 0 ==> y % 100 == 0
  {
    if y % 100 == 0 { DivMod(y, 4, 25 * (y / 100), 0); }
    if y % 400 == 0 { DivMod(y, 100, 4 * (y / 400), 0); }
  }

  /** The counting rule and the divisibility rule agree on every year. */
  lemma LeapStep(y: nat)
    requires y >= 1
    ensures LeapsThrough(y) - LeapsThrough(y - 1) == if IsLeapYear(y) then 1 else 0
  {
    QuotientStep(y, 4);
    QuotientStep(y, 100);
    QuotientStep(y, 400);
    Multiples(y);
  }

  lemma NextMonth(year: nat, month: nat)
    requires 1 <= month < 12
    ensures DaysBeforeMonth(year, month + 1) == DaysBeforeMonth(year, month) + DaysInMonth(year, month)
  {
  }

  lemma NextYear(year: nat)
    requires year >= 1
    ensures DaysBeforeYear(year + 1) == DaysBeforeYear(year) + DaysBeforeMonth(year, 12) + 31
  {
    LeapStep(year);
  }

  /** Carrying a month out of the day conserves the day count. */
  lemma CarryConserves(d: DateTime)
    requires d.year >= 1 && 1 <= d.month <= 12 && d.day > DaysInMonth(d.year, d.month)
    ensures var c := CarryMonth(d);
            DayNumber(c.year, c.month, c.day) == DayNumber(d.year, d.month, d.day)
  {
    if d.month == 12 { NextYear(d.year); } else { NextMonth(d.year, d.month); }
  }

  lemma {:induction false} NormalizeMeans(d: DateTime)
    requires d.year >= 1 && 1 <= d.month <= 12 && d.day >= 1
    ensures var n := NormalizeDate(d);
            && n.year >= d.year && 1 <= n.month <= 12 && 1 <= n.day <= DaysInMonth(n.year, n.month)
            && DayNumber(n.year, n.month, n.day) == DayNumber(d.year, d.month, d.day)
            && n.hours == d.hours && n.minutes == d.minutes && n.seconds == d.seconds
    decreases d.day
  {
    if d.day > DaysInMonth(d.year, d.month) {
      CarryConserves(d);
      NormalizeMeans(CarryMonth(d));
    }
  }

  lemma {:induction false} YearsApart(a: nat, b: nat)
    requires 1 <= a <= b
    ensures DaysBeforeYear(b) - DaysBeforeYear(a) >= 365 * (b - a)
  {
    if a < b {
      YearsApart(a, b - 1);
      LeapStep(b - 1);
    }
  }

  lemma YearLength(year: nat, month: nat, day: nat)
    requires year >= 1 && 1 <= month <= 12 && 1 <= day <= DaysInMonth(year, month)
    ensures 0 <= DaysBeforeMonth(year, month) + day - 1 < DaysBeforeYear(year + 1) - DaysBeforeYear(year)
  {
    NextYear(year);
  }

  lemma MonthsApart(year: nat, a: nat, b: nat)
    requires 1 <= a < b <= 12
    ensures DaysBeforeMonth(year, a) + DaysInMonth(year, a) <= DaysBeforeMonth(year, b)
  {
  }

  /** The day count orders dates as their fields do. */
  lemma DaysFollowFields(a: DateTime, b: DateTime)
    requires Valid(a) && Valid(b)
    requires a.year < b.year || (a.year == b.year && (a.month < b.month || (a.month == b.month && a.day < b.day)))
    ensures DayNumber(a.year, a.month, a.day) < DayNumber(b.year, b.month, b.day)
  {
    if a.year < b.year {
      YearLength(a.year, a.month, a.day);
      YearLength(b.year, b.month, b.day);
      YearsApart(a.year + 1, b.year);
    } else if a.month < b.month {
      MonthsApart(a.year, a.month, b.month);
    }
  }

  lemma EarlierSeconds(a: DateTime, b: DateTime)
    requires Valid(a) && Valid(b) && Earlier(a, b)
    ensures EpochSeconds(a) < EpochSeconds(b)
  {
    if !(a.year == b.year && a.month == b.month && a.day == b.day) { DaysFollowFields(a, b); }
  }

  /** Of two valid dates and times the earlier by field is the earlier in
      seconds, so equal seconds mean equal fields. */
  lemma SecondsFollowFields(a: DateTime, b: DateTime)
    requires Valid(a) && Valid(b)
    ensures Earlier(a, b) <==> EpochSeconds(a) < EpochSeconds(b)
    ensures EpochSeconds(a) == EpochSeconds(b) <==> a == b
  {
    if Earlier(a, b) { EarlierSeconds(a, b); }
    if Earlier(b, a) { EarlierSeconds(b, a); }
    assert Earlier(a, b) || Earlier(b, a) || a == b;
  }

  /** The answer is the one valid date and time whose second count is the
      input's. */
  lemma EpochMillisMeans(millis: nat)
    ensures Valid(EpochMillisToDateTime(millis))
    ensures EpochSeconds(EpochMillisToDateTime(millis)) == millis / 1000
    ensures forall d :: Valid(d) && EpochSeconds(d) == millis / 1000 ==> d == EpochMillisToDateTime(millis)
  {
    hide NormalizeDate, DaysInMonth;
    var seconds := millis / 1000;
    var minutes := seconds / 60;
    var hours := minutes / 60;
    NormalizeMeans(EpochStart(millis));
    assert DayNumber(1970, 1, 1 + hours / 24) == hours / 24;
    assert seconds == minutes * 60 + seconds % 60 && minutes == hours * 60 + minutes % 60;
    assert hours == hours / 24 * 24 + hours % 24;
    var answer := EpochMillisToDateTime(millis);
    forall d | Valid(d) && EpochSeconds(d) == seconds ensures d == answer {
      SecondsFollowFields(d, answer);
    }
  }

  /** A later instant never gives an earlier date. */
  lemma Monotone(a: nat, b: nat)
    requires a <= b
    ensures !Earlier(EpochMillisToDateTime(b), EpochMillisToDateTime(a))
  {
    EpochMillisMeans(a);
    EpochMillisMeans(b);
    SecondsFollowFields(EpochMillisToDateTime(b), EpochMillisToDateTime(a));
  }

  lemma Cycle(year: nat, month: nat, day: nat)
    requires year >= 1 && 1 <= month <= 12
    ensures IsLeapYear(year + 400) == IsLeapYear(year)
    ensures DayNumber(year + 400, month, day) == DayNumber(year, month, day) + 146097
  {
    assert (year + 400) % 4 == year % 4 && (year + 400) % 100 == year % 100 && (year + 400) % 400 == year % 400;
    var y := year - 1;
    assert (y + 400) / 4 == y / 4 + 100 && (y + 400) / 100 == y / 100 + 4 && (y + 400) / 400 == y / 400 + 1;
  }

  lemma CycleSeconds(d: DateTime)
    requires Valid(d)
    ensures var e := d.(year := d.year + 400);
            Valid(e) && EpochSeconds(e) == EpochSeconds(d) + 146097 * 86400
  {
    Cycle(d.year, d.month, d.day);
  }

  /** 146097 days are exactly 400 years: only the year changes. */
  lemma GregorianCycle(millis: nat)
    ensures var d := EpochMillisToDateTime(millis);
            EpochMillisToDateTime(millis + 146097 * 86_400_000) == d.(year := d.year + 400)
  {
    hide EpochMillisToDateTime, Valid, EpochSeconds;
    var later := millis + 146097 * 86_400_000;
    EpochMillisMeans(millis);
    EpochMillisMeans(later);
    CycleSeconds(EpochMillisToDateTime(millis));
    assert later / 1000 == millis / 1000 + 146097 * 86400;
  }

  /** `k` carries in a row, as far as there is anything to carry. */
  function Carried(d: DateTime, k: nat): DateTime {
    if k == 0 then d
    else
      var c := Carried(d, k - 1);
      if c.day > DaysInMonth(c.year, c.month) then CarryMonth(c) else c
  }

  const TWO_TO_THE_128: nat := 0x1_0000_0000_0000_0000_0000_0000_0000_0000

  lemma {:induction false} FieldsFit(d: DateTime, k: nat)
    requires 1 <= d.month <= 12
    ensures var c := Carried(d, k);
            1 <= c.month <= 12 && c.year + c.day <= d.year + d.day
  {
    if k > 0 { FieldsFit(d, k - 1); }
  }

  /** None of the carries from the epoch overflows, on any 128-bit input. */
  lemma EpochFits(millis: nat, k: nat)
    requires millis < TWO_TO_THE_128
    ensures var c := Carried(EpochStart(millis), k);
            c.year + 1 < TWO_TO_THE_128 && c.month + 1 < TWO_TO_THE_128 && c.day < TWO_TO_THE_128
  {
    FieldsFit(EpochStart(millis), k);
  }

  // ----- Termination -----

  predicate Settled(d: DateTime) {
    d.day <= DaysInMonth(d.year, d.month)
  }

  lemma {:induction false} NeverSettles(d: DateTime, k: nat)
    requires d.month > 12 && d.day > 0
    ensures var c := Carried(d, k); c.month == d.month + k && c.day == d.day && !Settled(c)
  {
    if k > 0 { NeverSettles(d, k - 1); }
  }

  lemma {:induction false} CarriedShift(d: DateTime, k: nat)
    requires d.day > DaysInMonth(d.year, d.month)
    ensures Carried(d, k + 1) == Carried(CarryMonth(d), k)
  {
    if k > 0 { CarriedShift(d, k - 1); }
  }

  lemma {:induction false} Settles(d: DateTime) returns (k: nat)
    requires Terminates(d)
    ensures Settled(Carried(d, k)) && NormalizeDate(d) == Carried(d, k)
    decreases d.day, 12 - d.month
  {
    if Settled(d) {
      k := 0;
    } else {
      k := Settles(CarryMonth(d));
      CarriedShift(d, k);
      k := k + 1;
    }
  }

  /** The recursion ends exactly on a month up to twelve or on day zero: from a
      later month it would carry for ever. */
  lemma NormalizeEnds(d: DateTime)
    ensures Terminates(d) <==> exists k: nat :: Settled(Carried(d, k))
  {
    if Terminates(d) {
      var k := Settles(d);
    } else if k: nat :| Settled(Carried(d, k)) {
      NeverSettles(d, k);
    }
  }

  // ----- Text -----

  /** Byte order on text, as a sort compares it. */
  predicate TextLess(a: Str, b: Str) {
    if b == [] then false
    else if a == [] then true
    else a[0] < b[0] || (a[0] == b[0] && TextLess(a[1..], b[1..]))
  }

  lemma {:induction false} TextLessConcat(p: Str, q: Str, x: Str, y: Str)
    requires |p| == |q|
    ensures TextLess(p + x, q + y) <==> TextLess(p, q) || (p == q && TextLess(x, y))
  {
    if p == [] {
      assert p + x == x && q + y == y;
    } else {
      assert (p + x)[1..] == p[1..] + x && (q + y)[1..] == q[1..] + y;
      TextLessConcat(p[1..], q[1..], x, y);
      assert p == q <==> p[0] == q[0] && p[1..] == q[1..];
    }
  }

  lemma TwoDigitText(n: nat)
    requires n < 100
    ensures TwoDigits(n) == [48 + n / 10, 48 + n % 10]
  {
    if n >= 10 { assert DecimalStr(n / 10) == [48 + n / 10]; }
  }

  /** The digits of a number below ten thousand, two and two. */
  lemma DigitPairs(n: nat)
    ensures n / 10 / 10 == n / 100 && n / 10 % 10 == n % 100 / 10 && n % 10 == n % 100 % 10
  {
    var h, t, u := n / 100, n % 100 / 10, n % 100 % 10;
    assert n == (h * 10 + t) * 10 + u;
    DivMod(n, 10, h * 10 + t, u);
    DivMod(h * 10 + t, 10, h, t);
  }

  lemma YearText(n: nat)
    requires n < 10000
    ensures YearWithPaddedZeros(n) == TwoDigits(n / 100) + TwoDigits(n % 100)
  {
    TwoDigitText(n / 100);
    TwoDigitText(n % 100);
    DigitPairs(n);
    if n >= 10 {
      assert DecimalStr(n) == DecimalStr(n / 10) + [48 + n % 10];
      if n >= 100 { assert DecimalStr(n / 10) == DecimalStr(n / 100) + [48 + n / 10 % 10]; }
    }
  }

  /** Two fields of two digits compare as their numbers. */
  lemma TwoDigitOrder(a: nat, b: nat)
    requires a < 100 && b < 100
    ensures |TwoDigits(a)| == |TwoDigits(b)| == 2
    ensures TextLess(TwoDigits(a), TwoDigits(b)) <==> a < b
    ensures TwoDigits(a) == TwoDigits(b) <==> a == b
  {
    TwoDigitText(a);
    TwoDigitText(b);
    var x, y := TwoDigits(a), TwoDigits(b);
    assert x[1..] == [48 + a % 10] && y[1..] == [48 + b % 10];
    assert TextLess(x[1..], y[1..]) <==> a % 10 < b % 10;
  }

  lemma YearOrder(a: nat, b: nat)
    requires a < 10000 && b < 10000
    ensures |YearWithPaddedZeros(a)| == |YearWithPaddedZeros(b)| == 4
    ensures TextLess(YearWithPaddedZeros(a), YearWithPaddedZeros(b)) <==> a < b
    ensures YearWithPaddedZeros(a) == YearWithPaddedZeros(b) <==> a == b
  {
    YearText(a);
    YearText(b);
    TwoDigitOrder(a / 100, b / 100);
    TwoDigitOrder(a % 100, b % 100);
    TextLessConcat(TwoDigits(a / 100), TwoDigits(b / 100), TwoDigits(a % 100), TwoDigits(b % 100));
    assert YearWithPaddedZeros(a) == YearWithPaddedZeros(b) ==> a / 100 == b / 100 && a % 100 == b % 100 by {
      if YearWithPaddedZeros(a) == YearWithPaddedZeros(b) {
        assert YearWithPaddedZeros(a)[..2] == TwoDigits(a / 100) && YearWithPaddedZeros(b)[..2] == TwoDigits(b / 100);
        assert YearWithPaddedZeros(a)[2..] == TwoDigits(a % 100) && YearWithPaddedZeros(b)[2..] == TwoDigits(b % 100);
      }
    }
  }

  /** A field, the mark after it, and the rest. */
  lemma FieldOrder(p: Str, q: Str, mark: Byte, x: Str, y: Str)
    requires |p| == |q|
    ensures TextLess(p + [mark] + x, q + [mark] + y) <==> TextLess(p, q) || (p == q && TextLess(x, y))
  {
    TextLessConcat(p + [mark], q + [mark], x, y);
    TextLessConcat(p, q, [mark], [mark]);
    assert !TextLess([mark], [mark]);
    if p + [mark] == q + [mark] {
      assert p == (p + [mark])[..|p|] == (q + [mark])[..|q|] == q;
    }
  }

  function TimeText(d: DateTime): Str {
    TwoDigits(d.hours) + [COLON] + (TwoDigits(d.minutes) + [COLON] + (TwoDigits(d.seconds) + [90] + []))
  }

  function DateText(d: DateTime): Str {
    YearWithPaddedZeros(d.year) + [MINUS] + (TwoDigits(d.month) + [MINUS] + (TwoDigits(d.day) + [84] + TimeText(d)))
  }

  lemma IsoIsDateText(d: DateTime)
    ensures ToIso8601(d) == DateText(d)
  {
    hide TwoDigits, YearWithPaddedZeros;
  }

  lemma TimeOrder(a: DateTime, b: DateTime)
    requires Valid(a) && Valid(b)
    ensures TextLess(TimeText(a), TimeText(b)) <==> TimeEarlier(a, b)
  {
    hide TwoDigits;
    TwoDigitOrder(a.hours, b.hours);
    TwoDigitOrder(a.minutes, b.minutes);
    TwoDigitOrder(a.seconds, b.seconds);
    FieldOrder(TwoDigits(a.seconds), TwoDigits(b.seconds), 90, [], []);
    FieldOrder(TwoDigits(a.minutes), TwoDigits(b.minutes), COLON,
               TwoDigits(a.seconds) + [90] + [], TwoDigits(b.seconds) + [90] + []);
    FieldOrder(TwoDigits(a.hours), TwoDigits(b.hours), COLON,
               TwoDigits(a.minutes) + [COLON] + (TwoDigits(a.seconds) + [90] + []),
               TwoDigits(b.minutes) + [COLON] + (TwoDigits(b.seconds) + [90] + []));
  }

  /** For four-digit years the text sorts as the dates do (section 5.1 of
      RFC 3339). */
  lemma IsoSortsChronologically(a: DateTime, b: DateTime)
    requires Valid(a) && Valid(b) && a.year < 10000 && b.year < 10000
    ensures TextLess(ToIso8601(a), ToIso8601(b)) <==> EpochSeconds(a) < EpochSeconds(b)
  {
    hide TwoDigits, YearWithPaddedZeros, TimeText, TimeEarlier, EpochSeconds, ToIso8601, TextLess;
    IsoIsDateText(a);
    IsoIsDateText(b);
    TimeOrder(a, b);
    SecondsFollowFields(a, b);
    YearOrder(a.year, b.year);
    TwoDigitOrder(a.month, b.month);
    TwoDigitOrder(a.day, b.day);
    var x, y := TwoDigits(a.day) + [84] + TimeText(a), TwoDigits(b.day) + [84] + TimeText(b);
    FieldOrder(TwoDigits(a.day), TwoDigits(b.day), 84, TimeText(a), TimeText(b));
    FieldOrder(TwoDigits(a.month), TwoDigits(b.month), MINUS, x, y);
    FieldOrder(YearWithPaddedZeros(a.year), YearWithPaddedZeros(b.year), MINUS,
               TwoDigits(a.month) + [MINUS] + x, TwoDigits(b.month) + [MINUS] + y);
  }

  /** The first five-digit year sorts before the last four-digit one. */
  lemma FiveDigitYearsDoNotSort()
    ensures var a, b := DateTime(9999, 12, 31, 0, 0, 0), DateTime(10000, 1, 1, 0, 0, 0);
            Valid(a) && Valid(b) && Earlier(a, b) && TextLess(ToIso8601(b), ToIso8601(a))
  {
    var a, b := DateTime(9999, 12, 31, 0, 0, 0), DateTime(10000, 1, 1, 0, 0, 0);
    IsoIsDateText(a);
    IsoIsDateText(b);
    YearText(9999);
    TwoDigitText(99);
    assert ToIso8601(a)[0] == 57;
    assert DecimalStr(1) == [49];
    assert DecimalStr(10)[0] == 49 && DecimalStr(100)[0] == 49 && DecimalStr(1000)[0] == 49 && DecimalStr(10000)[0] == 49;
    assert ToIso8601(b)[0] == 49;
  }

  /** The text orders all dates before the year `bound`. */
  ghost predicate SortsBelow(bound: nat) {
    forall a, b :: Valid(a) && Valid(b) && a.year < bound && b.year < bound ==>
                     (TextLess(ToIso8601(a), ToIso8601(b)) <==> EpochSeconds(a) < EpochSeconds(b))
  }

  /** The text sorts chronologically exactly as long as years have four digits. */
  lemma IsoSortsExactly(bound: nat)
    ensures SortsBelow(bound) <==> bound <= 10000
  {
    hide ToIso8601, TextLess, EpochSeconds;
    if bound <= 10000 {
      forall a, b | Valid(a) && Valid(b) && a.year < bound && b.year < bound
        ensures TextLess(ToIso8601(a), ToIso8601(b)) <==> EpochSeconds(a) < EpochSeconds(b)
      {
        IsoSortsChronologically(a, b);
      }
    } else {
      var a, b := DateTime(9999, 12, 31, 0, 0, 0), DateTime(10000, 1, 1, 0, 0, 0);
      FiveDigitYearsDoNotSort();
      SecondsFollowFields(a, b);
    }
  }

  lemma {:induction false} DecimalLength(n: nat)
    ensures n >= 10 ==> |DecimalStr(n)| == |DecimalStr(n / 10)| + 1
    ensures |DecimalStr(n)| >= 1
  {
    if n >= 10 { DecimalLength(n / 10); }
  }

  lemma FourDigitYear(year: nat)
    requires year < 10000
    ensures var t := YearWithPaddedZeros(year); |t| == 4 && AllDigits(t) && DecimalValue(t) == year
  {
    YearText(year);
    TwoDigitText(year / 100);
    TwoDigitText(year % 100);
    hide YearWithPaddedZeros, TwoDigits;
    ShortNumeral(YearWithPaddedZeros(year));
  }

  lemma LongYear(year: nat)
    requires year >= 10000
    ensures |DecimalStr(year)| > 4
  {
    hide DecimalStr;
    DecimalLength(year);
    DecimalLength(year / 10);
    DecimalLength(year / 10 / 10);
    DecimalLength(year / 10 / 10 / 10);
    DecimalLength(year / 10 / 10 / 10 / 10);
  }

  /** The year as its digits, four at least, and without leading zeros beyond. */
  lemma YearDigits(year: nat)
    ensures var t := YearWithPaddedZeros(year);
            |t| >= 4 && AllDigits(t) && DecimalValue(t) == year && (|t| > 4 ==> t[0] != '0' as int)
  {
    hide DecimalStr, DecimalValue;
    if year < 10000 {
      FourDigitYear(year);
    } else {
      DecimalStrMeans(year);
      LongYear(year);
    }
  }

  /** Two digits of a text at `i`, as a number. */
  function NumberAt(t: Str, i: nat): int
    requires i + 1 < |t|
  {
    (t[i] as int - 48) * 10 + (t[i + 1] as int - 48)
  }

  /** The text after the year. */
  function AfterYear(d: DateTime): Str {
    [MINUS] + (TwoDigits(d.month) + [MINUS] + (TwoDigits(d.day) + [84] + TimeText(d)))
  }

  lemma RestReadsBack(d: DateTime)
    requires Valid(d)
    ensures var t := AfterYear(d);
            && |t| == 16
            && t[0] == t[3] == '-' as int && t[6] == 'T' as int && t[9] == t[12] == ':' as int && t[15] == 'Z' as int
            && NumberAt(t, 1) == d.month && NumberAt(t, 4) == d.day
            && NumberAt(t, 7) == d.hours && NumberAt(t, 10) == d.minutes && NumberAt(t, 13) == d.seconds
  {
    TwoDigitText(d.month);
    TwoDigitText(d.day);
    TwoDigitText(d.hours);
    TwoDigitText(d.minutes);
    TwoDigitText(d.seconds);
    hide TwoDigits;
  }

  lemma IsoSplits(d: DateTime)
    ensures ToIso8601(d) == YearWithPaddedZeros(d.year) + AfterYear(d)
  {
    IsoIsDateText(d);
    hide TwoDigits, YearWithPaddedZeros, TimeText, ToIso8601;
  }

  /** The text is the date-time of section 5.6 of RFC 3339, with a longer year past
      the year 9999: the year's digits, sixteen bytes with the marks in their
      places, and every field reads back. */
  lemma IsoReadsBack(d: DateTime)
    requires Valid(d)
    ensures var t := ToIso8601(d);
            && |t| >= 20 && AllDigits(t[..|t| - 16]) && DecimalValue(t[..|t| - 16]) == d.year
            && (|t| > 20 ==> t[0] != '0' as int)
            && var u := t[|t| - 16..];
               && u[0] == u[3] == '-' as int && u[6] == 'T' as int && u[9] == u[12] == ':' as int && u[15] == 'Z' as int
               && NumberAt(u, 1) == d.month && NumberAt(u, 4) == d.day
               && NumberAt(u, 7) == d.hours && NumberAt(u, 10) == d.minutes && NumberAt(u, 13) == d.seconds
  {
    hide TwoDigits, YearWithPaddedZeros, NumberAt, AllDigits, DecimalValue, AfterYear, TimeText, ToIso8601;
    YearDigits(d.year);
    RestReadsBack(d);
    IsoSplits(d);
    var y, u := YearWithPaddedZeros(d.year), AfterYear(d);
    assert (y + u)[..|y|] == y && (y + u)[|y|..] == u;
  }
}
