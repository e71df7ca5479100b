/** GeneralizedTime (section 4.1.2.5.2 of RFC 5280): the printer of lib/Der.js (`generalizedTime`) and the reader of
    lib/Attest.js (`parseGeneralizedTime`), over the proleptic Gregorian calendar of ECMAScript's Date. */
module GeneralizedTime {
  import opened Arithmetic
  import opened Text
  import opened Wrappers

  // ----- the calendar -----

  predicate LeapYear(y: int) { y % 4 == 0 && (y % 100 != 0 || y % 400 == 0) }

  function DaysInYear(y: int): int { if LeapYear(y) then 366 else 365 }

  /** How many years from `first` to y, y excluded, begin a new period of n years. */
  function Steps(y: int, first: int, n: int): int
    requires n > 0
  {
    (y - first) / n
  }

  /** The number of the first day of year y; day 0 is 1 January 1970. */
  function DayFromYear(y: int): int {
    365 * (y - 1970) + Steps(y, 1969, 4) - Steps(y, 1901, 100) + Steps(y, 1601, 400)
  }

  /** The days of the year before month m, 0 being January. */
  function DaysBefore(m: nat, leap: bool): int
    requires m <= 12
  {
    var d := if leap then 1 else 0;
    match m
    case 0 => 0 case 1 => 31 case 2 => 59 + d case 3 => 90 + d case 4 => 120 + d case 5 => 151 + d case 6 => 181 + d
    case 7 => 212 + d case 8 => 243 + d case 9 => 273 + d case 10 => 304 + d case 11 => 334 + d case _ => 365 + d
  }

  lemma YearLength(y: int)
    ensures DayFromYear(y + 1) == DayFromYear(y) + DaysInYear(y)
  {
    hide Steps;
    StepsNext(y, 1969, 4, 492);
    StepsNext(y, 1901, 100, 19);
    StepsNext(y, 1601, 400, 4);
  }

  lemma StepsNext(y: int, first: int, n: int, k: int)
    requires n > 0 && first - 1 == k * n
    ensures Steps(y + 1, first, n) == Steps(y, first, n) + if y % n == 0 then 1 else 0
  {
    var q, r := y / n, y % n;
    assert y == q * n + r;
    Distribute(q, k, n);
    Quotient(y - k * n, n, q - k, r);
    QuotientStep(y - first, n);
    assert y - first + 1 == y - k * n;
  }

  lemma QuotientStep(a: int, n: int)
    requires n > 0
    ensures (a + 1) / n == a / n + if (a + 1) % n == 0 then 1 else 0
  {
    var q, r := a / n, a % n;
    if r == n - 1 {
      Distribute(q + 1, 1, n);
      Quotient(a + 1, n, q + 1, 0);
    } else {
      Quotient(a + 1, n, q, r + 1);
    }
  }

  lemma {:induction false} YearsIncrease(y: int, y': int)
    requires y < y'
    ensures DayFromYear(y) + 365 <= DayFromYear(y')
    decreases y' - y
  {
    hide DayFromYear;
    YearLength(y' - 1);
    if y == y' - 1 {
    } else {
      YearsIncrease(y, y' - 1);
    }
  }

  lemma {:induction false} YearExists(day: int, y: int)
    requires DayFromYear(y) <= day
    ensures exists y' :: DayFromYear(y') <= day < DayFromYear(y' + 1)
    decreases day - DayFromYear(y)
  {
    hide DayFromYear;
    YearLength(y);
    if day >= DayFromYear(y + 1) { YearExists(day, y + 1); }
  }

  function EarlierYear(day: int): (y: int) { 1970 - (if day < 0 then -day else 0) }

  lemma {:induction false} EarlierYears(n: nat)
    ensures DayFromYear(1970 - n) <= 0 - n
  {
    if n == 0 {
    } else {
      EarlierYears(n - 1);
      YearLength(1970 - n);
    }
  }

  /** The year that the day lies in. */
  ghost function YearOf(day: int): (y: int)
    ensures DayFromYear(y) <= day < DayFromYear(y + 1)
  {
    hide DayFromYear;
    EarlierYears(if day < 0 then -day else 0);
    YearExists(day, EarlierYear(day));
    var y :| DayFromYear(y) <= day < DayFromYear(y + 1);
    y
  }

  lemma YearUnique(day: int, y: int)
    requires DayFromYear(y) <= day < DayFromYear(y + 1)
    ensures YearOf(day) == y
  {
    hide DayFromYear;
    var z := YearOf(day);
    if z < y && z + 1 < y { YearsIncrease(z + 1, y); }
    if y < z && y + 1 < z { YearsIncrease(y + 1, z); }
  }

  /** The month, 0 being January, of a day of the year. */
  function MonthOf(day: int, leap: bool): (m: nat)
    requires 0 <= day < DaysBefore(12, leap)
    ensures m < 12 && DaysBefore(m, leap) <= day < DaysBefore(m + 1, leap)
  {
    if day < DaysBefore(1, leap) then 0 else if day < DaysBefore(2, leap) then 1
    else if day < DaysBefore(3, leap) then 2 else if day < DaysBefore(4, leap) then 3
    else if day < DaysBefore(5, leap) then 4 else if day < DaysBefore(6, leap) then 5
    else if day < DaysBefore(7, leap) then 6 else if day < DaysBefore(8, leap) then 7
    else if day < DaysBefore(9, leap) then 8
    else if day < DaysBefore(10, leap) then 9 else if day < DaysBefore(11, leap) then 10 else 11
  }

  // ----- instants -----

  /** A calendar time to the second; the month counts from 1. */
  datatype Civil = Civil(year: int, month: int, day: int, hour: int, minute: int, second: int) {
    /** A time that exists. */
    predicate Valid() {
      && 1 <= month <= 12
      && 1 <= day <= DaysBefore(month, LeapYear(year)) - DaysBefore(month - 1, LeapYear(year))
      && 0 <= hour < 24 && 0 <= minute < 60 && 0 <= second < 60
    }
  }

  const DAY_MS: int := 86_400_000

  function MakeDay(year: int, month: int, day: int): int {
    var y, m := year + (month - 1) / 12, (month - 1) % 12;
    DayFromYear(y) + DaysBefore(m, LeapYear(y)) + day - 1
  }

  /** The instant, in milliseconds since 1970, of any field values: what is out of range rolls over. */
  function Instant(c: Civil): int {
    MakeDay(c.year, c.month, c.day) * DAY_MS + c.hour * 3_600_000 + c.minute * 60_000 + c.second * 1000
  }

  /** `Date.UTC` takes the years 0 to 99 to mean 1900 to 1999. */
  function DateUtc(c: Civil): int {
    Instant(if 0 <= c.year <= 99 then c.(year := 1900 + c.year) else c)
  }

  /** The calendar fields of an instant, as the UTC getters give them. */
  ghost function CivilOf(ms: int): (c: Civil)
    ensures c.Valid()
  {
    hide DayFromYear;
    var day, time := ms / DAY_MS, ms % DAY_MS;
    var y := YearOf(day);
    YearLength(y);
    var ofYear := day - DayFromYear(y);
    var m := MonthOf(ofYear, LeapYear(y));
    Civil(y, m + 1, ofYear - DaysBefore(m, LeapYear(y)) + 1, time / 3_600_000, time / 60_000 % 60, time / 1000 % 60)
  }

  lemma MonthUnique(day: int, leap: bool, m: nat)
    requires m < 12 && DaysBefore(m, leap) <= day < DaysBefore(m + 1, leap)
    ensures 0 <= day < DaysBefore(12, leap) && MonthOf(day, leap) == m
  {}

  lemma TimeOfDay(h: int, mi: int, s: int, time: int)
    requires 0 <= h < 24 && 0 <= mi < 60 && 0 <= s < 60 && time == h * 3_600_000 + mi * 60_000 + s * 1000
    ensures 0 <= time < DAY_MS && time / 3_600_000 == h && time / 60_000 % 60 == mi && time / 1000 % 60 == s
  {
    Quotient(time, 3_600_000, h, mi * 60_000 + s * 1000);
    Quotient(time, 60_000, h * 60 + mi, s * 1000);
    Quotient(time, 1000, h * 3600 + mi * 60 + s, 0);
    Quotient(h * 60 + mi, 60, h, mi);
    Quotient(h * 3600 + mi * 60 + s, 60, h * 60 + mi, s);
  }

  /** The fields of a valid calendar time come back from its instant. */
  lemma CivilOfInstant(c: Civil)
    requires c.Valid()
    ensures CivilOf(Instant(c)) == c
  {
    hide DayFromYear, MonthOf, DaysBefore, LeapYear, DaysInYear;
    var time := c.hour * 3_600_000 + c.minute * 60_000 + c.second * 1000;
    TimeOfDay(c.hour, c.minute, c.second, time);
    var leap := LeapYear(c.year);
    MonthRange(c.month - 1, leap);
    var ofYear := DaysBefore(c.month - 1, leap) + c.day - 1;
    var day := DayFromYear(c.year) + ofYear;
    DayOfDate(c);
    Quotient(Instant(c), DAY_MS, day, time);
    YearLength(c.year);
    YearSum(c.year);
    YearUnique(day, c.year);
    MonthUnique(ofYear, leap, c.month - 1);
  }

  lemma YearSum(y: int)
    ensures DaysInYear(y) == DaysBefore(12, LeapYear(y))
  {}

  lemma DayOfDate(c: Civil)
    requires 1 <= c.month <= 12
    ensures MakeDay(c.year, c.month, c.day)
            == DayFromYear(c.year) + DaysBefore(c.month - 1, LeapYear(c.year)) + c.day - 1
  {
    hide DayFromYear, DaysBefore, LeapYear;
    Quotient(c.month - 1, 12, 0, c.month - 1);
  }

  lemma MonthRange(m: nat, leap: bool)
    requires m < 12
    ensures 0 <= DaysBefore(m, leap) < DaysBefore(m + 1, leap) <= DaysBefore(12, leap)
  {}

  /** The instant of the fields of a whole second is that second. */
  lemma InstantOfCivil(ms: int)
    requires ms % 1000 == 0
    ensures Instant(CivilOf(ms)) == ms
  {
    hide DayFromYear, DaysBefore, LeapYear, MonthOf;
    var c, time := CivilOf(ms), ms % DAY_MS;
    DayOfDate(c);
    Quotient(time, 1000, ms / 1000 - ms / DAY_MS * 86_400, 0);
    WholeSecond(time);
  }

  lemma WholeSecond(time: int)
    requires 0 <= time < DAY_MS && time % 1000 == 0
    ensures time == time / 3_600_000 * 3_600_000 + time / 60_000 % 60 * 60_000 + time / 1000 % 60 * 1000
  {
    var s := time / 1000;
    var mi := s / 60;
    Quotient(time, 60_000, mi, s % 60 * 1000);
    Quotient(time, 3_600_000, mi / 60, mi % 60 * 60_000 + s % 60 * 1000);
  }

  // ----- the calendar, counted day by day -----

  function MonthLength(y: int, m: int): int {
    if m == 2 then (if y % 400 == 0 || (y % 4 == 0 && y % 100 != 0) then 29 else 28)
    else if m == 4 || m == 6 || m == 9 || m == 11 then 30
    else 31
  }

  datatype Date = Date(year: int, month: int, day: int) {
    predicate Exists() { 1 <= month <= 12 && 1 <= day <= MonthLength(year, month) }
  }

  const EPOCH: Date := Date(1970, 1, 1)

  function NextDay(d: Date): Date {
    if d.day < MonthLength(d.year, d.month) then Date(d.year, d.month, d.day + 1)
    else if d.month < 12 then Date(d.year, d.month + 1, 1)
    else Date(d.year + 1, 1, 1)
  }

  /** The date n days later. */
  function DaysLater(d: Date, n: nat): Date { if n == 0 then d else NextDay(DaysLater(d, n - 1)) }

  /** The date is reached from 1 January 1970 in n days, or, when n is negative, reaches it in -n days. */
  predicate IsDayNumber(d: Date, n: int) {
    if n >= 0 then DaysLater(EPOCH, n) == d else DaysLater(d, -n) == EPOCH
  }

  function Midnight(d: Date): Civil { Civil(d.year, d.month, d.day, 0, 0, 0) }

  lemma MonthLengths(y: int, m: int)
    requires 1 <= m <= 12
    ensures MonthLength(y, m) == DaysBefore(m, LeapYear(y)) - DaysBefore(m - 1, LeapYear(y))
  {
    LeapIs(y);
    hide LeapYear, MonthLength;
    assert LeapYear(y) || !LeapYear(y);
  }

  lemma LeapIs(y: int)
    ensures forall m: int ::
              MonthLength(y, m)
              == if m == 2 then (if LeapYear(y) then 29 else 28)
                 else if m == 4 || m == 6 || m == 9 || m == 11 then 30
                 else 31
  {
    var a, b, c := y % 400 == 0, y % 4 == 0, y % 100 == 0;
    if a {
      var q := y / 400;
      assert y == 400 * q;
      Quotient(y, 4, 100 * q, 0);
    }
    assert LeapYear(y) <==> a || (b && !c);
  }

  /** A calendar time exists exactly when its date does and its clock reads 00:00:00 to 23:59:59. */
  lemma ValidIs(c: Civil)
    ensures c.Valid() <==>
            Date(c.year, c.month, c.day).Exists() && 0 <= c.hour <= 23 && 0 <= c.minute <= 59 && 0 <= c.second <= 59
  {
    if 1 <= c.month <= 12 { MonthLengths(c.year, c.month); }
  }

  /** The next day of the calendar begins 86 400 seconds later. */
  lemma NextDayIsLater(d: Date)
    requires d.Exists()
    ensures NextDay(d).Exists() && Instant(Midnight(NextDay(d))) == Instant(Midnight(d)) + 86_400_000
  {
    hide DayFromYear, DaysBefore, LeapYear, MonthLength;
    MonthsAreNotEmpty(d.year);
    MonthsAreNotEmpty(d.year + 1);
    MonthLengths(d.year, d.month);
    DayOfDate(Midnight(d));
    DayOfDate(Midnight(NextDay(d)));
    YearLength(d.year);
    YearSum(d.year);
    YearStart(d.year);
    YearStart(d.year + 1);
  }

  lemma MonthsAreNotEmpty(y: int)
    ensures forall m :: MonthLength(y, m) >= 28
  {}

  lemma YearStart(y: int)
    ensures DaysBefore(0, LeapYear(y)) == 0
  {}

  lemma Origin()
    ensures EPOCH.Exists() && Instant(Midnight(EPOCH)) == 0
  {}

  lemma {:induction false} DaysLaterIs(d: Date, n: nat)
    requires d.Exists()
    ensures DaysLater(d, n).Exists() && Instant(Midnight(DaysLater(d, n))) == Instant(Midnight(d)) + n * 86_400_000
  {
    if n == 0 {
    } else {
      hide NextDay, Instant;
      DaysLaterIs(d, n - 1);
      NextDayIsLater(DaysLater(d, n - 1));
    }
  }

  /** Every date has a number, and its instant is that many days from the origin. */
  lemma DayNumber(d: Date) returns (n: int)
    requires d.Exists()
    ensures IsDayNumber(d, n) && Instant(Midnight(d)) == n * 86_400_000
  {
    hide Instant, Date.Exists, DaysLater;
    WholeDays(d);
    n := Instant(Midnight(d)) / 86_400_000;
    Origin();
    if n >= 0 {
      DaysLaterIs(EPOCH, n);
      SameInstant(DaysLater(EPOCH, n), d);
    } else {
      DaysLaterIs(d, -n);
      SameInstant(DaysLater(d, -n), EPOCH);
    }
  }

  lemma WholeDays(d: Date)
    requires d.Exists()
    ensures Instant(Midnight(d)) / 86_400_000 * 86_400_000 == Instant(Midnight(d))
  {
    hide MakeDay;
    Quotient(Instant(Midnight(d)), 86_400_000, MakeDay(d.year, d.month, d.day), 0);
  }

  lemma SameInstant(d: Date, e: Date)
    requires d.Exists() && e.Exists() && Instant(Midnight(d)) == Instant(Midnight(e))
    ensures d == e
  {
    hide Instant, CivilOf;
    ValidIs(Midnight(d));
    ValidIs(Midnight(e));
    CivilOfInstant(Midnight(d));
    CivilOfInstant(Midnight(e));
  }

  // ----- printing -----

  /** `String(n)` of any integer. */
  function Numeral(n: int): string { if n < 0 then "-" + Decimal(-n) else Decimal(n) }

  function Pad2(n: nat): string { if |Decimal(n)| < 2 then "0" + Decimal(n) else Decimal(n) }

  /** The text of `generalizedTime`. */
  function Print(c: Civil): string
    requires c.Valid()
  {
    Numeral(c.year) + Pad2(c.month) + Pad2(c.day) + Pad2(c.hour) + Pad2(c.minute) + Pad2(c.second) + "Z"
  }

  // ----- reading -----

  /** Fourteen digits, an optional fraction, and "Z". */
  predicate Shape(s: string) {
    && |s| >= 15 && AllDigits(s[..14]) && s[|s| - 1] == 'Z'
    && (|s| == 15 || (|s| >= 17 && s[14] == '.' && AllDigits(s[15..|s| - 1])))
  }

  function Two(s: string, i: nat): (n: nat)
    requires i + 2 <= |s| && IsDigit(s[i]) && IsDigit(s[i + 1])
    ensures n < 100
  {
    10 * DigitValue(s[i]) + DigitValue(s[i + 1])
  }

  function Fields(s: string): Civil
    requires |s| >= 14 && AllDigits(s[..14])
  {
    assert forall i :: 0 <= i < 14 ==> IsDigit(s[..14][i]);
    Civil(100 * Two(s, 0) + Two(s, 2), Two(s, 4), Two(s, 6), Two(s, 8), Two(s, 10), Two(s, 12))
  }

  /** How a fraction's digits become milliseconds, floor(Number("0." + digits) * 1000), rounding of the number
      included. */
  type Millis = string -> nat

  ghost function Parse(s: string, millis: Millis): Option<int> {
    if !Shape(s) then None
    else
      var ms := if |s| == 15 then 0 else var f := millis(s[15..|s| - 1]); if f < 999 then f else 999;
      var base := DateUtc(Fields(s));
      if CivilOf(base) != Fields(s) then None else Some(base + ms)
  }

  /** A time is accepted exactly when it exists, in a year from 100 on. */
  lemma AcceptedTimes(s: string, millis: Millis)
    ensures Parse(s, millis).Some? <==> Shape(s) && Fields(s).Valid() && Fields(s).year >= 100
  {
    hide CivilOf, Instant, Fields;
    if Shape(s) {
      var c := Fields(s);
      FieldsRange(s);
      if c.Valid() && c.year >= 100 { CivilOfInstant(c); }
      if CivilOf(DateUtc(c)) == c && c.year < 100 { RolledYear(c); }
    }
  }

  lemma FieldsRange(s: string)
    requires Shape(s)
    ensures 0 <= Fields(s).year <= 9999
  {}

  /** A year below 100 is read as one of the 1900s, and so never comes back. */
  lemma RolledYear(c: Civil)
    requires 0 <= c.year < 100 && c.Valid()
    ensures CivilOf(DateUtc(c)) != c
  {
    hide CivilOf, Instant;
    var d := c.(year := 1900 + c.year);
    if d.Valid() {
      CivilOfInstant(d);
    } else {
      var e := Civil(d.year, 3, 1, d.hour, d.minute, d.second);
      LeapDay(c, d, e);
      CivilOfInstant(e);
    }
  }

  /** The one date of the years 0 to 99 that the 1900s lack is 29 February of year 0. */
  lemma LeapDay(c: Civil, d: Civil, e: Civil)
    requires 0 <= c.year < 100 && c.Valid() && d == c.(year := 1900 + c.year) && !d.Valid()
    requires e == Civil(d.year, 3, 1, d.hour, d.minute, d.second)
    ensures e.Valid() && Instant(d) == Instant(e)
  {}

  /** The second that is certified is the one written: a fraction never moves the time out of it. */
  lemma FractionStaysInSecond(s: string, millis: Millis)
    requires Parse(s, millis).Some?
    ensures Instant(Fields(s)) <= Parse(s, millis).value < Instant(Fields(s)) + 1000
    ensures |s| == 15 ==> Parse(s, millis) == Some(Instant(Fields(s)))
  {
    hide CivilOf, Instant, Fields;
    AcceptedTimes(s, millis);
  }

  lemma NumbersOfFields(s: string)
    requires Shape(s)
    ensures Numeric(s) && Fields(s) == Written(s)
  {
    assert forall i :: 0 <= i < 14 ==> IsDigit(s[..14][i]) && s[..14][i] == s[i];
    hide Shape;
    TwoIs(s, 0);
    TwoIs(s, 2);
    TwoIs(s, 4);
    TwoIs(s, 6);
    TwoIs(s, 8);
    TwoIs(s, 10);
    TwoIs(s, 12);
    FourIs(s);
  }

  predicate Numeric(s: string) {
    && |s| >= 14 && AllDigits(s[..4]) && AllDigits(s[4..6]) && AllDigits(s[6..8])
    && AllDigits(s[8..10]) && AllDigits(s[10..12]) && AllDigits(s[12..14])
  }

  /** Year, month, day, hour, minute and second as the text has them one after the other. */
  function Written(s: string): Civil
    requires Numeric(s)
  {
    Civil(Number(s[..4]), Number(s[4..6]), Number(s[6..8]), Number(s[8..10]), Number(s[10..12]), Number(s[12..14]))
  }

  /** A text of the shape is accepted exactly when the date written in it exists, in a year from 100 on, and the clock
      time is one of 00:00:00 to 23:59:59. */
  lemma AcceptedExactly(s: string, millis: Millis)
    requires Shape(s)
    ensures Numeric(s)
    ensures var w := Written(s);
            Parse(s, millis).Some? <==> && w.year >= 100 && Date(w.year, w.month, w.day).Exists()
                                        && w.hour <= 23 && w.minute <= 59 && w.second <= 59
  {
    hide Parse, Fields, Shape;
    AcceptedTimes(s, millis);
    NumbersOfFields(s);
    ValidIs(Fields(s));
  }

  lemma TwoIs(s: string, i: nat)
    requires i + 2 <= |s| && IsDigit(s[i]) && IsDigit(s[i + 1])
    ensures AllDigits(s[i..i + 2]) && Number(s[i..i + 2]) == Two(s, i)
  {
    var t := s[i..i + 2];
    assert t[..1] == [s[i]] && t[..1][..0] == "" && t[1] == s[i + 1];
    assert Number(t[..1]) == DigitValue(s[i]);
  }

  lemma FourIs(s: string)
    requires |s| >= 4 && forall i :: 0 <= i < 4 ==> IsDigit(s[i])
    ensures AllDigits(s[..4]) && Number(s[..4]) == 100 * Two(s, 0) + Two(s, 2)
  {
    var t := s[..4];
    assert t[..3][..2] == s[0..2] && t[..3][2] == s[2] && t[3] == s[3];
    TwoIs(s, 0);
    assert Number(t[..3]) == 10 * Number(s[0..2]) + DigitValue(s[2]);
  }

  /** The time that an accepted text is taken for: days counted from 1 January 1970, then hours, minutes, seconds, and a
      fraction of less than a second. */
  lemma ParseCountsDays(s: string, millis: Millis) returns (n: int)
    requires Parse(s, millis).Some?
    ensures Numeric(s)
    ensures var w := Written(s);
            && IsDayNumber(Date(w.year, w.month, w.day), n)
            && Parse(s, millis).value == n * 86_400_000 + w.hour * 3_600_000 + w.minute * 60_000 + w.second * 1000
                                         + if |s| == 15 then 0 else Min(millis(s[15..|s| - 1]), 999)
  {
    hide CivilOf, IsDayNumber, Instant, Fields;
    AcceptedTimes(s, millis);
    NumbersOfFields(s);
    var c := Fields(s);
    ValidIs(c);
    n := DayNumber(Date(c.year, c.month, c.day));
    ClockAdds(c);
  }

  function Min(a: nat, b: nat): nat { if a < b then a else b }

  lemma ClockAdds(c: Civil)
    ensures Instant(c) == Instant(Midnight(Date(c.year, c.month, c.day)))
                          + c.hour * 3_600_000 + c.minute * 60_000 + c.second * 1000
  {}

  // ----- round trips -----

  lemma Pad2Digits(n: nat)
    requires n < 100
    ensures Pad2(n) == [DigitChar(n / 10), DigitChar(n % 10)]
  {
    if n >= 10 { assert Decimal(n / 10) == [DigitChar(n / 10)]; }
  }

  lemma FourDigits(n: nat)
    requires 1000 <= n <= 9999
    ensures Decimal(n) == Pad2(n / 100) + Pad2(n % 100)
  {
    Pad2Digits(n / 100);
    Pad2Digits(n % 100);
    assert Decimal(n) == Decimal(n / 10) + [DigitChar(n % 10)];
    assert Decimal(n / 10) == Decimal(n / 10 / 10) + [DigitChar(n / 10 % 10)];
    assert n / 10 / 10 == n / 100 && n / 10 % 10 == n % 100 / 10 && n % 10 == n % 100 % 10;
    assert Decimal(n / 100) == [DigitChar(n / 100 / 10)] + [DigitChar(n / 100 % 10)];
  }

  lemma ReadPad2(s: string, i: nat, n: nat)
    requires i + 2 <= |s| && n < 100
    ensures s[i..i + 2] == Pad2(n) <==> IsDigit(s[i]) && IsDigit(s[i + 1]) && Two(s, i) == n
  {
    Pad2Digits(n);
  }

  lemma TwoDigitFields(c: Civil)
    requires c.Valid()
    ensures 0 <= c.month < 100 && 0 <= c.day < 100 && 0 <= c.hour < 100 && 0 <= c.minute < 100 && 0 <= c.second < 100
  {}

  /** A text without fraction has the fields exactly when it is their printing. */
  lemma FieldsPrinted(s: string, c: Civil)
    requires c.Valid() && 1000 <= c.year <= 9999
    ensures |s| == 15 && Shape(s) && Fields(s) == c <==> s == Print(c)
  {
    hide Pad2, Two, Civil.Valid, Decimal, Shape;
    TwoDigitFields(c);
    FourDigits(c.year);
    var texts := [Pad2(c.year / 100), Pad2(c.year % 100), Pad2(c.month), Pad2(c.day),
                  Pad2(c.hour), Pad2(c.minute), Pad2(c.second)];
    Pad2Digits(c.year / 100);
    Pad2Digits(c.year % 100);
    Pad2Digits(c.month);
    Pad2Digits(c.day);
    Pad2Digits(c.hour);
    Pad2Digits(c.minute);
    Pad2Digits(c.second);
    if |s| == 15 {
      ReadPad2(s, 0, c.year / 100);
      ReadPad2(s, 2, c.year % 100);
      ReadPad2(s, 4, c.month);
      ReadPad2(s, 6, c.day);
      ReadPad2(s, 8, c.hour);
      ReadPad2(s, 10, c.minute);
      ReadPad2(s, 12, c.second);
      Pieces(s, texts, Print(c));
      ShapeDigits(s);
    }
  }

  /** The reader's view of fifteen characters. */
  lemma ShapeDigits(s: string)
    requires |s| == 15
    ensures Shape(s) <==> s[14] == 'Z' && forall i :: 0 <= i < 14 ==> IsDigit(s[i])
  {
    assert forall i :: 0 <= i < 14 ==> s[..14][i] == s[i];
  }

  lemma Pieces(s: string, texts: seq<string>, whole: string)
    requires |s| == 15 && |texts| == 7 && forall i :: 0 <= i < 7 ==> |texts[i]| == 2
    requires whole == texts[0] + texts[1] + texts[2] + texts[3] + texts[4] + texts[5] + texts[6] + "Z"
    ensures s == whole <==> s[0..2] == texts[0] && s[2..4] == texts[1] && s[4..6] == texts[2] && s[6..8] == texts[3]
                            && s[8..10] == texts[4] && s[10..12] == texts[5] && s[12..14] == texts[6] && s[14] == 'Z'
  {
    if s[0..2] == texts[0] && s[2..4] == texts[1] && s[4..6] == texts[2] && s[6..8] == texts[3]
       && s[8..10] == texts[4] && s[10..12] == texts[5] && s[12..14] == texts[6] && s[14] == 'Z' {
      assert s == s[0..2] + s[2..4] + s[4..6] + s[6..8] + s[8..10] + s[10..12] + s[12..14] + [s[14]];
    }
  }

  lemma DecimalLength(n: nat)
    ensures n < 1000 ==> |Decimal(n)| <= 3
    ensures n >= 10000 ==> |Decimal(n)| >= 5
  {
    assert n >= 10000 ==> n / 10 >= 1000 && n / 10 / 10 >= 100 && n / 10 / 10 / 10 >= 10;
    assert n >= 10 ==> Decimal(n) == Decimal(n / 10) + [DigitChar(n % 10)];
    assert n >= 100 ==> Decimal(n / 10) == Decimal(n / 10 / 10) + [DigitChar(n / 10 % 10)];
    assert n >= 1000 ==> Decimal(n / 10 / 10) == Decimal(n / 10 / 10 / 10) + [DigitChar(n / 10 / 10 % 10)];
  }

  /** A year that is not written with four digits makes the text unreadable. */
  lemma OtherYears(c: Civil)
    requires c.Valid() && !(1000 <= c.year <= 9999)
    ensures !Shape(Print(c))
  {
    hide Pad2, Civil.Valid, Decimal;
    TwoDigitFields(c);
    Pad2Digits(c.month);
    Pad2Digits(c.day);
    Pad2Digits(c.hour);
    Pad2Digits(c.minute);
    Pad2Digits(c.second);
    var s, y := Print(c), Numeral(c.year);
    var rest := Pad2(c.month) + Pad2(c.day) + Pad2(c.hour) + Pad2(c.minute) + Pad2(c.second);
    assert s == y + rest + "Z" && |rest| == 10;
    if c.year < 0 {
      assert s[0] == '-' && (|s| >= 14 ==> s[..14][0] == '-');
    } else {
      DecimalLength(c.year);
      DecimalNumber(c.year);
      assert |y| >= 5 ==> s[14] == (y + rest)[14] && IsDigit((y + rest)[14]);
    }
  }

  /** Print, then read: the instant comes back exactly when its year has four digits. */
  lemma PrintThenRead(ms: int, millis: Millis)
    requires ms % 1000 == 0
    ensures Parse(Print(CivilOf(ms)), millis) == Some(ms) <==> 1000 <= CivilOf(ms).year <= 9999
  {
    hide CivilOf, Instant, Shape, Fields, Print, Civil.Valid;
    var c := CivilOf(ms);
    InstantOfCivil(ms);
    if 1000 <= c.year <= 9999 {
      FieldsPrinted(Print(c), c);
      CivilOfInstant(c);
    } else {
      OtherYears(c);
    }
  }

  /** Read, then print: a fraction-free text of such a year is the printing of its result. */
  lemma ReadThenPrint(s: string, millis: Millis)
    requires |s| == 15 && Parse(s, millis).Some? && Fields(s).year >= 1000
    ensures s == Print(CivilOf(Parse(s, millis).value))
  {
    hide CivilOf, Instant, Print, Civil.Valid;
    AcceptedTimes(s, millis);
    FieldsRange(s);
    FieldsPrinted(s, Fields(s));
  }
}
