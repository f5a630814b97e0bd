/** The age of an employee at the end of a payroll period, and what employment insurance
    makes of it. */
module PayrollAge {
  import opened Options
  import opened Text

  const EXEMPT_AGE := 65

  datatype Date = Date(year: int, month: int, day: int)

  // ------------------------------------------------------------ the calendar

  predicate IsLeap(year: int) {
    (year % 4 == 0 && year % 100 != 0) || year % 400 == 0
  }

  function DaysInMonth(year: int, month: int): int {
    if month in {1, 3, 5, 7, 8, 10, 12} then 31
    else if month in {4, 6, 9, 11} then 30
    else if month == 2 then (if IsLeap(year) then 29 else 28)
    else 0
  }

  predicate IsDate(d: Date) {
    1 <= d.month <= 12 && 1 <= d.day <= DaysInMonth(d.year, d.month)
  }

  /** The last day of a month. */
  predicate IsPeriodEnd(d: Date) {
    IsDate(d) && d.day == DaysInMonth(d.year, d.month)
  }

  // ---------------------------------------------------------------- parsing

  predicate IsDigit(c: char) {
    '0' <= c <= '9'
  }

  function NumberOf(digits: string): (n: nat)
    requires forall i :: 0 <= i < |digits| ==> IsDigit(digits[i])
  {
    if digits == "" then 0
    else
      assert IsDigit(digits[|digits|-1]);
      NumberOf(digits[..|digits|-1]) * 10 + (digits[|digits|-1] as int - '0' as int)
  }

  /** `str::parse` for text without a minus sign: a plus sign may lead, and larger numbers
      than the type holds are refused. */
  function ParseNumber(s: string, max: int): Option<int> {
    if s != "" && s[0] == '+' then ParseDigits(s[1..], max) else ParseDigits(s, max)
  }

  function ParseDigits(digits: string, max: int): Option<int> {
    if digits == "" || exists i :: 0 <= i < |digits| && !IsDigit(digits[i]) then None
    else if NumberOf(digits) > max then None
    else Some(NumberOf(digits))
  }

  function Split(s: string): (parts: seq<string>)
    ensures |parts| > 0
  {
    if s == "" then [""]
    else
      var rest := Split(s[1..]);
      if s[0] == '-' then [""] + rest else [[s[0]] + rest[0]] + rest[1..]
  }

  /** `period_end_date` */
  function PeriodEnd(period: string): Option<Date> {
    var parts := Split(Trim(period));
    if |parts| != 2 then None
    else
      match (ParseNumber(parts[0], 0x7fff_ffff), ParseNumber(parts[1], 255))
      case (Some(year), Some(month)) =>
        if 1 <= month <= 12 then Some(Date(year, month, DaysInMonth(year, month))) else None
      case _ => None
  }

  function Digits(s: string): (d: string)
    ensures forall i :: 0 <= i < |d| ==> IsDigit(d[i])
  {
    if s == "" then ""
    else if IsDigit(s[0]) then [s[0]] + Digits(s[1..])
    else Digits(s[1..])
  }

  function PivotYear(yy: int, asOf: Date): int {
    if yy > asOf.year % 100 then 1900 + yy else 2000 + yy
  }

  /** The year of birth by the seventh digit, or by the pivot where there is none. */
  function BirthYear(yy: int, rest: string, asOf: Date): int {
    if rest == "" then PivotYear(yy, asOf)
    else if rest[0] in {'1', '2', '5', '6'} then 1900 + yy
    else if rest[0] in {'3', '4', '7', '8'} then 2000 + yy
    else if rest[0] in {'9', '0'} then 1800 + yy
    else PivotYear(yy, asOf)
  }

  /** `birth_date_from_korean_identity` */
  function BirthDate(identity: string, asOf: Date): (birth: Option<Date>)
    ensures birth.Some? ==> IsDate(birth.value)
  {
    var digits := Digits(identity);
    if |digits| < 6 then None
    else
      var yy, month, day := NumberOf(digits[0..2]), NumberOf(digits[2..4]), NumberOf(digits[4..6]);
      if !(1 <= month <= 12) || day == 0 || day > 31 then None
      else
        var year := BirthYear(yy, digits[6..], asOf);
        if day > DaysInMonth(year, month) then None else Some(Date(year, month, day))
  }

  /** The birthday of the year is still to come. */
  predicate BirthdayAhead(birth: Date, asOf: Date) {
    asOf.month < birth.month || (asOf.month == birth.month && asOf.day < birth.day)
  }

  /** `age_years_at` */
  function AgeAt(birth: Date, asOf: Date): int {
    asOf.year - birth.year - if BirthdayAhead(birth, asOf) then 1 else 0
  }

  function Age(identity: string, period: string): Option<int> {
    match PeriodEnd(period)
    case None => None
    case Some(asOf) =>
      match BirthDate(identity, asOf)
      case None => None
      case Some(birth) => Some(AgeAt(birth, asOf))
  }

  predicate IsExemptAge(identity: string, period: string) {
    match Age(identity, period)
    case Some(age) => age >= EXEMPT_AGE
    case None => false
  }

  // ------------------------------------------------------- what age depends on

  /** The month a date lies in, counted through the years. */
  function MonthsOf(d: Date): int {
    12 * d.year + d.month
  }

  predicate BornOnLeapDay(d: Date) {
    d.month == 2 && d.day == 29
  }

  predicate ShortFebruary(d: Date) {
    d.month == 2 && !IsLeap(d.year)
  }

  lemma PeriodEndIsLastDay(period: string)
    ensures PeriodEnd(period).Some? ==> IsPeriodEnd(PeriodEnd(period).value)
  {
  }

  /** The century digit fixes the birth date, whatever the period. */
  lemma BirthIsFixed(identity: string, a: Date, b: Date)
    requires |Digits(identity)| >= 7
    ensures BirthDate(identity, a) == BirthDate(identity, b)
  {
    assert IsDigit(Digits(identity)[6]);
  }

  /** The seventh digit `d` stands for a century: 1800 for 9 and 0, and otherwise 1900 and 2000 in
      turn, two digits each. */
  lemma CenturyDigit(identity: string, asOf: Date)
    requires |Digits(identity)| >= 7 && BirthDate(identity, asOf).Some?
    ensures var digits := Digits(identity);
            var d := digits[6] as int - '0' as int;
            var birth := BirthDate(identity, asOf).value;
            && birth.year == NumberOf(digits[0..2]) + (if d == 0 || d == 9 then 1800 else 1900 + (d - 1) / 2 % 2 * 100)
            && birth.month == NumberOf(digits[2..4]) && birth.day == NumberOf(digits[4..6])
  {
    var digits := Digits(identity);
    assert IsDigit(digits[6]) && digits[6..][0] == digits[6];
    CenturyOf(digits[6]);
  }

  lemma CenturyOf(c: char)
    requires IsDigit(c)
    ensures var d := c as int - '0' as int;
            && (c in {'1', '2', '5', '6'} <==> d != 0 && d != 9 && (d - 1) / 2 % 2 == 0)
            && (c in {'3', '4', '7', '8'} <==> d != 0 && d != 9 && (d - 1) / 2 % 2 == 1)
            && (c in {'9', '0'} <==> d == 0 || d == 9)
  {
  }

  predicate AllDigits(s: string) {
    forall i :: 0 <= i < |s| ==> IsDigit(s[i])
  }

  lemma {:induction false} SplitAtDash(y: string, m: string)
    requires AllDigits(y) && AllDigits(m)
    ensures Split(m) == [m]
    ensures Split(y + "-" + m) == [y, m]
  {
    SplitWhole(m);
    if y == "" {
      assert y + "-" + m == ['-'] + m;
    } else {
      assert y + "-" + m == [y[0]] + (y[1..] + "-" + m);
      SplitAtDash(y[1..], m);
      assert [y[0]] + y[1..] == y;
    }
  }

  lemma {:induction false} SplitWhole(m: string)
    requires AllDigits(m)
    ensures Split(m) == [m]
  {
    if m != "" {
      SplitWhole(m[1..]);
      assert [m[0]] + m[1..] == m;
    }
  }

  /** A period written as two decimal numbers ends on the last day of that month, and is
      refused exactly when there is no such month or the year is too large. */
  lemma PeriodReads(y: string, m: string)
    requires y != "" && m != "" && AllDigits(y) && AllDigits(m)
    ensures PeriodEnd(y + "-" + m) ==
              if NumberOf(y) < 0x8000_0000 && 1 <= NumberOf(m) <= 12
              then Some(Date(NumberOf(y), NumberOf(m), DaysInMonth(NumberOf(y), NumberOf(m))))
              else None
  {
    var s := y + "-" + m;
    assert s[0] == y[0] && s[|s|-1] == m[|m|-1];
    assert Trim(s) == s;
    SplitAtDash(y, m);
  }

  /** At the end of a month only the months since birth count, except that a leap-day birthday
      is still ahead at the end of a short February. */
  lemma AgeInMonths(birth: Date, asOf: Date)
    requires IsDate(birth) && IsPeriodEnd(asOf)
    ensures var short := if BornOnLeapDay(birth) && ShortFebruary(asOf) then 1 else 0;
            var months := MonthsOf(asOf) - MonthsOf(birth) - short;
            AgeAt(birth, asOf) == months / 12
  {
    TwelfthsOf(asOf.year - birth.year, asOf.month - birth.month);
    TwelfthsOf(asOf.year - birth.year, asOf.month - birth.month - 1);
  }

  lemma TwelfthsOf(years: int, months: int)
    requires -12 <= months < 12
    ensures (12 * years + months) / 12 == if months < 0 then years - 1 else years
  {
  }

  /** The day of birth within its month counts only in the one case of a leap-day birth at the
      end of a short February. */
  lemma DayDoesNotMatter(birth: Date, day: int, asOf: Date)
    requires IsDate(birth) && IsDate(birth.(day := day)) && IsPeriodEnd(asOf)
    ensures AgeAt(birth, asOf) == AgeAt(birth.(day := day), asOf) <==>
              !(asOf.month == birth.month && ShortFebruary(asOf) && (birth.day == 29 <==> day != 29))
  {
  }

  /** A later month end never makes anyone younger. */
  lemma AgeNeverFalls(birth: Date, a: Date, b: Date)
    requires IsDate(birth) && IsPeriodEnd(a) && IsPeriodEnd(b) && MonthsOf(a) <= MonthsOf(b)
    ensures AgeAt(birth, a) <= AgeAt(birth, b)
  {
    if MonthsOf(a) == MonthsOf(b) {
      assert a.year == b.year && a.month == b.month;
    }
  }

  /** A year makes a year, except between a February with a leap-day birthday and one without. */
  lemma AYearLater(birth: Date, a: Date, b: Date)
    requires IsDate(birth) && IsPeriodEnd(a) && IsPeriodEnd(b) && b.year == a.year + 1 && b.month == a.month
    ensures AgeAt(birth, b) == AgeAt(birth, a) +
              if !BornOnLeapDay(birth) || a.month != 2 || (!IsLeap(a.year) && !IsLeap(b.year)) then 1
              else if IsLeap(a.year) then 0
              else 2
  {
  }

  /** The exempt age is reached in the month of the sixty-fifth birthday, and by those born on
      a leap day in the month after. */
  lemma ExemptFrom(birth: Date, asOf: Date)
    requires IsDate(birth) && IsPeriodEnd(asOf)
    ensures AgeAt(birth, asOf) >= EXEMPT_AGE <==>
              MonthsOf(asOf) >= MonthsOf(birth) + 12 * EXEMPT_AGE + if BornOnLeapDay(birth) then 1 else 0
  {
    AgeInMonths(birth, asOf);
    var months := MonthsOf(asOf) - MonthsOf(birth);
    AtLeastTwelfths(months, EXEMPT_AGE);
    AtLeastTwelfths(months - 1, EXEMPT_AGE);
    if BornOnLeapDay(birth) {
      NotLeapAfter65(birth.year);
      if months == 12 * EXEMPT_AGE {
        SameMonth(birth, asOf);
      }
    }
  }

  lemma AtLeastTwelfths(months: int, n: int)
    ensures months / 12 >= n <==> months >= 12 * n
  {
  }

  lemma LeapIsFourth(year: int)
    requires IsLeap(year)
    ensures year % 4 == 0
  {
    if year % 400 == 0 {
      assert year == 4 * (100 * (year / 400));
    }
  }

  lemma NotLeapAfter65(year: int)
    requires IsLeap(year)
    ensures !IsLeap(year + EXEMPT_AGE)
  {
    LeapIsFourth(year);
    OffByOne(year);
    if IsLeap(year + EXEMPT_AGE) {
      LeapIsFourth(year + EXEMPT_AGE);
    }
  }

  lemma OffByOne(year: int)
    requires year % 4 == 0
    ensures (year + EXEMPT_AGE) % 4 == 1
  {
  }

  lemma SameMonth(birth: Date, asOf: Date)
    requires IsDate(birth) && IsDate(asOf) && MonthsOf(asOf) - MonthsOf(birth) == 12 * EXEMPT_AGE
    ensures asOf.year == birth.year + EXEMPT_AGE && asOf.month == birth.month
  {
  }

  // ------------------------------------------------------ over payroll periods

  ghost predicate NotLater(a: string, b: string) {
    PeriodEnd(a).Some? && PeriodEnd(b).Some? && MonthsOf(PeriodEnd(a).value) <= MonthsOf(PeriodEnd(b).value)
  }

  /** With a century digit, age is known in all periods or in none, and never falls. */
  lemma AgeNeverFallsOverPeriods(identity: string, a: string, b: string)
    requires |Digits(identity)| >= 7 && NotLater(a, b)
    ensures Age(identity, a).Some? <==> Age(identity, b).Some?
    ensures Age(identity, a).Some? ==> Age(identity, a).value <= Age(identity, b).value
    ensures IsExemptAge(identity, a) ==> IsExemptAge(identity, b)
  {
    PeriodEndIsLastDay(a);
    PeriodEndIsLastDay(b);
    BirthIsFixed(identity, PeriodEnd(a).value, PeriodEnd(b).value);
    if Age(identity, a).Some? {
      AgeNeverFalls(BirthDate(identity, PeriodEnd(a).value).value, PeriodEnd(a).value, PeriodEnd(b).value);
    }
  }

  // --------------------------------------------------- without a century digit

  function TwoDigitYear(identity: string): int
    requires |Digits(identity)| == 6
  {
    NumberOf(Digits(identity)[0..2])
  }

  lemma TwoDigits(d: string)
    requires |d| == 2 && IsDigit(d[0]) && IsDigit(d[1])
    ensures NumberOf(d) == 10 * (d[0] as int - '0' as int) + (d[1] as int - '0' as int)
    ensures 0 <= NumberOf(d) < 100
  {
    assert d[..1][..0] == "";
    assert NumberOf(d[..1]) == d[0] as int - '0' as int;
  }

  /** The pivot passes the two digits of the year of birth between the two dates, and the
      birth moves a century ahead. */
  predicate PivotPasses(yy: int, a: Date, b: Date) {
    a.year % 100 < yy <= b.year % 100
  }

  lemma SixDigitBirth(identity: string, asOf: Date)
    requires |Digits(identity)| == 6 && BirthDate(identity, asOf).Some?
    ensures var yy := TwoDigitYear(identity);
            && 0 <= yy < 100
            && BirthDate(identity, asOf).value.year == if yy > asOf.year % 100 then 1900 + yy else 2000 + yy
  {
    assert Digits(identity)[6..] == "";
    assert forall i :: 0 <= i < 2 ==> IsDigit(Digits(identity)[0..2][i]);
    TwoDigits(Digits(identity)[0..2]);
  }

  lemma CenturiesAlike(year: int, yy: int, month: int)
    requires 0 < yy < 100
    ensures DaysInMonth(1900 + yy, month) == DaysInMonth(2000 + yy, month)
  {
  }

  lemma SixDigitsKnown(identity: string, a: Date, b: Date)
    requires |Digits(identity)| == 6
    ensures BirthDate(identity, a).Some? <==> BirthDate(identity, b).Some?
    ensures BirthDate(identity, a).Some? ==>
              BirthDate(identity, b).value == BirthDate(identity, a).value.(year := BirthDate(identity, b).value.year)
  {
    var digits := Digits(identity);
    assert digits[6..] == "";
    TwoDigits(digits[0..2]);
    if TwoDigitYear(identity) > 0 {
      CenturiesAlike(a.year, TwoDigitYear(identity), NumberOf(digits[2..4]));
    }
  }

  /** Fewer than a hundred years of life lie between two dates: fewer than a hundred calendar
      years, and not ninety-nine with one birthday more. */
  predicate WithinACentury(birth: Date, a: Date, b: Date) {
    && b.year - a.year < 100
    && !(b.year - a.year == 99 && BirthdayAhead(birth, a) && !BirthdayAhead(birth, b))
  }

  /** Without a century digit age falls exactly when the pivot passes the year of birth within a
      century. */
  lemma SixDigitsFallExactly(identity: string, a: string, b: string)
    requires |Digits(identity)| == 6 && NotLater(a, b) && Age(identity, a).Some?
    ensures Age(identity, b).Some?
    ensures var from_, to := PeriodEnd(a).value, PeriodEnd(b).value;
            Age(identity, b).value < Age(identity, a).value <==>
              && PivotPasses(TwoDigitYear(identity), from_, to)
              && WithinACentury(BirthDate(identity, from_).value, from_, to)
  {
    var from_, to := PeriodEnd(a).value, PeriodEnd(b).value;
    PeriodEndIsLastDay(a);
    PeriodEndIsLastDay(b);
    SixDigitsKnown(identity, from_, to);
    SixDigitBirth(identity, from_);
    SixDigitBirth(identity, to);
    var birth, birth' := BirthDate(identity, from_).value, BirthDate(identity, to).value;
    AgeNeverFalls(birth, from_, to);
    assert AgeAt(birth', to) == AgeAt(birth, to) + birth.year - birth'.year;
    PivotCycle(TwoDigitYear(identity), from_, to);
  }

  /** A hundred years later the pivot stands where it stood. */
  lemma PivotCycle(yy: int, a: Date, b: Date)
    ensures b.year - a.year == 100 ==> !PivotPasses(yy, a, b)
  {
    if b.year - a.year == 100 {
      assert b.year % 100 == (a.year + 100) % 100 == a.year % 100;
    }
  }

  // ------------------------------------------------------ employment insurance

  datatype Status = Exempt | Liable | Unknown

  datatype UnknownDefault = Skip | Deduct

  datatype Verification = Verification(premium: int, managementNo: string)

  datatype Input = Input(
    identity: string, period: string, siteNo: string, unknownDefault: UnknownDefault,
    verification: Option<Verification>)

  datatype Outcome = Outcome(
    status: Status, premium: Option<int>, managementNo: string, deduct: bool, default_: UnknownDefault)

  /** `resolve_ei_65_for_payroll`, without the warning text. */
  function Resolve(input: Input): Outcome {
    if !IsExemptAge(Trim(input.identity), Trim(input.period)) then Outcome(Liable, None, "", true, Skip)
    else
      match input.verification
      case Some(record) =>
        var premium := if record.premium < 0 then 0 else record.premium;
        var status := if premium <= 0 then Exempt else Liable;
        var number := if Trim(record.managementNo) == "" then Trim(input.siteNo) else Trim(record.managementNo);
        Outcome(status, Some(premium), number, status == Liable, Skip)
      case None =>
        Outcome(Unknown, None, Trim(input.siteNo), input.unknownDefault == Deduct, input.unknownDefault)
  }

  lemma {:induction false} DigitsSnoc(s: string, c: char)
    ensures Digits(s + [c]) == Digits(s) + if IsDigit(c) then [c] else ""
  {
    if s != "" {
      assert (s + [c])[1..] == s[1..] + [c];
      DigitsSnoc(s[1..], c);
    }
  }

  lemma {:induction false} DigitsOfTrimmed(s: string)
    ensures Digits(Trim(s)) == Digits(s)
  {
    if s != "" && IsWhite(s[0]) {
      DigitsOfTrimmed(s[1..]);
    } else if s != "" && IsWhite(s[|s|-1]) {
      var init, c := s[..|s|-1], s[|s|-1];
      assert s == init + [c];
      DigitsSnoc(init, c);
      DigitsOfTrimmed(init);
    }
  }

  /** Once an employee with a century digit is spared the deduction, no later period of the
      same record deducts again. */
  lemma OnceSparedAlwaysSpared(input: Input, later: string)
    requires |Digits(input.identity)| >= 7 && NotLater(input.period, later)
    ensures !Resolve(input).deduct ==> Resolve(input.(period := later)) == Resolve(input)
  {
    DigitsOfTrimmed(input.identity);
    TrimIdempotent(input.period);
    TrimIdempotent(later);
    AgeNeverFallsOverPeriods(Trim(input.identity), Trim(input.period), Trim(later));
  }

  /** Six digits are not enough: someone who is 99 at the end of 2059 is newborn a month later. */
  lemma SixDigitsCanFall() returns (identity: string, december: string, january: string)
    ensures identity == "600101" && december == "2059-12" && january == "2060-01"
    ensures Age(identity, december) == Some(99) && Age(identity, january) == Some(0)
  {
    identity := "600101";
    december := EndOf2059(identity);
    january := StartOf2060(identity);
  }

  lemma EndOf2059(identity: string) returns (period: string)
    requires identity == "600101"
    ensures period == "2059-12" && Age(identity, period) == Some(99)
  {
    var y, m := "2059", "12";
    period := y + "-" + m;
    NewYearsChild(identity, y, m, period, 2059, 12);
  }

  lemma StartOf2060(identity: string) returns (period: string)
    requires identity == "600101"
    ensures period == "2060-01" && Age(identity, period) == Some(0)
  {
    var y, m := "2060", "01";
    period := y + "-" + m;
    NewYearsChild(identity, y, m, period, 2060, 1);
  }

  /** The age of someone born on 1 January of a year ending in 60, by six digits. */
  lemma NewYearsChild(digits: string, y: string, m: string, period: string, year: int, month: int)
    requires |digits| == 6 && AllDigits(digits) && DigitAt(digits, 0) == 6
    requires DigitAt(digits, 1) == DigitAt(digits, 2) == DigitAt(digits, 4) == 0
    requires DigitAt(digits, 3) == DigitAt(digits, 5) == 1
    requires WritesYear(y, year) && WritesMonth(m, month) && period == y + "-" + m
    ensures Age(digits, period) == Some(year - PivotYear(60, Date(year, month, DaysInMonth(year, month))))
  {
    DigitsOnly(digits);
    NewYearsDay(digits, Date(year, month, DaysInMonth(year, month)));
    PeriodOf(y, m, year, month);
  }

  predicate WritesYear(y: string, year: int) {
    && |y| == 4 && AllDigits(y) && 0 <= year < 10_000
    && year == DigitAt(y, 0) * 1000 + DigitAt(y, 1) * 100 + DigitAt(y, 2) * 10 + DigitAt(y, 3)
  }

  predicate WritesMonth(m: string, month: int) {
    |m| == 2 && AllDigits(m) && 1 <= month <= 12 && month == DigitAt(m, 0) * 10 + DigitAt(m, 1)
  }

  lemma PeriodOf(y: string, m: string, year: int, month: int)
    requires WritesYear(y, year) && WritesMonth(m, month)
    ensures PeriodEnd(y + "-" + m) == Some(Date(year, month, DaysInMonth(year, month)))
  {
    TwoDigits(m);
    TwoDigits(y[..2]);
    assert y[..3][..2] == y[..2] && y[..4] == y;
    assert NumberOf(y[..3]) == NumberOf(y[..2]) * 10 + DigitAt(y, 2);
    assert NumberOf(y) == NumberOf(y[..3]) * 10 + DigitAt(y, 3);
    PeriodReads(y, m);
  }

  function DigitAt(s: string, i: nat): int
    requires i < |s|
  {
    s[i] as int - '0' as int
  }

  lemma NewYearsDay(digits: string, asOf: Date)
    requires |digits| == 6 && AllDigits(digits) && Digits(digits) == digits && DigitAt(digits, 0) == 6
    requires DigitAt(digits, 1) == DigitAt(digits, 2) == DigitAt(digits, 4) == 0
    requires DigitAt(digits, 3) == DigitAt(digits, 5) == 1
    ensures BirthDate(digits, asOf) == Some(Date(PivotYear(60, asOf), 1, 1))
  {
    TwoDigits(digits[0..2]);
    TwoDigits(digits[2..4]);
    TwoDigits(digits[4..6]);
  }

  lemma {:induction false} DigitsOnly(s: string)
    requires forall i :: 0 <= i < |s| ==> IsDigit(s[i])
    ensures Digits(s) == s
  {
    if s != "" {
      DigitsOnly(s[1..]);
    }
  }
}
