/** What identities, periods and the employment-insurance record say, and what is decided from
    them: the texts in the words of their writers, and the answers with what they take. */
module AgeTexts {
  import opened Options
  import opened PayrollAge
  import opened Text

  // ----------------------------------------------------- what is decided

  ghost predicate IsSixtyFive(input: Input) {
    var age := Age(Trim(input.identity), Trim(input.period));
    age.Some? && age.value >= 65
  }

  /** Each answer with what it takes: exempt are those of 65 and more who are recorded without a
      premium, unknown those of that age without a record, and only these two can be spared. */
  lemma AnswersMean(input: Input)
    ensures var out, record := Resolve(input), input.verification;
            && (out.status == Exempt <==> IsSixtyFive(input) && record.Some? && record.value.premium <= 0)
            && (out.status == Unknown <==> IsSixtyFive(input) && record.None?)
            && (!out.deduct <==> out.status == Exempt || (out.status == Unknown && input.unknownDefault == Skip))
            && (out.premium.Some? <==> IsSixtyFive(input) && record.Some?)
            && (out.premium.Some? ==> out.premium.value >= 0 && (out.premium.value > 0 <==> record.value.premium > 0))
            && (out.premium.Some? && out.status == Liable ==> out.premium == Some(record.value.premium))
            && (out.default_ == Deduct <==> out.status == Unknown && input.unknownDefault == Deduct)
  {
  }

  /** Whose number the answer carries: that of the record, or else that of the site, and none
      under 65. */
  lemma NumberMeans(input: Input)
    ensures var number, record := Resolve(input).managementNo, input.verification;
            && (!IsSixtyFive(input) ==> number == "")
            && (IsSixtyFive(input) && record.Some? && Trim(record.value.managementNo) != "" ==>
                  number == Trim(record.value.managementNo))
            && (IsSixtyFive(input) && (record.None? || Trim(record.value.managementNo) == "") ==>
                  number == Trim(input.siteNo))
  {
  }

  // -------------------------------------------------------- the calendar

  /** The number of a day in the Gregorian calendar, with years that start in March. */
  function DayNumber(year: int, month: int, day: int): int {
    var y, m := if month <= 2 then year - 1 else year, (month + 9) % 12;
    365 * y + y / 4 - y / 100 + y / 400 + (153 * m + 2) / 5 + day
  }

  /** A month is as long as it is from its first day to the first day of the next. */
  lemma MonthLength(year: int, month: int)
    requires 1 <= month <= 12
    ensures DaysInMonth(year, month) ==
              (if month == 12 then DayNumber(year + 1, 1, 1) else DayNumber(year, month + 1, 1))
              - DayNumber(year, month, 1)
  {
    if month == 2 { FebruaryLength(year); }
  }

  lemma FebruaryLength(year: int)
    ensures DayNumber(year, 3, 1) - DayNumber(year, 2, 1) == DaysInMonth(year, 2)
  {
    OneMoreMultiple(year, 4);
    OneMoreMultiple(year, 100);
    OneMoreMultiple(year, 400);
    LeapIsMultiple(year);
  }

  lemma OneMoreMultiple(n: int, d: int)
    requires d == 4 || d == 100 || d == 400
    ensures n / d - (n - 1) / d == if n % d == 0 then 1 else 0
  {
  }

  lemma LeapIsMultiple(year: int)
    ensures year % 400 == 0 ==> year % 100 == 0
    ensures year % 100 == 0 ==> year % 4 == 0
  {
    if year % 400 == 0 { Multiple(year, 100, 4 * (year / 400)); }
    if year % 100 == 0 { Multiple(year, 4, 25 * (year / 100)); }
  }

  lemma Multiple(n: int, d: int, k: int)
    requires (d == 4 || d == 100) && n == d * k
    ensures n % d == 0
  {
  }

  // ------------------------------------------------------ what a period says

  /** Decimal digits, with or without a plus sign in front, that stand for `n`. */
  ghost predicate Writes(s: string, n: int) {
    exists digits :: Numeral(digits) && NumberOf(digits) == n && (s == digits || s == "+" + digits)
  }

  predicate Numeral(digits: string) {
    digits != "" && AllDigits(digits)
  }

  /** A number is read from exactly the texts that write it, up to the largest one. */
  lemma NumberReads(s: string, max: int, n: int)
    ensures ParseNumber(s, max) == Some(n) <==> Writes(s, n) && n <= max
  {
    if s != "" && s[0] == '+' {
      PlusReads(s, s[1..], max, n);
    } else {
      PlainReads(s, max, n);
    }
  }

  lemma PlainReads(s: string, max: int, n: int)
    requires s == "" || s[0] != '+'
    ensures ParseNumber(s, max) == Some(n) <==> Numeral(s) && NumberOf(s) == n && n <= max
    ensures Writes(s, n) <==> Numeral(s) && NumberOf(s) == n
  {
  }

  lemma PlusReads(s: string, digits: string, max: int, n: int)
    requires s == "+" + digits && digits == s[1..]
    ensures ParseNumber(s, max) == Some(n) <==> Numeral(digits) && NumberOf(digits) == n && n <= max
    ensures Writes(s, n) <==> Numeral(digits) && NumberOf(digits) == n
  {
    forall other | Numeral(other) ensures s != other && (s == "+" + other ==> other == digits) {
      assert IsDigit(other[0]) && ("+" + other)[1..] == other;
    }
  }

  lemma SplitFirst(c: char, rest: string)
    ensures Split([c] + rest) ==
              if c == '-' then [""] + Split(rest) else [[c] + Split(rest)[0]] + Split(rest)[1..]
    ensures '-' in [c] + rest <==> c == '-' || '-' in rest
  {
    assert ([c] + rest)[1..] == rest;
  }

  lemma SplitFirstIs(c: char, parts: seq<string>, t: string, more: seq<string>)
    requires parts != [] && t != ""
    ensures [[c] + parts[0]] + parts[1..] == [t] + more <==> t[0] == c && parts == [t[1..]] + more
  {
    assert parts == [parts[0]] + parts[1..] && t == [t[0]] + t[1..];
    if [[c] + parts[0]] + parts[1..] == [t] + more {
      assert ([[c] + parts[0]] + parts[1..])[0] == t && ([[c] + parts[0]] + parts[1..])[1..] == more;
    }
    if parts == [t[1..]] + more {
      assert parts[0] == t[1..] && parts[1..] == more;
    }
  }

  lemma {:induction false} SplitOne(s: string, t: string)
    ensures Split(s) == [t] <==> s == t && '-' !in s
  {
    if s != "" {
      var c, rest := s[0], s[1..];
      assert s == [c] + rest;
      SplitFirst(c, rest);
      if c != '-' && t != "" {
        SplitOne(rest, t[1..]);
        SplitFirstIs(c, Split(rest), t, []);
        assert t == [t[0]] + t[1..];
        assert [t] + [] == [t] && [t[1..]] + [] == [t[1..]];
      } else if c != '-' {
        assert Split(s)[0] == [c] + Split(rest)[0];
      } else {
        assert |Split(s)| >= 2;
      }
    }
  }

  lemma {:induction false} SplitTwo(s: string, y: string, m: string)
    ensures Split(s) == [y, m] <==> s == y + "-" + m && '-' !in y && '-' !in m
  {
    if s == "" {
      assert |Split(s)| == 1;
    } else {
      var c, rest := s[0], s[1..];
      assert s == [c] + rest;
      SplitFirst(c, rest);
      if c == '-' {
        SplitOne(rest, m);
        DashFirst(rest, y, m);
      } else if y != "" {
        SplitTwo(rest, y[1..], m);
        SplitFirstIs(c, Split(rest), y, [m]);
        assert y == [y[0]] + y[1..] && y + "-" + m == [y[0]] + (y[1..] + "-" + m);
        assert [y] + [m] == [y, m] && [y[1..]] + [m] == [y[1..], m];
      } else {
        assert y + "-" + m == ['-'] + m;
        assert Split(s)[0] == [c] + Split(rest)[0];
      }
    }
  }

  lemma DashFirst(rest: string, y: string, m: string)
    ensures [""] + Split(rest) == [y, m] <==> y == "" && Split(rest) == [m]
    ensures ['-'] + rest == y + "-" + m && '-' !in y <==> y == "" && rest == m
  {
    assert ([""] + Split(rest))[0] == "" && [y, m][0] == y;
    assert y != "" ==> y[0] in y;
    assert ([""] + Split(rest))[1..] == Split(rest) && [y, m][1..] == [m];
    if y == "" {
      assert y + "-" + m == ['-'] + m && (['-'] + rest)[1..] == rest && (['-'] + m)[1..] == m;
    } else if ['-'] + rest == y + "-" + m {
      assert y[0] == (y + "-" + m)[0] == (['-'] + rest)[0] == '-';
    }
  }

  /** A text is a period exactly when, but for white space around it, it is a year, a dash and a
      month from 1 to 12, each in decimal digits with or without a plus sign; it ends on the last
      day of that month. */
  lemma PeriodMeans(period: string, date: Date)
    ensures PeriodEnd(period) == Some(date) <==>
              && (exists y, m :: Trim(period) == y + "-" + m && Writes(y, date.year) && Writes(m, date.month))
              && date.year <= 2_147_483_647 && 1 <= date.month <= 12
              && date.day == DaysInMonth(date.year, date.month)
  {
    var parts := Split(Trim(period));
    if |parts| == 2 {
      SplitTwo(Trim(period), parts[0], parts[1]);
      NumberReads(parts[0], 0x7fff_ffff, date.year);
      NumberReads(parts[1], 255, date.month);
    }
    if y, m :| Trim(period) == y + "-" + m && Writes(y, date.year) && Writes(m, date.month) {
      WritesNoDash(y, date.year);
      WritesNoDash(m, date.month);
      SplitTwo(Trim(period), y, m);
      NumberReads(y, 0x7fff_ffff, date.year);
      NumberReads(m, 255, date.month);
    }
  }

  lemma WritesNoDash(s: string, n: int)
    requires Writes(s, n)
    ensures '-' !in s
  {
    var digits :| Numeral(digits) && NumberOf(digits) == n && (s == digits || s == "+" + digits);
    if s == digits { DigitsNoDash(digits); } else { DigitsNoDash(digits); assert '-' !in "+"; }
  }

  lemma DigitsNoDash(digits: string)
    requires AllDigits(digits)
    ensures '-' !in digits
  {
    forall i | 0 <= i < |digits| ensures digits[i] != '-' { assert IsDigit(digits[i]); }
  }

  // -------------------------------------------------- what an identity says

  /** The year of birth: in the century that the seventh digit stands for, and where there is none
      in the last hundred years that end with the year of the period. */
  ghost predicate BornIn(digits: string, asOf: Date, year: int)
    requires |digits| >= 6 && AllDigits(digits)
  {
    var yy := NumberOf(digits[0..2]);
    if |digits| == 6 then year == yy + if yy <= asOf.year % 100 then 2000 else 1900
    else year == yy + (match digits[6]
                       case '9' => 1800 case '0' => 1800
                       case '1' => 1900 case '2' => 1900 case '5' => 1900 case '6' => 1900
                       case _ => 2000)
  }

  /** An identity tells a date of birth exactly when it has six digits and these are the year in
      its century, the month and the day of a date. */
  lemma BirthMeans(identity: string, asOf: Date, birth: Date)
    ensures var digits := Digits(identity);
            BirthDate(identity, asOf) == Some(birth) <==>
              && |digits| >= 6 && BornIn(digits, asOf, birth.year)
              && birth.month == NumberOf(digits[2..4]) && birth.day == NumberOf(digits[4..6])
              && 1 <= birth.month <= 12 && 1 <= birth.day <= DaysInMonth(birth.year, birth.month)
  {
    var digits := Digits(identity);
    if |digits| >= 6 {
      TwoDigits(digits[0..2]);
      if |digits| > 6 {
        assert IsDigit(digits[6]) && digits[6..][0] == digits[6];
      } else {
        assert digits[6..] == "";
      }
    }
  }
}
