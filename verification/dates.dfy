/** The date check the controllers make with `datetime.strptime(answer, '%d/%m/%Y')`:
    a day of one or two digits, a month of one or two digits and a year of exactly four
    digits, separated by '/', naming a day of the proleptic Gregorian calendar. */
module Dates {
  import opened Text

  predicate IsLeapYear(y: int)
  {
    y % 4 == 0 && (y % 100 != 0 || y % 400 == 0)
  }

  function DaysInMonth(m: int, y: int): int
    requires 1 <= m <= 12
  {
    if m == 2 then (if IsLeapYear(y) then 29 else 28)
    else if m == 4 || m == 6 || m == 9 || m == 11 then 30
    else 31
  }

  /** The position of the first c in s, |s| when there is none. */
  function IndexOf(s: string, c: char): (r: nat)
    ensures r <= |s|
    ensures r < |s| ==> s[r] == c
    ensures forall i :: 0 <= i < r ==> s[i] != c
    decreases |s|
  {
    if s == [] then 0 else if s[0] == c then 0 else 1 + IndexOf(s[1..], c)
  }

  /** A `%d` or `%m` field: one or two ASCII digits. */
  predicate IsNumberField(t: string)
  {
    1 <= |t| <= 2 && AllDigits(t)
  }

  predicate IsCalendarDate(d: int, m: int, y: int)
  {
    1 <= m <= 12 && 1 <= y && 1 <= d <= DaysInMonth(m, y)
  }

  /** `strptime(s, '%d/%m/%Y')` succeeds. */
  predicate ValidDate(s: string)
  {
    var i := IndexOf(s, '/');
    i < |s| &&
    var rest := s[i + 1..];
    var j := IndexOf(rest, '/');
    j < |rest| &&
    var day := s[..i];
    var month := rest[..j];
    var year := rest[j + 1..];
    IsNumberField(day) && IsNumberField(month) && |year| == 4 && AllDigits(year) &&
    IsCalendarDate(DigitsValue(day), DigitsValue(month), DigitsValue(year))
  }

  /** n written with exactly `width` digits, zero-padded. */
  function Padded(n: nat, width: nat): (r: string)
    ensures |r| == width && AllDigits(r)
    ensures n < Pow10(width) ==> DigitsValue(r) == n
    decreases width
  {
    if width == 0 then []
    else
      var r := Padded(n / 10, width - 1) + [DigitChar(n % 10)];
      assert r[..width - 1] == Padded(n / 10, width - 1);
      r
  }

  function Pow10(k: nat): nat
  {
    if k == 0 then 1 else 10 * Pow10(k - 1)
  }

  /** The dd/mm/yyyy spelling of a date. */
  function FormatDate(d: nat, m: nat, y: nat): string
  {
    Padded(d, 2) + "/" + Padded(m, 2) + "/" + Padded(y, 4)
  }

  /** After a two-digit field, the first '/' is the one that follows it. */
  lemma SlashAfterTwoDigits(field: string, rest: string)
    requires |field| == 2 && AllDigits(field)
    ensures IndexOf(field + "/" + rest, '/') == 2
  {
    var s := field + "/" + rest;
    assert IsDigit(s[0]) && IsDigit(s[1]);
    assert s[1..][0] == s[1] && s[1..][1..] == s[2..] && s[2..][0] == '/';
  }

  /** Two-digit day and month fields and a four-digit year field that name a calendar
      date, joined by '/', pass the check. */
  lemma JoinedFieldsAreValid(dd: string, mm: string, yy: string)
    requires |dd| == 2 && |mm| == 2 && |yy| == 4
    requires AllDigits(dd) && AllDigits(mm) && AllDigits(yy)
    requires IsCalendarDate(DigitsValue(dd), DigitsValue(mm), DigitsValue(yy))
    ensures ValidDate(dd + "/" + mm + "/" + yy)
  {
    var rest := mm + "/" + yy;
    var s := dd + "/" + mm + "/" + yy;
    assert s == dd + "/" + rest;
    SlashAfterTwoDigits(dd, rest);
    assert s[3..] == rest && s[..2] == dd;
    SlashAfterTwoDigits(mm, yy);
    assert rest[..2] == mm && rest[3..] == yy;
  }

  /** Every calendar date of years 1 to 9999 written dd/mm/yyyy passes the check. */
  lemma FormattedDateIsValid(d: nat, m: nat, y: nat)
    requires IsCalendarDate(d, m, y) && y <= 9999
    ensures ValidDate(FormatDate(d, m, y))
  {
    assert Pow10(2) == 100 && Pow10(4) == 10000;
    JoinedFieldsAreValid(Padded(d, 2), Padded(m, 2), Padded(y, 4));
  }

  /** A date the check accepts is 8 to 10 characters long, with a day of 1 to 31 and a
      month of 1 to 12. */
  lemma ValidDateShape(s: string)
    requires ValidDate(s)
    ensures 8 <= |s| <= 10
    ensures var i := IndexOf(s, '/');
      var rest := s[i + 1..];
      var j := IndexOf(rest, '/');
      && i < |s| && j < |rest| && AllDigits(s[..i]) && AllDigits(rest[..j])
      && 1 <= DigitsValue(s[..i]) <= 31 && 1 <= DigitsValue(rest[..j]) <= 12
  {
  }

  /** A dd/mm/yyyy spelling passes the check exactly when its fields name a calendar
      date: the check accepts what FormatDate writes, and nothing else of that form. */
  lemma FormattedDateRoundTrip(d: nat, m: nat, y: nat)
    requires d < 100 && m < 100 && y <= 9999
    ensures ValidDate(FormatDate(d, m, y)) <==> IsCalendarDate(d, m, y)
  {
    assert Pow10(2) == 100 && Pow10(4) == 10000;
    if IsCalendarDate(d, m, y) {
      JoinedFieldsAreValid(Padded(d, 2), Padded(m, 2), Padded(y, 4));
    } else if ValidDate(FormatDate(d, m, y)) {
      JoinedFieldsAreOnlyValidDates(Padded(d, 2), Padded(m, 2), Padded(y, 4));
    }
  }

  /** Two-digit day and month fields and a four-digit year field joined by '/' pass the
      check only when they name a calendar date. */
  lemma JoinedFieldsAreOnlyValidDates(dd: string, mm: string, yy: string)
    requires |dd| == 2 && |mm| == 2 && |yy| == 4
    requires AllDigits(dd) && AllDigits(mm) && AllDigits(yy)
    requires ValidDate(dd + "/" + mm + "/" + yy)
    ensures IsCalendarDate(DigitsValue(dd), DigitsValue(mm), DigitsValue(yy))
  {
    var rest := mm + "/" + yy;
    var s := dd + "/" + mm + "/" + yy;
    assert s == dd + "/" + rest;
    SlashAfterTwoDigits(dd, rest);
    assert s[3..] == rest && s[..2] == dd;
    SlashAfterTwoDigits(mm, yy);
    assert rest[..2] == mm && rest[3..] == yy;
  }

  /** 29 February of a year from 1 to 9999 passes the check exactly in leap years:
      years divisible by 4, except centuries not divisible by 400. */
  lemma LeapYearRule(y: nat)
    requires 1 <= y <= 9999
    ensures ValidDate(FormatDate(29, 2, y)) <==> y % 4 == 0 && (y % 100 != 0 || y % 400 == 0)
  {
    FormattedDateRoundTrip(29, 2, y);
  }
}
