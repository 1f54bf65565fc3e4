/** Calendar dates `YYYY-MM-DD`: parsing, printing, and the count of civil days. */
module Dates {
  import opened Wrappers

  function IsLeap(year: int): bool {
    year % 4 == 0 && (year % 100 != 0 || year % 400 == 0)
  }

  /** Days in a month from 1 to 12. */
  function DaysInMonth(year: int, month: int): int {
    if month == 4 || month == 6 || month == 9 || month == 11 then 30
    else if month != 2 then 31
    else if IsLeap(year) then 29
    else 28
  }

  /** A day of the proleptic Gregorian calendar. */
  ghost predicate IsDay(year: int, month: int, day: int) {
    1 <= month <= 12 && 1 <= day <= DaysInMonth(year, month)
  }

  datatype RawDate = RawDate(year: nat, month: nat, day: nat)

  predicate IsRealDate(d: RawDate) {
    d.year <= 9999 && 1 <= d.month <= 12 && 1 <= d.day <= DaysInMonth(d.year, d.month)
  }

  /** A date that exists, with a four-digit year. */
  type Date = d: RawDate | IsRealDate(d) witness RawDate(1970, 1, 1)

  function NewDate(year: nat, month: nat, day: nat): Option<Date> {
    if year > 9999 || month == 0 || month > 12 || day == 0 || day > DaysInMonth(year, month) then None
    else Some(RawDate(year, month, day))
  }

  // ---- text ----

  predicate IsDigit(c: char) {
    '0' <= c <= '9'
  }

  function DigitValue(c: char): nat
    requires IsDigit(c)
  {
    c as int - '0' as int
  }

  function DigitChar(n: nat): (c: char)
    requires n < 10
    ensures IsDigit(c) && DigitValue(c) == n
  {
    (n + '0' as int) as char
  }

  /** The number a digit string writes; `None` on any non-digit. */
  function AsciiNumber(s: string): (r: Option<nat>)
    ensures r.Some? <==> forall i :: 0 <= i < |s| ==> IsDigit(s[i])
  {
    if s == "" then Some(0) else
    var init := AsciiNumber(s[..|s| - 1]);
    assert forall i :: 0 <= i < |s| - 1 ==> s[..|s| - 1][i] == s[i];
    var last := s[|s| - 1];
    if init.None? || !IsDigit(last) then None else Some(init.value * 10 + DigitValue(last))
  }

  /** Reads the digits from the left, each one shifting those before it. */
  method ReadNumber(digits: string) returns (r: Option<nat>)
    ensures r == AsciiNumber(digits)
  {
    var n := 0;
    for i := 0 to |digits|
      invariant AsciiNumber(digits[..i]) == Some(n)
    {
      assert digits[..i + 1][..i] == digits[..i];
      if !IsDigit(digits[i]) {
        return None;
      }
      n := n * 10 + DigitValue(digits[i]);
    }
    assert digits[..|digits|] == digits;
    return Some(n);
  }

  /** `n` in exactly `width` digits. */
  function Padded(n: nat, width: nat): (s: string)
    ensures |s| == width && forall i :: 0 <= i < |s| ==> IsDigit(s[i])
  {
    if width == 0 then "" else Padded(n / 10, width - 1) + [DigitChar(n % 10)]
  }

  function Pow10(n: nat): nat {
    if n == 0 then 1 else 10 * Pow10(n - 1)
  }

  lemma {:induction false} NumberOfPadded(n: nat, width: nat)
    requires n < Pow10(width)
    ensures AsciiNumber(Padded(n, width)) == Some(n)
  {
    if width > 0 {
      var init := Padded(n / 10, width - 1);
      NumberOfPadded(n / 10, width - 1);
      assert (init + [DigitChar(n % 10)])[..width - 1] == init;
    }
  }

  lemma {:induction false} PaddedOfNumber(s: string)
    requires AsciiNumber(s).Some?
    ensures Padded(AsciiNumber(s).value, |s|) == s
    ensures AsciiNumber(s).value < Pow10(|s|)
  {
    hide Padded, AsciiNumber, Pow10;
    NumberStep(s);
    PowerStep(|s|);
    if s != "" {
      var init, last := s[..|s| - 1], s[|s| - 1];
      PaddedOfNumber(init);
      PaddedStep(AsciiNumber(init).value, DigitValue(last), |init|);
      assert s == init + [last];
    } else {
      NothingPadded();
    }
  }

  lemma NumberStep(s: string)
    requires AsciiNumber(s).Some?
    ensures if s == "" then AsciiNumber(s) == Some(0) else
            var init, last := AsciiNumber(s[..|s| - 1]), s[|s| - 1];
            init.Some? && IsDigit(last) && AsciiNumber(s) == Some(init.value * 10 + DigitValue(last))
  {
  }

  lemma PowerStep(n: nat)
    ensures Pow10(n) == if n == 0 then 1 else 10 * Pow10(n - 1)
  {
  }

  lemma PaddedStep(n: nat, digit: nat, width: nat)
    requires digit < 10
    ensures Padded(n * 10 + digit, width + 1) == Padded(n, width) + [DigitChar(digit)]
  {
    assert (n * 10 + digit) / 10 == n && (n * 10 + digit) % 10 == digit;
  }

  lemma NothingPadded()
    ensures Padded(0, 0) == ""
  {
  }

  /** Exactly `YYYY-MM-DD`, and a day that exists. */
  function ParseDate(s: string): Option<Date> {
    if |s| != 10 || s[4] != '-' || s[7] != '-' then None else
    match (AsciiNumber(s[0..4]), AsciiNumber(s[5..7]), AsciiNumber(s[8..10]))
    case (Some(year), Some(month), Some(day)) => NewDate(year, month, day)
    case _ => None
  }

  function ShowDate(d: Date): (s: string)
    ensures |s| == 10 && s[4] == '-' && s[7] == '-'
    ensures forall i :: 0 <= i < 10 && i != 4 && i != 7 ==> IsDigit(s[i])
  {
    Padded(d.year, 4) + "-" + Padded(d.month, 2) + "-" + Padded(d.day, 2)
  }

  /** `dddd-dd-dd` by shape, a day that exists or not. */
  predicate HasDateShape(s: string) {
    |s| == 10 && s[4] == '-' && s[7] == '-' && forall i :: 0 <= i < 10 && i != 4 && i != 7 ==> IsDigit(s[i])
  }

  /** A date survives being printed and parsed. */
  lemma ParseShow(d: Date)
    ensures ParseDate(ShowDate(d)) == Some(d)
  {
    hide Padded, AsciiNumber, Pow10, DaysInMonth;
    var s := ShowDate(d);
    assert s[0..4] == Padded(d.year, 4) && s[5..7] == Padded(d.month, 2) && s[8..10] == Padded(d.day, 2);
    Powers();
    DaysAreFew(d.year, d.month);
    NumberOfPadded(d.year, 4);
    NumberOfPadded(d.month, 2);
    NumberOfPadded(d.day, 2);
  }

  lemma Powers()
    ensures Pow10(2) == 100 && Pow10(4) == 10000
  {
    assert Pow10(4) == 10 * (10 * Pow10(2));
  }

  lemma DaysAreFew(year: int, month: int)
    requires 1 <= month <= 12
    ensures DaysInMonth(year, month) <= 31
  {
  }

  /** Only one text parses to a date: the one it prints as. */
  lemma ShowParse(s: string)
    requires ParseDate(s).Some?
    ensures ShowDate(ParseDate(s).value) == s
    ensures HasDateShape(s)
  {
    PaddedOfNumber(s[0..4]);
    PaddedOfNumber(s[5..7]);
    PaddedOfNumber(s[8..10]);
    assert s == s[0..4] + "-" + s[5..7] + "-" + s[8..10];
  }

  /** A printed date is its year, month and day in decimal digits, in that order. */
  lemma DateDigits(d: Date)
    ensures var s := ShowDate(d);
            && 1000 * DigitValue(s[0]) + 100 * DigitValue(s[1]) + 10 * DigitValue(s[2]) + DigitValue(s[3]) == d.year
            && 10 * DigitValue(s[5]) + DigitValue(s[6]) == d.month
            && 10 * DigitValue(s[8]) + DigitValue(s[9]) == d.day
  {
    hide Padded, DaysInMonth;
    var s := ShowDate(d);
    DaysAreFew(d.year, d.month);
    FourDigits(d.year);
    TwoDigits(d.month);
    TwoDigits(d.day);
    assert s[0..4] == Padded(d.year, 4) && s[5..7] == Padded(d.month, 2) && s[8..10] == Padded(d.day, 2);
    assert s[0] == s[0..4][0] && s[1] == s[0..4][1] && s[2] == s[0..4][2] && s[3] == s[0..4][3];
    assert s[5] == s[5..7][0] && s[6] == s[5..7][1] && s[8] == s[8..10][0] && s[9] == s[8..10][1];
  }

  lemma TwoDigits(n: nat)
    requires n < 100
    ensures var s := Padded(n, 2); 10 * DigitValue(s[0]) + DigitValue(s[1]) == n
  {
    var s := Padded(n, 2);
    assert Padded(n / 10, 1) == Padded(n / 100, 0) + [DigitChar(n / 10 % 10)];
    assert s == Padded(n / 10, 1) + [DigitChar(n % 10)];
  }

  lemma LastDigit(n: nat, width: nat)
    requires width > 0
    ensures var s := Padded(n, width); s[..width - 1] == Padded(n / 10, width - 1) && DigitValue(s[width - 1]) == n % 10
  {
  }

  lemma FourDigits(n: nat)
    requires n < 10000
    ensures var s := Padded(n, 4);
            1000 * DigitValue(s[0]) + 100 * DigitValue(s[1]) + 10 * DigitValue(s[2]) + DigitValue(s[3]) == n
  {
    hide Padded;
    var s, t, u := Padded(n, 4), Padded(n / 10, 3), Padded(n / 10 / 10, 2);
    LastDigit(n, 4);
    LastDigit(n / 10, 3);
    TwoDigits(n / 10 / 10);
    assert s[0] == t[0] == u[0] && s[1] == t[1] == u[1] && s[2] == t[2];
  }

  // ---- the count of days ----

  /** Days since 1970-01-01, with years that start in March and eras of 400 of them. */
  function DaysFromCivil(year: int, month: int, day: int): int {
    var y := if month <= 2 then year - 1 else year;
    var era := y / 400;
    var yoe := y - era * 400;
    var mp := (month + 9) % 12;
    var doy := (153 * mp + 2) / 5 + day - 1;
    var doe := yoe * 365 + yoe / 4 - yoe / 100 + doy;
    era * 146097 + doe - 719468
  }

  /** Days before the March that starts year `y`. */
  ghost function YearStart(y: int): int {
    var yoe := y % 400;
    y / 400 * 146097 + yoe * 365 + yoe / 4 - yoe / 100 - 719468
  }

  /** Days before month `mp` of a year that starts in March. */
  ghost function MonthStart(mp: int): int {
    (153 * mp + 2) / 5
  }

  ghost function MarchYear(year: int, month: int): int {
    if month <= 2 then year - 1 else year
  }

  ghost function MarchMonth(month: int): int {
    (month + 9) % 12
  }

  lemma CivilSplits(year: int, month: int, day: int)
    ensures DaysFromCivil(year, month, day) == YearStart(MarchYear(year, month)) + MonthStart(MarchMonth(month)) + day - 1
  {
  }

  lemma Multiple4(q: int, n: int)
    ensures (4 * q + n) % 4 == n % 4
  {
  }

  lemma Multiple100(q: int, n: int)
    ensures (100 * q + n) % 100 == n % 100
  {
  }

  lemma Multiple400(q: int, n: int)
    ensures (400 * q + n) % 400 == n % 400 && (400 * q + n) / 400 == q + n / 400
  {
  }

  lemma LeapOfEra(era: int, n: int)
    ensures IsLeap(400 * era + n) == IsLeap(n)
  {
    Multiple4(100 * era, n);
    Multiple100(4 * era, n);
    Multiple400(era, n);
    assert 400 * era + n == 4 * (100 * era) + n == 100 * (4 * era) + n;
  }

  lemma YearOfEra(n: int)
    requires 0 <= n < 400
    ensures var next := (n + 1) % 400;
            (n + 1) / 400 * 146097 + next * 365 + next / 4 - next / 100 ==
            n * 365 + n / 4 - n / 100 + if IsLeap(n + 1) then 366 else 365
  {
    NextQuotient(n, 4);
    NextQuotient(n, 100);
    if n < 399 {
      assert (n + 1) % 400 == n + 1 && (n + 1) / 400 == 0;
    }
  }

  /** A quotient goes up by one exactly at the next multiple. */
  lemma NextQuotient(n: int, m: int)
    requires 0 <= n && (m == 4 || m == 100)
    ensures (n + 1) / m == n / m + if (n + 1) % m == 0 then 1 else 0
  {
  }

  /** A year that starts in March ends with the February of the next calendar year. */
  lemma YearLength(y: int)
    ensures YearStart(y + 1) == YearStart(y) + if IsLeap(y + 1) then 366 else 365
  {
    var era, n := y / 400, y % 400;
    assert y + 1 == 400 * era + (n + 1);
    LeapOfEra(era, n + 1);
    Multiple400(era, n + 1);
    YearOfEra(n);
  }

  /** Every month but the last of a March year has its calendar length. */
  lemma MonthLength(year: int, month: int)
    requires 1 <= month <= 12 && month != 2
    ensures MonthStart(MarchMonth(month) + 1) == MonthStart(MarchMonth(month)) + DaysInMonth(year, month)
  {
  }

  ghost function NextYear(year: int, month: int, day: int): int {
    if month == 12 && day == 31 then year + 1 else year
  }

  ghost function NextMonth(year: int, month: int, day: int): int {
    if day < DaysInMonth(year, month) then month else if month == 12 then 1 else month + 1
  }

  ghost function NextDay(year: int, month: int, day: int): int {
    if day < DaysInMonth(year, month) then day + 1 else 1
  }

  /** The next calendar day is one more: across month ends, leap days and eras, in every year. */
  lemma NextDayIsOneMore(year: int, month: int, day: int)
    requires IsDay(year, month, day)
    ensures IsDay(NextYear(year, month, day), NextMonth(year, month, day), NextDay(year, month, day))
    ensures DaysFromCivil(NextYear(year, month, day), NextMonth(year, month, day), NextDay(year, month, day))
         == DaysFromCivil(year, month, day) + 1
  {
    hide DaysFromCivil, YearStart;
    var year', month', day' := NextYear(year, month, day), NextMonth(year, month, day), NextDay(year, month, day);
    CivilSplits(year, month, day);
    CivilSplits(year', month', day');
    if day < DaysInMonth(year, month) {
    } else if month != 2 {
      MonthLength(year, month);
    } else {
      YearLength(year - 1);
    }
  }

  lemma DayOneIsZero()
    ensures DaysFromCivil(1970, 1, 1) == 0
  {
  }

  /** A day lies inside its March year. */
  lemma DayInsideYear(year: int, month: int, day: int)
    requires IsDay(year, month, day)
    ensures var y := MarchYear(year, month);
            YearStart(y) <= DaysFromCivil(year, month, day) < YearStart(y + 1)
  {
    hide DaysFromCivil, YearStart;
    CivilSplits(year, month, day);
    YearLength(MarchYear(year, month));
  }

  lemma {:induction false} YearsRise(y: int, y': int)
    requires y <= y'
    ensures YearStart(y) <= YearStart(y')
    decreases y' - y
  {
    if y < y' {
      YearLength(y);
      YearsRise(y + 1, y');
    }
  }

  ghost predicate Before(year: int, month: int, day: int, year': int, month': int, day': int) {
    year < year' || (year == year' && (month < month' || (month == month' && day < day')))
  }

  /** The count rises with the calendar. */
  lemma CivilRises(year: int, month: int, day: int, year': int, month': int, day': int)
    requires IsDay(year, month, day) && IsDay(year', month', day')
    requires Before(year, month, day, year', month', day')
    ensures DaysFromCivil(year, month, day) < DaysFromCivil(year', month', day')
  {
    hide DaysFromCivil, YearStart;
    var y, y' := MarchYear(year, month), MarchYear(year', month');
    DayInsideYear(year, month, day);
    DayInsideYear(year', month', day');
    if y < y' {
      YearsRise(y + 1, y');
    } else {
      CivilSplits(year, month, day);
      CivilSplits(year', month', day');
      RisesInYear(year, month, day, year', month', day');
    }
  }

  lemma RisesInYear(year: int, month: int, day: int, year': int, month': int, day': int)
    requires IsDay(year, month, day) && IsDay(year', month', day') && MarchYear(year, month) == MarchYear(year', month')
    requires Before(year, month, day, year', month', day')
    ensures MonthStart(MarchMonth(month)) + day < MonthStart(MarchMonth(month')) + day'
  {
    MonthsRise(MarchMonth(month), MarchMonth(month'));
    if month != 2 {
      MonthLength(year, month);
    }
  }

  lemma MonthsRise(mp: int, mp': int)
    requires 0 <= mp && 0 <= mp'
    ensures mp < mp' ==> MonthStart(mp + 1) <= MonthStart(mp')
  {
  }

  /** The difference of two dates' day numbers, negative when the second comes first; only for texts that parse. */
  function DaysBetween(from: string, to: string): Option<int> {
    match (ParseDate(from), ParseDate(to))
    case (Some(a), Some(b)) => Some(DaysFromCivil(b.year, b.month, b.day) - DaysFromCivil(a.year, a.month, a.day))
    case _ => None
  }

  /** Day counts add up, are zero only from a date to itself, and their sign is the calendar's order. */
  lemma DaysBetweenMeasures(from: string, via: string, to: string)
    requires ParseDate(from).Some? && ParseDate(via).Some? && ParseDate(to).Some?
    ensures DaysBetween(from, via).value + DaysBetween(via, to).value == DaysBetween(from, to).value
    ensures DaysBetween(to, from).value == -DaysBetween(from, to).value
    ensures DaysBetween(from, to).value == 0 <==> from == to
    ensures var a, b := ParseDate(from).value, ParseDate(to).value;
            DaysBetween(from, to).value > 0 <==> Before(a.year, a.month, a.day, b.year, b.month, b.day)
  {
    hide DaysFromCivil;
    var a, b := ParseDate(from).value, ParseDate(to).value;
    ShowParse(from);
    ShowParse(to);
    if Before(a.year, a.month, a.day, b.year, b.month, b.day) {
      CivilRises(a.year, a.month, a.day, b.year, b.month, b.day);
    } else if Before(b.year, b.month, b.day, a.year, a.month, a.day) {
      CivilRises(b.year, b.month, b.day, a.year, a.month, a.day);
    } else {
      assert a == b;
    }
  }
}
