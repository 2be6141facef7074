/** Naive calendar arithmetic on proleptic Gregorian dates and their ISO
    `YYYY-MM-DD` text form: no time zone, no daylight saving. */
module Calendar {
  import opened MedTypes

  datatype CivilDate = CivilDate(year: int, month: int, day: int)

  predicate IsLeapYear(y: int) {
    y % 4 == 0 && (y % 100 != 0 || y % 400 == 0)
  }

  function DaysInMonth(y: int, m: int): (r: int)
    ensures 28 <= r <= 31
    ensures m == 12 ==> r == 31
  {
    if m == 2 then (if IsLeapYear(y) then 29 else 28)
    else if m == 4 || m == 6 || m == 9 || m == 11 then 30
    else 31
  }

  predicate IsValid(d: CivilDate) {
    1 <= d.month <= 12 && 1 <= d.day <= DaysInMonth(d.year, d.month)
  }

  /** A date that exists on the calendar. */
  type ValidDate = d: CivilDate | IsValid(d) witness CivilDate(2000, 1, 1)

  /** The following calendar day. */
  function Next(d: ValidDate): ValidDate {
    if d.day < DaysInMonth(d.year, d.month) then CivilDate(d.year, d.month, d.day + 1)
    else if d.month < 12 then CivilDate(d.year, d.month + 1, 1)
    else CivilDate(d.year + 1, 1, 1)
  }

  /** The preceding calendar day. */
  function Prev(d: ValidDate): ValidDate {
    if d.day > 1 then CivilDate(d.year, d.month, d.day - 1)
    else if d.month > 1 then CivilDate(d.year, d.month - 1, DaysInMonth(d.year, d.month - 1))
    else CivilDate(d.year - 1, 12, 31)
  }

  lemma PrevNext(d: ValidDate)
    ensures Prev(Next(d)) == d
  {
  }

  lemma NextPrev(d: ValidDate)
    ensures Next(Prev(d)) == d
  {
  }

  /** `n` days after `d` (before it when `n` is negative), one day at a time. */
  function AddDays(d: ValidDate, n: int): ValidDate
    decreases if n >= 0 then n else -n
  {
    if n == 0 then d
    else if n > 0 then AddDays(Next(d), n - 1)
    else AddDays(Prev(d), n + 1)
  }

  lemma {:induction false} StepForward(d: ValidDate, m: int)
    ensures AddDays(Next(d), m) == AddDays(d, m + 1)
  {
    if m + 1 <= 0 {
      PrevNext(d);
    }
  }

  lemma {:induction false} StepBack(d: ValidDate, m: int)
    ensures AddDays(Prev(d), m) == AddDays(d, m - 1)
  {
    if m - 1 >= 0 {
      NextPrev(d);
    }
  }

  /** Stepping `a` days and then `b` days is stepping `a + b` days. */
  lemma {:induction false} AddDaysAdd(d: ValidDate, a: int, b: int)
    ensures AddDays(AddDays(d, a), b) == AddDays(d, a + b)
    decreases if a >= 0 then a else -a
  {
    if a > 0 {
      AddDaysAdd(Next(d), a - 1, b);
      StepForward(d, a - 1 + b);
    } else if a < 0 {
      AddDaysAdd(Prev(d), a + 1, b);
      StepBack(d, a + 1 + b);
    }
  }

  /** A day step moves the year by at most one. */
  lemma PrevYear(d: ValidDate)
    ensures d.year - 1 <= Prev(d).year <= d.year
    ensures Prev(d) != d
  {
  }

  predicate IsDigit(c: char) {
    '0' <= c <= '9'
  }

  function Digit(n: int): (c: char)
    requires 0 <= n <= 9
    ensures IsDigit(c)
  {
    (48 + n) as char
  }

  function DigitValue(c: char): int {
    c as int - 48
  }

  /** Decimal digits of `n`, left-padded with zeros to at least `width`. */
  function Pad(n: nat, width: nat): (r: string)
    ensures |r| >= 1
    decreases n, width
  {
    if width <= 1 && n < 10 then [Digit(n)]
    else Pad(n / 10, if width > 0 then width - 1 else 0) + [Digit(n % 10)]
  }

  function TwoDigits(n: int): string
    requires 0 <= n <= 99
  {
    [Digit(n / 10), Digit(n % 10)]
  }

  function FourDigits(n: int): string
    requires 0 <= n <= 9999
  {
    var hundreds := n % 1000;
    var tens := hundreds % 100;
    [Digit(n / 1000), Digit(hundreds / 100), Digit(tens / 10), Digit(tens % 10)]
  }

  /** Division by a positive constant is determined by quotient and rest. */
  lemma DivMod(y: int, k: int, q: int, r: int)
    requires k > 0 && 0 <= r < k && y == k * q + r
    ensures y / k == q && y % k == r
  {
    var q', r' := y / k, y % k;
    assert y == k * q' + r';
    if q > q' {
      MulLe(k, q' + 1, q);
    } else if q < q' {
      MulLe(k, q + 1, q');
    }
  }

  lemma MulLe(k: int, a: int, b: int)
    requires k >= 0 && a <= b
    ensures k * a <= k * b
  {
  }

  /** The year as the ISO date-time format writes it: four digits within
      0..9999, otherwise a sign and at least six digits. */
  function FormatYear(y: int): string {
    if 0 <= y <= 9999 then FourDigits(y)
    else (if y < 0 then "-" else "+") + Pad(if y < 0 then -y else y, 6)
  }

  /** The `YYYY-MM-DD` date part of the ISO form of `d`. */
  function Format(d: ValidDate): string {
    FormatYear(d.year) + "-" + TwoDigits(d.month) + "-" + TwoDigits(d.day)
  }

  predicate InFourDigitRange(d: ValidDate) {
    0 <= d.year <= 9999
  }

  /** Reads a `YYYY-MM-DD` string naming a day that exists; anything else is
      an invalid date. */
  function Parse(s: string): Option<ValidDate> {
    if |s| == 10 && s[4] == '-' && s[7] == '-'
       && IsDigit(s[0]) && IsDigit(s[1]) && IsDigit(s[2]) && IsDigit(s[3])
       && IsDigit(s[5]) && IsDigit(s[6]) && IsDigit(s[8]) && IsDigit(s[9])
    then
      var c := CivilDate(
        1000 * DigitValue(s[0]) + 100 * DigitValue(s[1]) + 10 * DigitValue(s[2]) + DigitValue(s[3]),
        10 * DigitValue(s[5]) + DigitValue(s[6]),
        10 * DigitValue(s[8]) + DigitValue(s[9]));
      if IsValid(c) then Some(c) else None
    else None
  }

  lemma DigitRoundTrip(n: int)
    requires 0 <= n <= 9
    ensures DigitValue(Digit(n)) == n
  {
  }

  lemma CharRoundTrip(c: char)
    requires IsDigit(c)
    ensures 0 <= DigitValue(c) <= 9 && Digit(DigitValue(c)) == c
  {
  }

  lemma TwoDigitsRead(n: int)
    requires 0 <= n <= 99
    ensures 10 * DigitValue(TwoDigits(n)[0]) + DigitValue(TwoDigits(n)[1]) == n
  {
    DigitRoundTrip(n / 10);
    DigitRoundTrip(n % 10);
  }

  lemma FourDigitsRead(n: int)
    requires 0 <= n <= 9999
    ensures var s := FourDigits(n);
      1000 * DigitValue(s[0]) + 100 * DigitValue(s[1]) + 10 * DigitValue(s[2]) + DigitValue(s[3]) == n
  {
    var hundreds := n % 1000;
    var tens := hundreds % 100;
    DigitRoundTrip(n / 1000);
    DigitRoundTrip(hundreds / 100);
    DigitRoundTrip(tens / 10);
    DigitRoundTrip(tens % 10);
  }

  lemma TwoDigitsOf(a: int, b: int)
    requires 0 <= a <= 9 && 0 <= b <= 9
    ensures TwoDigits(10 * a + b) == [Digit(a), Digit(b)]
  {
    DivMod(10 * a + b, 10, a, b);
  }

  lemma FourDigitsOf(a: int, b: int, c: int, e: int)
    requires 0 <= a <= 9 && 0 <= b <= 9 && 0 <= c <= 9 && 0 <= e <= 9
    ensures FourDigits(1000 * a + 100 * b + 10 * c + e) == [Digit(a), Digit(b), Digit(c), Digit(e)]
  {
    var n := 1000 * a + 100 * b + 10 * c + e;
    DivMod(n, 1000, a, 100 * b + 10 * c + e);
    DivMod(100 * b + 10 * c + e, 100, b, 10 * c + e);
    DivMod(10 * c + e, 10, c, e);
  }

  /** Formatting a date with a four-digit year and reading it back gives
      the date again. */
  lemma ParseFormat(d: ValidDate)
    requires InFourDigitRange(d)
    ensures Parse(Format(d)) == Some(d)
  {
    var s := Format(d);
    var ys, ms, ds := FourDigits(d.year), TwoDigits(d.month), TwoDigits(d.day);
    assert s == ys + "-" + ms + "-" + ds;
    assert s[0..4] == ys && s[5..7] == ms && s[8..10] == ds;
    FourDigitsRead(d.year);
    TwoDigitsRead(d.month);
    TwoDigitsRead(d.day);
  }

  /** A string that reads as a date is the formatted form of that date. */
  lemma FormatParse(s: string)
    requires Parse(s).Some?
    ensures InFourDigitRange(Parse(s).value)
    ensures Format(Parse(s).value) == s
  {
    var d := Parse(s).value;
    CharRoundTrip(s[0]);
    CharRoundTrip(s[1]);
    CharRoundTrip(s[2]);
    CharRoundTrip(s[3]);
    CharRoundTrip(s[5]);
    CharRoundTrip(s[6]);
    CharRoundTrip(s[8]);
    CharRoundTrip(s[9]);
    FourDigitsOf(DigitValue(s[0]), DigitValue(s[1]), DigitValue(s[2]), DigitValue(s[3]));
    TwoDigitsOf(DigitValue(s[5]), DigitValue(s[6]));
    TwoDigitsOf(DigitValue(s[8]), DigitValue(s[9]));
    assert Format(d) == s;
  }

  lemma FormatInjective(d1: ValidDate, d2: ValidDate)
    requires InFourDigitRange(d1) && InFourDigitRange(d2)
    requires d1 != d2
    ensures Format(d1) != Format(d2)
  {
    ParseFormat(d1);
    ParseFormat(d2);
  }
}
