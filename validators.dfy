/**
 * The two format checks of classes.py: `Phone.is_valid_phone`, the regular
 * expression `^\+?[1-9][\d]{11}$`, and `Birthday.is_valid_date`, a full parse
 * with `datetime.strptime(text, "%d.%m.%Y")`.
 *
 * Python's `strptime` turns the format into the expression
 * `(3[01]|[12]\d|0[1-9]|[1-9]| [1-9])\.(1[0-2]|0[1-9]|[1-9])\.(\d\d\d\d)`,
 * demands that the match consume the whole text, and then builds
 * `datetime.date(year, month, day)`, which fails unless the date exists.
 * Because no field pattern contains a '.', the day is the text before the
 * first '.', the month the text between the first and the second, and the
 * year the rest.
 */
module Validators {
  import opened Wrappers
  import opened Calendar

  predicate IsDigit(c: char) {
    '0' <= c <= '9'
  }

  predicate AllDigits(s: string) {
    forall i | 0 <= i < |s| :: IsDigit(s[i])
  }

  // ---------------------------------------------------------------- phones

  /** `Phone.is_valid_phone`: an optional '+', a digit 1-9, then exactly 11 digits. */
  predicate IsValidPhone(s: string)
    ensures IsValidPhone(s) ==> 12 <= |s| <= 13 && IsDigit(s[|s| - 1])
  {
    var body := if |s| > 0 && s[0] == '+' then s[1..] else s;
    |body| == 12 && '1' <= body[0] <= '9' && AllDigits(body[1..])
  }

  /** Every text the pattern describes is accepted. */
  lemma PhonePatternAccepted(sign: string, lead: char, rest: string)
    requires sign == "" || sign == "+"
    requires '1' <= lead <= '9' && |rest| == 11 && AllDigits(rest)
    ensures IsValidPhone(sign + [lead] + rest)
  {
    var s := sign + [lead] + rest;
    if sign == "+" {
      assert s[1..] == [lead] + rest;
    } else {
      assert s == [lead] + rest;
    }
  }

  /** Every accepted text is an optional '+', a digit 1-9 and 11 digits. */
  lemma PhonePatternParts(s: string) returns (sign: string, lead: char, rest: string)
    requires IsValidPhone(s)
    ensures sign == "" || sign == "+"
    ensures '1' <= lead <= '9' && |rest| == 11 && AllDigits(rest)
    ensures s == sign + [lead] + rest
  {
    if |s| > 0 && s[0] == '+' {
      sign, lead, rest := "+", s[1], s[2..];
      assert s == [s[0]] + [s[1]] + s[2..];
      assert forall i | 0 <= i < 11 :: rest[i] == s[1..][1..][i];
    } else {
      sign, lead, rest := "", s[0], s[1..];
      assert s == [s[0]] + s[1..];
    }
  }

  /** An accepted phone has 12 or 13 characters, none of them '[', ']', ' ' or ','. */
  lemma ValidPhoneShape(s: string)
    requires IsValidPhone(s)
    ensures 12 <= |s| <= 13
    ensures forall i | 0 <= i < |s| :: s[i] != '[' && s[i] != ']' && s[i] != ' ' && s[i] != ','
  {
    var sign, lead, rest := PhonePatternParts(s);
    forall i | 0 <= i < |s|
      ensures s[i] != '[' && s[i] != ']' && s[i] != ' ' && s[i] != ','
    {
      if i < |sign| {
        assert s[i] == '+';
      } else if i == |sign| {
        assert s[i] == lead;
      } else {
        assert s[i] == rest[i - |sign| - 1];
      }
    }
  }

  // ----------------------------------------------------------------- dates

  function DigitValue(c: char): int
    requires IsDigit(c)
  {
    c as int - '0' as int
  }

  function DigitChar(n: int): char
    requires 0 <= n <= 9
  {
    ('0' as int + n) as char
  }

  /** `%d`: `3[01]|[12]\d|0[1-9]|[1-9]| [1-9]`, matched against the whole token. */
  function ParseDay(t: string): Option<int> {
    if |t| == 2 && IsDigit(t[0]) && IsDigit(t[1])
       && ((t[0] == '3' && t[1] <= '1') || t[0] == '1' || t[0] == '2' || (t[0] == '0' && t[1] != '0'))
    then Some(10 * DigitValue(t[0]) + DigitValue(t[1]))
    else if |t| == 1 && '1' <= t[0] <= '9' then Some(DigitValue(t[0]))
    else if |t| == 2 && t[0] == ' ' && '1' <= t[1] <= '9' then Some(DigitValue(t[1]))
    else None
  }

  /** `%m`: `1[0-2]|0[1-9]|[1-9]`, matched against the whole token. */
  function ParseMonth(t: string): Option<int> {
    if |t| == 2 && ((t[0] == '1' && '0' <= t[1] <= '2') || (t[0] == '0' && '1' <= t[1] <= '9'))
    then Some(10 * DigitValue(t[0]) + DigitValue(t[1]))
    else if |t| == 1 && '1' <= t[0] <= '9' then Some(DigitValue(t[0]))
    else None
  }

  /** `%Y`: exactly four digits (the end-of-text check rejects anything after them). */
  function ParseYear(t: string): Option<int> {
    if |t| == 4 && AllDigits(t)
    then Some(1000 * DigitValue(t[0]) + 100 * DigitValue(t[1]) + 10 * DigitValue(t[2]) + DigitValue(t[3]))
    else None
  }

  /** The position of the first `c` in `s`, if any. */
  function FindChar(s: string, c: char): (r: Option<nat>)
    ensures r.None? ==> c !in s
    ensures r.Some? ==> r.value < |s| && s[r.value] == c && c !in s[..r.value]
  {
    if s == [] then None
    else if s[0] == c then Some(0)
    else match FindChar(s[1..], c)
      case None => None
      case Some(i) =>
        assert s[..i + 1] == [s[0]] + s[1..][..i];
        Some(i + 1)
  }

  /** `datetime.strptime(text, "%d.%m.%Y").date()`, or None where it raises ValueError. */
  function ParseDate(s: string): (r: Option<Date>)
    ensures r.Some? ==> IsRealDate(r.value)
  {
    match FindChar(s, '.')
    case None => None
    case Some(i) =>
      var rest := s[i + 1..];
      match FindChar(rest, '.')
      case None => None
      case Some(j) => Assemble(ParseDay(s[..i]), ParseMonth(rest[..j]), ParseYear(rest[j + 1..]))
  }

  /** The date the three fields name, when each parsed and `datetime.date` accepts them. */
  function Assemble(day: Option<int>, month: Option<int>, year: Option<int>): (r: Option<Date>)
    ensures r.Some? ==> IsRealDate(r.value)
  {
    match (day, month, year)
    case (Some(d), Some(m), Some(y)) =>
      if IsRealDate(Date(y, m, d)) then Some(Date(y, m, d)) else None
    case _ => None
  }

  /** `Birthday.is_valid_date`. */
  predicate IsValidDate(s: string)
    ensures IsValidDate(s) ==> '.' in s
  {
    ParseDate(s).Some?
  }

  /** The texts `%d` reads as day `n`: zero-padded, and for 1-9 also bare or space-padded. */
  function DayTexts(n: int): set<string>
    requires 1 <= n <= 31
  {
    {[DigitChar(n / 10), DigitChar(n % 10)]} + (if n <= 9 then {[DigitChar(n)], [' ', DigitChar(n)]} else {})
  }

  /** The texts `%m` reads as month `n`: zero-padded, and for 1-9 also bare. */
  function MonthTexts(n: int): set<string>
    requires 1 <= n <= 12
  {
    {[DigitChar(n / 10), DigitChar(n % 10)]} + (if n <= 9 then {[DigitChar(n)]} else {})
  }

  /** The four-digit, zero-padded year. */
  function YearText(y: int): string
    requires 0 <= y <= 9999
  {
    var q1 := y / 10;
    var q2 := q1 / 10;
    [DigitChar(q2 / 10), DigitChar(q2 % 10), DigitChar(q1 % 10), DigitChar(y % 10)]
  }

  lemma DigitChars(n: int)
    requires 0 <= n <= 9
    ensures IsDigit(DigitChar(n)) && DigitValue(DigitChar(n)) == n
  {
  }

  /** The dotted text built from a day text, a month text and a year text. */
  function DottedText(dt: string, mt: string, yt: string): string {
    dt + ("." + (mt + ("." + yt)))
  }

  lemma DayTextParses(n: int, t: string)
    requires 1 <= n <= 31 && t in DayTexts(n)
    ensures ParseDay(t) == Some(n) && '.' !in t
  {
  }

  lemma MonthTextParses(n: int, t: string)
    requires 1 <= n <= 12 && t in MonthTexts(n)
    ensures ParseMonth(t) == Some(n) && '.' !in t
  {
  }

  lemma YearTextParses(y: int)
    requires 0 <= y <= 9999
    ensures ParseYear(YearText(y)) == Some(y) && '.' !in YearText(y)
  {
    var q1 := y / 10;
    var q2 := q1 / 10;
    DigitChars(q2 / 10);
    DigitChars(q2 % 10);
    DigitChars(q1 % 10);
    DigitChars(y % 10);
    assert y == 10 * q1 + y % 10 && q1 == 10 * q2 + q1 % 10 && q2 == 10 * (q2 / 10) + q2 % 10;
  }

  /** A token `%d` accepts is one of the day texts of its value. */
  lemma ParsedDayText(t: string)
    requires ParseDay(t).Some?
    ensures 1 <= ParseDay(t).value <= 31 && t in DayTexts(ParseDay(t).value)
  {
    var n := ParseDay(t).value;
    if |t| == 2 && IsDigit(t[0]) {
      assert t == [DigitChar(n / 10), DigitChar(n % 10)];
    } else if |t| == 1 {
      assert t == [DigitChar(n)];
    } else {
      assert t == [' ', DigitChar(n)];
    }
  }

  /** A token `%m` accepts is one of the month texts of its value. */
  lemma ParsedMonthText(t: string)
    requires ParseMonth(t).Some?
    ensures 1 <= ParseMonth(t).value <= 12 && t in MonthTexts(ParseMonth(t).value)
  {
    var n := ParseMonth(t).value;
    if |t| == 2 {
      assert t == [DigitChar(n / 10), DigitChar(n % 10)];
    } else {
      assert t == [DigitChar(n)];
    }
  }

  /** A token `%Y` accepts is the zero-padded text of its value. */
  lemma ParsedYearText(t: string)
    requires ParseYear(t).Some?
    ensures 0 <= ParseYear(t).value <= 9999 && t == YearText(ParseYear(t).value)
  {
    var y := ParseYear(t).value;
    var d0, d1, d2, d3 := DigitValue(t[0]), DigitValue(t[1]), DigitValue(t[2]), DigitValue(t[3]);
    assert y == 10 * (100 * d0 + 10 * d1 + d2) + d3;
    assert y / 10 == 100 * d0 + 10 * d1 + d2 && y % 10 == d3;
    assert (y / 10) / 10 == 10 * d0 + d1 && (y / 10) % 10 == d2;
    assert ((y / 10) / 10) / 10 == d0 && ((y / 10) / 10) % 10 == d1;
    assert t == [t[0], t[1], t[2], t[3]];
  }

  /**
   * Every real date is accepted in every spelling `%d.%m.%Y` allows, and
   * read back as that date.
   */
  lemma DateSpellingAccepted(d: Date, dt: string, mt: string)
    requires IsRealDate(d) && dt in DayTexts(d.day) && mt in MonthTexts(d.month)
    ensures ParseDate(DottedText(dt, mt, YearText(d.year))) == Some(d)
  {
    DayTextParses(d.day, dt);
    MonthTextParses(d.month, mt);
    YearTextParses(d.year);
    ParseDotted(dt, mt, YearText(d.year));
  }

  /** The first `c` of `a + b`, when `a` has none and `b` starts with `c`, is at `|a|`. */
  lemma FirstOfTwo(a: string, b: string, c: char)
    requires c !in a && |b| > 0 && b[0] == c
    ensures FindChar(a + b, c) == Some(|a|)
  {
    assert (a + b)[|a|] == c;
    assert (a + b)[..|a|] == a;
  }

  /**
   * Everything `%d.%m.%Y` accepts is a real date, in one of its spellings:
   * the converse of DateSpellingAccepted.
   */
  lemma AcceptedDateIsSpelled(s: string) returns (dt: string, mt: string)
    requires ParseDate(s).Some?
    ensures dt in DayTexts(ParseDate(s).value.day) && mt in MonthTexts(ParseDate(s).value.month)
    ensures s == DottedText(dt, mt, YearText(ParseDate(s).value.year))
  {
    var i := FindChar(s, '.').value;
    var j := FindChar(s[i + 1..], '.').value;
    var yt;
    dt, mt, yt := DottedParts(s, i, j);
    ParsedDayText(dt);
    ParsedMonthText(mt);
    ParsedYearText(yt);
  }

  /** Cutting a text at two dots and joining the pieces gives the text back. */
  lemma DottedParts(s: string, i: nat, j: nat) returns (dt: string, mt: string, yt: string)
    requires i < |s| && s[i] == '.' && j < |s[i + 1..]| && s[i + 1..][j] == '.'
    ensures dt == s[..i] && mt == s[i + 1..][..j] && yt == s[i + 1..][j + 1..]
    ensures s == DottedText(dt, mt, yt)
  {
    var rest := s[i + 1..];
    dt, mt, yt := s[..i], rest[..j], rest[j + 1..];
    assert rest == mt + "." + yt;
    assert s == dt + "." + rest;
  }

  /** A text with two dots is read field by field, whatever the fields hold. */
  lemma ParseDotted(dt: string, mt: string, yt: string)
    requires '.' !in dt && '.' !in mt
    ensures ParseDate(DottedText(dt, mt, yt)) == Assemble(ParseDay(dt), ParseMonth(mt), ParseYear(yt))
  {
    var s := DottedText(dt, mt, yt);
    var rest := mt + ("." + yt);
    FirstOfTwo(dt, "." + rest, '.');
    assert s[..|dt|] == dt && s[|dt| + 1..] == rest;
    FirstOfTwo(mt, "." + yt, '.');
    assert rest[..|mt|] == mt && rest[|mt| + 1..] == yt;
    ParseAtDots(s, |dt|, |mt|);
  }

  /** Once the two dots are found, the three fields are read from the pieces between them. */
  lemma ParseAtDots(s: string, i: nat, j: nat)
    requires FindChar(s, '.') == Some(i)
    requires FindChar(s[i + 1..], '.') == Some(j)
    ensures ParseDate(s) == Assemble(ParseDay(s[..i]), ParseMonth(s[i + 1..][..j]), ParseYear(s[i + 1..][j + 1..]))
  {
  }

  /**
   * A day past the end of its month (31 April, 29 February of a common year)
   * matches `%d` but does not exist, so it is refused like malformed text.
   */
  lemma RejectsMissingDay(d: int, m: int, y: int, dt: string, mt: string)
    requires 1 <= d <= 31 && dt in DayTexts(d) && 1 <= m <= 12 && mt in MonthTexts(m)
    requires 0 <= y <= 9999 && d > DaysInMonth(y, m)
    ensures !IsValidDate(DottedText(dt, mt, YearText(y)))
  {
    DayTextParses(d, dt);
    MonthTextParses(m, mt);
    YearTextParses(y);
    ParseDotted(dt, mt, YearText(y));
  }

  /** Year 0000 matches `%Y` but is outside `datetime`'s range. */
  lemma RejectsYearZero(d: int, m: int, dt: string, mt: string)
    requires 1 <= d <= 31 && dt in DayTexts(d) && 1 <= m <= 12 && mt in MonthTexts(m)
    ensures !IsValidDate(DottedText(dt, mt, YearText(0)))
  {
    DayTextParses(d, dt);
    MonthTextParses(m, mt);
    YearTextParses(0);
    ParseDotted(dt, mt, YearText(0));
  }

  /** Day 00 matches no alternative of `%d`. */
  lemma RejectsDayZero(mt: string, yt: string)
    requires '.' !in mt
    ensures !IsValidDate(DottedText("00", mt, yt))
  {
    ParseDotted("00", mt, yt);
    assert ParseDay("00") == None;
  }

  /** A year of other than four characters (a two-digit year, a fifth digit) does not match `%Y`. */
  lemma RejectsYearLength(dt: string, mt: string, yt: string)
    requires '.' !in dt && '.' !in mt && |yt| != 4
    ensures !IsValidDate(DottedText(dt, mt, yt))
  {
    ParseDotted(dt, mt, yt);
  }

  /** The text of an absent birthday, and the empty cell, are not dates. */
  lemma RejectsAbsentBirthday()
    ensures !IsValidDate("None") && !IsValidDate("")
  {
    assert FindChar("None", '.') == None;
  }
}
