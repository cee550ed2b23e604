/**
 * The date arithmetic of `Record.days_to_birthday` (classes.py), with the
 * clock reading `date.today()` passed in as `today`. The stored birthday text
 * is parsed with `%d.%m.%Y`; its day and month are moved into today's year
 * (`date.replace`), rolled into the next year if that day has already passed,
 * and the result is the number of days from today to that date.
 */
module Birthdays {
  import opened Wrappers
  import opened Calendar
  import opened Validators

  datatype BirthdayOutcome =
    | NoBirthday                          // the text does not parse: reported, not raised
    | ReplaceFailed                       // `date.replace` raises ValueError, which `days_to_birthday` does not catch
    | InDays(days: int, on: Date)         // the count printed, and the date it lands on

  /** `birthday.replace(year=y)`. */
  function MoveToYear(b: Date, y: int): (r: Option<Date>)
    ensures r.None? <==> !IsRealDate(Date(y, b.month, b.day))
    ensures r.Some? ==> IsRealDate(r.value) && r.value.year == y && r.value.month == b.month && r.value.day == b.day
  {
    if IsRealDate(Date(y, b.month, b.day)) then Some(Date(y, b.month, b.day)) else None
  }

  function DaysToBirthday(text: string, today: Date): (r: BirthdayOutcome)
    requires IsRealDate(today)
    ensures r == NoBirthday <==> !IsValidDate(text)
  {
    match ParseDate(text)
    case None => NoBirthday
    case Some(b) => Upcoming(b, today)
  }

  /** The next occurrence of birthday `b`, counted from `today`. */
  function Upcoming(b: Date, today: Date): (r: BirthdayOutcome)
    requires IsRealDate(today)
    ensures r != NoBirthday
    ensures r.InDays? ==> IsRealDate(r.on) && r.on.month == b.month && r.on.day == b.day && !Before(r.on, today)
  {
    match MoveToYear(b, today.year)
    case None => ReplaceFailed
    case Some(thisYear) =>
      if Before(thisYear, today) then
        match MoveToYear(b, today.year + 1)
        case None => ReplaceFailed
        case Some(nextYear) => InDays(Ordinal(nextYear) - Ordinal(today), nextYear)
      else InDays(Ordinal(thisYear) - Ordinal(today), thisYear)
  }

  /** The text of an absent birthday: "None" in memory, the empty cell after a reload. */
  lemma AbsentBirthday(today: Date)
    requires IsRealDate(today)
    ensures DaysToBirthday("None", today) == NoBirthday
    ensures DaysToBirthday("", today) == NoBirthday
  {
    RejectsAbsentBirthday();
  }

  /**
   * `date.replace` can only fail on a 29 February birthday moved into a common
   * year, or on a birthday already past in year 9999 (year 10000 is out of range).
   */
  lemma ReplaceFailedIff(text: string, today: Date)
    requires IsRealDate(today) && IsValidDate(text)
    ensures var b := ParseDate(text).value;
      DaysToBirthday(text, today) == ReplaceFailed <==>
        (b.month == 2 && b.day == 29 && !IsLeap(today.year))
        || (Before(Date(today.year, b.month, b.day), today)
            && ((b.month == 2 && b.day == 29 && !IsLeap(today.year + 1)) || today.year == MaxYear))
  {
    ReplaceFailedDate(ParseDate(text).value, today);
  }

  lemma ReplaceFailedDate(b: Date, today: Date)
    requires IsRealDate(today) && IsRealDate(b)
    ensures Upcoming(b, today) == ReplaceFailed <==>
        (b.month == 2 && b.day == 29 && !IsLeap(today.year))
        || (Before(Date(today.year, b.month, b.day), today)
            && ((b.month == 2 && b.day == 29 && !IsLeap(today.year + 1)) || today.year == MaxYear))
  {
  }

  /**
   * When a count is produced it lands on the birthday's day and month, in
   * today's year or the next, never before today, and within 365 days.
   */
  lemma DaysBounds(text: string, today: Date)
    requires IsRealDate(today)
    requires DaysToBirthday(text, today).InDays?
    ensures var r := DaysToBirthday(text, today); var b := ParseDate(text).value;
      IsRealDate(r.on) && r.on.month == b.month && r.on.day == b.day
      && (r.on.year == today.year || r.on.year == today.year + 1)
      && !Before(r.on, today)
      && r.days == Ordinal(r.on) - Ordinal(today)
      && 0 <= r.days <= 365
  {
    UpcomingBounds(ParseDate(text).value, today);
  }

  lemma UpcomingBounds(b: Date, today: Date)
    requires IsRealDate(today) && Upcoming(b, today).InDays?
    ensures var r := Upcoming(b, today);
      IsRealDate(r.on) && r.on.month == b.month && r.on.day == b.day
      && (r.on.year == today.year || r.on.year == today.year + 1)
      && !Before(r.on, today)
      && r.days == Ordinal(r.on) - Ordinal(today)
      && 0 <= r.days <= 365
  {
    var thisYear := Date(today.year, b.month, b.day);
    OrdinalWithinYear(today);
    if Before(thisYear, today) {
      var next := Date(today.year + 1, b.month, b.day);
      OrdinalMonotone(thisYear, today);
      OrdinalWithinYear(next);
      YearStep(today.year);
      assert Ordinal(next) - Ordinal(thisYear) <= 366;
    } else {
      OrdinalWithinYear(thisYear);
      if thisYear != today {
        OrdinalMonotone(today, thisYear);
      }
    }
  }

  /** The count is 0 exactly when today is the birthday's day and month. */
  lemma ZeroDaysIff(text: string, today: Date)
    requires IsRealDate(today)
    requires DaysToBirthday(text, today).InDays?
    ensures var b := ParseDate(text).value;
      DaysToBirthday(text, today).days == 0 <==> (b.day == today.day && b.month == today.month)
  {
    var r := DaysToBirthday(text, today);
    DaysBounds(text, today);
    if r.days == 0 {
      OrdinalInjective(r.on, today);
    }
  }

  /**
   * The date reached is the next occurrence: no day with the birthday's day and
   * month lies between today and it.
   */
  lemma NextOccurrence(text: string, today: Date, other: Date)
    requires IsRealDate(today) && IsRealDate(other)
    requires DaysToBirthday(text, today).InDays?
    requires other.month == ParseDate(text).value.month && other.day == ParseDate(text).value.day
    requires !Before(other, today)
    ensures !Before(other, DaysToBirthday(text, today).on)
  {
    DaysBounds(text, today);
  }

  /** Apart from 29 February, a parseable birthday always yields a count before year 9999. */
  lemma CountExists(text: string, today: Date)
    requires IsRealDate(today) && IsValidDate(text) && today.year < MaxYear
    requires !(ParseDate(text).value.month == 2 && ParseDate(text).value.day == 29)
    ensures DaysToBirthday(text, today).InDays?
  {
    ReplaceFailedDate(ParseDate(text).value, today);
  }

  /** The birthday text 15.03.1990 reads as 15 March 1990, so MarchExample applies to it. */
  lemma SpecimenBirthday()
    ensures ParseDate(DottedText("15", "03", YearText(1990))) == Some(Date(1990, 3, 15))
  {
    assert "15" in DayTexts(15) && "03" in MonthTexts(3);
    DateSpellingAccepted(Date(1990, 3, 15), "15", "03");
  }

  /**
   * A birthday on 15 March, whatever its year: 0 days on 15.03.2024, and 364
   * days, to 15.03.2025, on the day after.
   */
  lemma MarchExample(text: string)
    requires ParseDate(text).Some? && ParseDate(text).value.month == 3 && ParseDate(text).value.day == 15
    ensures DaysToBirthday(text, Date(2024, 3, 15)) == InDays(0, Date(2024, 3, 15))
    ensures DaysToBirthday(text, Date(2024, 3, 16)) == InDays(364, Date(2025, 3, 15))
  {
    YearStep(2024);
  }
}
