/**
 * `Record` from classes.py: a contact's name, its list of phone values and an
 * optional birthday. The phone list is edited in place; a lookup miss is an
 * outcome, not an exception. Fields compare by value, so the model keeps the
 * name, the phones and the birthday as their values.
 */
module Records {
  import opened Wrappers
  import opened Calendar
  import opened Lists
  import Birthdays

  datatype PhoneOutcome = PhoneAdded | PhoneChanged | PhoneDeleted | PhoneNotFound

  /** `str(self.birthday)`: the value of the Birthday field, or "None" when there is none. */
  function BirthdayText(birthday: Option<string>): string {
    match birthday
    case None => "None"
    case Some(v) => v
  }

  /** The phone list `add_phone` leaves: `list(set(phones + [phone]))`. */
  function AddedPhones(phones: seq<string>, phone: string): (r: seq<string>)
    ensures phone in r && NoDuplicates(r)
    ensures Elements(r) == Elements(phones) + {phone}
  {
    assert Elements(phones + [phone]) == Elements(phones) + {phone};
    Distinct(phones + [phone])
  }

  /**
   * Adding a phone twice gives the same value set and length as adding it once,
   * and the phone then occurs exactly once.
   */
  lemma AddPhoneIdempotent(phones: seq<string>, phone: string)
    ensures var once := AddedPhones(phones, phone);
      var twice := AddedPhones(once, phone);
      Elements(twice) == Elements(once) && |twice| == |once|
      && multiset(twice)[phone] == 1
  {
    var once := AddedPhones(phones, phone);
    var twice := AddedPhones(once, phone);
    DistinctLength(once);
    DistinctLength(twice);
    OccursOnce(twice, phone);
  }

  /** In a duplicate-free list, a present value occurs exactly once. */
  lemma {:induction false} OccursOnce(s: seq<string>, x: string)
    requires NoDuplicates(s) && x in s
    ensures multiset(s)[x] == 1
  {
    var init, last := s[..|s| - 1], s[|s| - 1];
    assert s == init + [last];
    if last == x {
      assert x !in init;
    } else {
      OccursOnce(init, x);
    }
  }

  class Record {
    var name: string
    var phones: seq<string>
    var birthday: Option<string>

    constructor (name: string, phones: seq<string>, birthday: Option<string>)
      ensures this.name == name && this.phones == phones && this.birthday == birthday
    {
      this.name := name;
      this.phones := phones;
      this.birthday := birthday;
    }

    /** `add_phone`: appends, then deduplicates through a set; never fails. */
    method AddPhone(phone: string) returns (r: PhoneOutcome)
      modifies this
      ensures r == PhoneAdded
      ensures phones == AddedPhones(old(phones), phone)
      ensures phone in phones && NoDuplicates(phones)
      ensures Elements(phones) == Elements(old(phones)) + {phone}
      ensures name == old(name) && birthday == old(birthday)
    {
      phones := AddedPhones(phones, phone);
      r := PhoneAdded;
    }

    /** `change_phone`: the first entry equal to `oldNumber` becomes `newNumber`; no deduplication. */
    method ChangePhone(oldNumber: string, newNumber: string) returns (r: PhoneOutcome)
      modifies this
      ensures oldNumber !in old(phones) ==> r == PhoneNotFound && phones == old(phones)
      ensures oldNumber in old(phones) ==>
                r == PhoneChanged && phones == ReplaceFirst(old(phones), oldNumber, newNumber)
      ensures name == old(name) && birthday == old(birthday)
    {
      if oldNumber !in phones {
        return PhoneNotFound;
      }
      var i := IndexOf(phones, oldNumber);
      phones := phones[i := newNumber];
      r := PhoneChanged;
    }

    /** `delete_phone`: `list.remove`, whose ValueError becomes the not-found outcome. */
    method DeletePhone(phone: string) returns (r: PhoneOutcome)
      modifies this
      ensures phone !in old(phones) ==> r == PhoneNotFound && phones == old(phones)
      ensures phone in old(phones) ==> r == PhoneDeleted && phones == RemoveFirst(old(phones), phone)
      ensures name == old(name) && birthday == old(birthday)
    {
      if phone !in phones {
        return PhoneNotFound;
      }
      phones := RemoveFirst(phones, phone);
      r := PhoneDeleted;
    }

    /** `days_to_birthday`, with `date.today()` given as `today`. */
    method DaysToBirthday(today: Date) returns (r: Birthdays.BirthdayOutcome)
      requires IsRealDate(today)
      ensures r == Birthdays.DaysToBirthday(BirthdayText(birthday), today)
      ensures birthday.None? ==> r == Birthdays.NoBirthday
    {
      Birthdays.AbsentBirthday(today);
      r := Birthdays.DaysToBirthday(BirthdayText(birthday), today);
    }
  }

  /** Changing [A, B] by (A, C) gives [C, B]: the position is kept, nothing is re-sorted. */
  lemma ChangeKeepsPosition(a: string, b: string, c: string)
    ensures ReplaceFirst([a, b], a, c) == [c, b]
  {
    assert IndexOf([a, b], a) == 0;
  }
}
