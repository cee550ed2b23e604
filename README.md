# Address book: a verified model

This project models the in-memory contact model of a small command-line
address book written in Python, and the row logic of its CSV storage.

- classes.py defines:
  - `Field` with its kinds `Name`, `Phone` and `Birthday`, whose `value` setters validate;
  - `Record`, a contact whose phone list is edited in place and which counts the days to the next birthday;
  - `AddressBook`, an insertion-ordered dictionary from name to record, iterated ten records per page.
- data_manager.py turns CSV rows into an `AddressBook` and back. It writes the phone list into a single cell and splits it apart again on reading.

The Dafny modules follow that structure:

| file | module | models |
|---|---|---|
| wrappers.dfy | `Wrappers` | `Option` and `Result` |
| calendar.dfy | `Calendar` | the proleptic Gregorian calendar of `datetime.date`, its ordinal and its order |
| validators.dfy | `Validators` | the phone regular expression, and `strptime(text, "%d.%m.%Y")` |
| fields.dfy | `Fields` | `Field`, the `value` setters, equality |
| lists.dfy | `Lists` | `list.index`, index assignment, `list.remove`, `list(set(...))` |
| birthdays.dfy | `Birthdays` | the date arithmetic of `days_to_birthday` |
| records.dfy | `Records` | `Record` and its phone edits |
| paging.dfy | `Paging` | the pages `__next__` hands out |
| address_book.dfy | `AddressBooks` | `AddressBook`, its insertion order and its paging cursor |
| phone_cell.dfy | `PhoneCell` | the "Phone numbers" cell: `str(list)` on writing, strip and split on reading |
| data_manager.dfy | `DataManager` | the row loop of `open_file` and of `write_to_csv` |

Modelling choices:

- **Phones are strings.** `Field.__eq__` compares the class and the value, so a list of `Phone` fields behaves like the list of their values for `in`, `index`, `remove` and `set`. A record's name is its name's value.
- **Birthdays.** A record's birthday is `None` (no `Birthday` field) or the text of its `Birthday` field. `str(self.birthday)` is therefore `"None"` or that text.
- **Mutable state.**
  - `Field`, `Record` and `AddressBook` are classes whose methods change their fields.
  - The book keeps its dictionary as a key sequence, in insertion order, plus a map.
  - The paging cursor appears once `__iter__` has run: `iterating`, `currentPage`, `pageSize`, `startIndex`, `endIndex`.
- **Outcome tags.** Every message the source returns or raises is an outcome tag, for example `PhoneNotFound`, `NoBirthday`, `KeyNotFound` or a `FieldError`.
- **`date.today()`** is the parameter `today`.

Behaviour of the code that is easy to miss:

- **Date format.** `strptime`'s `%d` and `%m` accept zero-padded and one-digit days and months, and `%d` also accepts a space-padded day (`" 5.3.1990"`). `DayTexts` and `MonthTexts` list the spellings the code accepts.
- **Missing birthday after a reload.** The csv writer writes Python's `None` as an empty cell. A record saved without a birthday therefore comes back with the birthday text `""`, not `"None"`. Both texts give the "no birthday" outcome (`AbsentBirthday`).
- **29 February.** For a 29 February birthday, `birthday.replace(year=...)` raises `ValueError` in a common year. `days_to_birthday` does not catch it (classes.py:130-132); the handler's `input_error` wrapper turns it into its generic argument message. It is the `ReplaceFailed` outcome.

## Model

| member | source | states |
|---|---|---|
| Validators.IsValidPhone | classes.py:49-51 | the phone check: an accepted text has 12 or 13 characters and ends in a digit; PhonePatternAccepted and PhonePatternParts characterise it exactly |
| Validators.PhonePatternAccepted | classes.py:49-51 | every text of the form optional '+', a digit 1-9, eleven digits is a valid phone |
| Validators.PhonePatternParts | classes.py:49-51 | every valid phone splits into an optional '+', a digit 1-9 and exactly eleven digits (the converse) |
| Validators.ValidPhoneShape | classes.py:50 | a valid phone has 12 or 13 characters and contains no '[', ']', space or ',' |
| Validators.ParseDate | classes.py:69-74 | whatever `%d.%m.%Y` reads is a date `datetime.date` accepts (year 1-9999, an existing day of the month) |
| Validators.IsValidDate | classes.py:69-74 | the date check (`strptime` reads a date from the text): an accepted text contains a '.'; DateSpellingAccepted and AcceptedDateIsSpelled characterise it exactly |
| Validators.ParseDotted | classes.py:71 | a text with two dots is read field by field: day before the first dot, month between the dots, year after the second |
| Validators.DateSpellingAccepted | classes.py:69-74 | every real date, in every spelling `%d` and `%m` allow with a four-digit year, is accepted and read back as that date |
| Validators.AcceptedDateIsSpelled | classes.py:69-74 | every accepted text is such a spelling of the date it is read as (the converse) |
| Validators.RejectsMissingDay | classes.py:69-74 | a day past the end of its month (31.04, 29.02 of a common year) is refused although it matches the pattern |
| Validators.RejectsYearZero | classes.py:69-74 | year 0000 is refused |
| Validators.RejectsDayZero | classes.py:69-74 | day 00 is refused |
| Validators.RejectsYearLength | classes.py:69-74 | a year of other than four characters is refused |
| Validators.RejectsAbsentBirthday | classes.py:69-74 | "None" and the empty text are not dates |
| Validators.DayTextParses | classes.py:71 | each listed day spelling reads as its day and contains no dot |
| Validators.ParsedDayText | classes.py:71 | each token `%d` accepts is one of the listed spellings of a day 1-31 |
| Validators.MonthTextParses | classes.py:71 | each listed month spelling reads as its month and contains no dot |
| Validators.ParsedMonthText | classes.py:71 | each token `%m` accepts is one of the listed spellings of a month 1-12 |
| Validators.YearTextParses | classes.py:71 | the zero-padded four-digit year text reads as its year |
| Validators.ParsedYearText | classes.py:71 | each token `%Y` accepts is the zero-padded text of a year 0-9999 |
| Fields.Field.constructor | classes.py:15-17 | the value is stored unchecked |
| Fields.NewField | classes.py:15-19 | construction fails exactly when the field is required and its value is empty, and otherwise stores the value unchecked |
| Fields.Field.SetValue | classes.py:41-85 | the setter stores the value exactly when its kind accepts it (names always, phones when valid, birthdays when a real date), otherwise reports WrongPhone or WrongDate and keeps the old value |
| Fields.Field.Equals | classes.py:27-30 | `__eq__`: a field equals itself, and fields of different kinds are never equal |
| Fields.PhoneEqualityIsValueEquality | classes.py:27-30 | two phone fields are equal exactly when their values are |
| Lists.RemoveFirst | classes.py:118 | `list.remove`: the result is one shorter and keeps every position before the first occurrence (RemoveFirstShape states the rest) |
| Lists.IndexOf | classes.py:111 | `index` finds a position holding the value with no earlier one |
| Lists.ReplaceFirst | classes.py:111-112 | replacing the first occurrence keeps the length, puts the new value at that index and leaves every other position alone |
| Lists.ReplaceFirstElements | classes.py:111-112 | on a duplicate-free list the value set swaps old for new, and the list stays duplicate-free exactly when the new value was not already present |
| Lists.RemoveFirstShape | classes.py:118 | `remove` shortens the list by one, keeps the positions before the first occurrence, shifts those after it left, and drops exactly one copy |
| Lists.RemoveFirstElements | classes.py:118 | on a duplicate-free list `remove` takes out exactly that value and keeps the list duplicate-free |
| Lists.Distinct | classes.py:104 | `list(set(s))` has the same value set as `s` and no duplicates |
| Lists.DistinctLength | classes.py:104 | a duplicate-free list has as many entries as values |
| Records.AddedPhones | classes.py:102-104 | after `add_phone` the list contains the phone, has no duplicates, and its value set is the old one plus the phone |
| Records.AddPhoneIdempotent | classes.py:102-104 | adding a phone a second time changes neither the value set nor the length, and the phone occurs exactly once |
| Records.Record.constructor | classes.py:89-92 | name, phones and birthday are stored as given |
| Records.Record.AddPhone | classes.py:102-105 | the new phone list is the deduplicated old list plus the phone; the name and birthday do not change |
| Records.Record.ChangePhone | classes.py:107-114 | an absent old number gives not-found with the list unchanged; otherwise only its first position takes the new number, with no deduplication |
| Records.ChangeKeepsPosition | classes.py:111-112 | changing A to C in [A, B] gives [C, B] |
| Records.Record.DeletePhone | classes.py:116-121 | an absent phone gives not-found with the list unchanged; otherwise exactly its first occurrence is removed |
| Records.Record.DaysToBirthday | classes.py:123-133 | the outcome is the birthday calculation on `str(self.birthday)`, and no birthday gives NoBirthday |
| Birthdays.MoveToYear | classes.py:130-132 | `replace(year=y)` fails exactly when the birthday's day and month do not exist in year y, and otherwise gives that day and month in year y |
| Birthdays.DaysToBirthday | classes.py:124-133 | the calculation: the no-birthday outcome comes exactly from texts that are not valid dates |
| Birthdays.Upcoming | classes.py:129-133 | the calculation on a parsed birthday: never the no-birthday outcome, and a count lands on the birthday's day and month, not before today |
| Birthdays.AbsentBirthday | classes.py:124-127 | the texts "None" and "" give the no-birthday outcome |
| Birthdays.ReplaceFailedIff | classes.py:130-132 | `replace` fails exactly for 29 February moved into a common year, or for a birthday already past in year 9999 |
| Birthdays.ReplaceFailedDate | classes.py:130-132 | the same, for a parsed birthday date |
| Birthdays.DaysBounds | classes.py:129-133 | a count lands on the birthday's day and month, in today's year or the next, never before today, is the ordinal difference, and lies in 0..365 |
| Birthdays.UpcomingBounds | classes.py:129-133 | the same, for a parsed birthday date |
| Birthdays.ZeroDaysIff | classes.py:129-133 | the count is 0 exactly when today has the birthday's day and month |
| Birthdays.NextOccurrence | classes.py:130-132 | no date with the birthday's day and month lies at or after today and before the date reached |
| Birthdays.CountExists | classes.py:130-132 | a valid birthday not on 29 February always gives a count before year 9999 |
| Birthdays.SpecimenBirthday | classes.py:125 | the text 15.03.1990 reads as 15 March 1990 |
| Birthdays.MarchExample | classes.py:129-133 | a 15 March birthday gives 0 days on 15.03.2024, and 364 days to 15.03.2025 on 16.03.2024 |
| Calendar.OrdinalMonotone | classes.py:131-133 | the ordinal `date - date` subtracts is strictly increasing in the order `<` uses |
| Calendar.OrdinalInjective | classes.py:131-133 | two real dates with the same ordinal are the same date |
| Calendar.OrdinalWithinYear | classes.py:133 | the ordinal of a real date lies within its year |
| Calendar.YearStep | classes.py:133 | each year adds exactly its length (365 or 366) to the ordinal |
| Paging.PagesCover | classes.py:155-164 | the pages from a cursor position, concatenated, are the records from that position in order |
| Paging.PageSizes | classes.py:159 | every page holds 10 records except the last, which holds 1 to 10 |
| Paging.PageCount | classes.py:156-162 | there are ceil(n/10) pages for n records left, and none for an empty book |
| Paging.TwentyFiveValues | classes.py:159-161 | 25 records give pages of 10, 10 and 5 |
| AddressBooks.ValuesOf | classes.py:159 | `list(self.data.values())` lists the record of each key in key order |
| AddressBooks.InsertKey | classes.py:140 | `d[k] = v` keeps an existing key in place and appends a new one, keeping the keys duplicate-free |
| AddressBooks.AddressBook.constructor | classes.py:138 | a new book is empty and has no paging cursor |
| AddressBooks.AddressBook.AddRecord | classes.py:139-140 | the record is stored under its own name, overwriting in place or appending; the cursor is untouched |
| AddressBooks.AddressBook.DeleteRecord | classes.py:142-143 | an absent name raises KeyError and changes nothing; otherwise exactly that key is removed and every other entry keeps its record and order |
| AddressBooks.AddressBook.ChangeRecord | classes.py:145-146 | the new record is stored under its own name, and the name passed in is never removed |
| AddressBooks.AddressBook.Iter | classes.py:148-153 | the cursor is reset to page 1 of size 10, so the pages still to come are all pages of the book, on every call |
| AddressBooks.AddressBook.Next | classes.py:155-164 | the next slice of at most ten records is handed out and the cursor advances, StopIteration comes once the records run out, and `__next__` before `__iter__` is an error |
| PhoneCell.EncodePhones | data_manager.py:40 | the cell `str(phones)` writes, each phone rendered by `Field.__repr__` (classes.py:24-25) as its value: it opens with '[' and closes with ']' |
| PhoneCell.DecodePhones | data_manager.py:15-16 | the phones read back from a cell: one more than the commas left after stripping |
| PhoneCell.Strip | data_manager.py:15 | the cleaned cell has no '[', ']' or space left |
| PhoneCell.SplitJoin | data_manager.py:16 | the pieces of a split, joined with the separator, give the text back |
| PhoneCell.SplitPiecesFree | data_manager.py:16 | no piece of a split contains the separator |
| PhoneCell.SplitCount | data_manager.py:16 | a split gives one more piece than there are separators |
| PhoneCell.SplitOfJoin | data_manager.py:16 | splitting a join of separator-free pieces gives the pieces back |
| PhoneCell.StripJoined | data_manager.py:15 | cleaning the written list of cell-safe values leaves the values joined by bare commas |
| PhoneCell.RoundTrip | data_manager.py:15-16 | a non-empty list of values with no bracket, space or comma, written as `str(list)` and read back, gives the same values in order |
| PhoneCell.ValidPhonesRoundTrip | data_manager.py:15-17 | every non-empty list of valid phones survives a write and a reload |
| PhoneCell.EmptyListDoesNotRoundTrip | data_manager.py:15-17 | the empty list is written as "[]" and read back as one empty phone |
| DataManager.LoadRows | data_manager.py:13-21 | loading inserts the rows' names in file order and binds each name to a record built unchecked from the last row carrying it |
| DataManager.LoadedKeys | data_manager.py:13-21 | the loaded book has one key per distinct name of the file and no other |
| DataManager.KeysFromElements | data_manager.py:21 | inserting names keeps the keys duplicate-free and adds exactly those names |
| DataManager.KeysFromDistinct | data_manager.py:21 | inserting names that are new and pairwise different appends them in order |
| DataManager.DistinctNamesKeepOrder | data_manager.py:13-21 | a file with pairwise different names loads with its names as the keys, in file order |
| DataManager.BirthdayCell | data_manager.py:41 | the birthday cell: it holds a valid date exactly when the record has a birthday whose text is one (an absent birthday is written as the empty cell) |
| DataManager.RowOf | data_manager.py:38-41 | the row written for a record: its name cell is the record's name |
| DataManager.ReloadKeepsOrder | data_manager.py:13-21 | rows named one by one after duplicate-free keys reload with those keys, in that order |
| DataManager.LastRowWith | data_manager.py:21 | the last row carrying a name carries it, and no later row does |
| DataManager.RowsFromAt | data_manager.py:21 | storing rows binds each of their names to its last row and leaves other names as they were |
| DataManager.LastRowWins | data_manager.py:19-21 | after loading, a name is bound exactly when it occurs, and then to the last row carrying it, so a later row overwrites an earlier one |
| DataManager.WriteRows | data_manager.py:37-41 | one row per record in the book's order, holding its name, its encoded phones and its birthday cell; reloading such rows gives back the same key order when every record is filed under its own name |
| DataManager.RowRoundTrip | data_manager.py:14-18 | a written row of a record whose phone list is non-empty and free of brackets, spaces and commas reloads with the same name and phones, and with the birthday as stored, or "" when there was none; an empty phone list does not survive (EmptyListDoesNotRoundTrip) |

## Left out

- File handling: opening, reading and writing the file, the header line, csv quoting and the missing-file fallback. A cell is the raw text the csv module delivers. `open_file` ignores its `filename` argument and always opens `data.csv`, which plays no part here.
- `date.today()`: the current date is the parameter `today`.
- Message texts: every returned or raised message is an outcome tag. The `strftime("%d %B")` month-name rendering of the birthday is locale-dependent and not modelled; the target date is.
- `Record.__str__`, `Field.__str__`, `__repr__` and `__hash__`: rendering and hashing are not modelled. `__repr__` appears only through its effect on the phone cell, where it renders a phone as its bare value.
- Records.Record.AddPhone: Python's `list(set(...))` orders the phones by hash. The model keeps each phone at its first occurrence instead. Only the value set and the absence of duplicates are claimed as the source's behaviour.
- Validators.IsValidPhone: Python's `$` also matches before a final newline and `\d` matches any Unicode digit. The model accepts ASCII digits and the exact text only.
- Validators.ParseDate: Python's `%d` uses Unicode-aware `\d` in its `[12]\d` alternative, and `%Y` uses `\d\d\d\d`; `%m` (`1[0-2]|0[1-9]|[1-9]`) has no `\d`. The model reads ASCII digits only. `str(date)` is the text itself, since every value here is a string.
- Field values other than strings: `not value` for a required field is modelled as the empty text.
- Records.Record: the phone list is a `seq` value. In Python, `Record.__init__` keeps the caller's list object (classes.py:91), and `append`, index assignment and `remove` (classes.py:103, 112, 118) change that object in place, where any other holder of it would see the change. The model does not capture this sharing; nothing in the code shares a phone list.
- `Record(name)` with the default `phones=None`: `add_phone` would then fail on `None.append`. The model's phone list is always a list.
- The `for` statement's use of `__iter__` returning `self`: `Iter` and `Next` model the two calls and their cursor fields, not the interpreter's loop.
- handlers.py: the command dispatch, the exception-to-message wrapper, clearing the screen and exiting. Its handlers reload and rewrite the file around each core operation. It imports a function data_manager.py does not define, and its `show_all` repeats the decode loop.
- Searching records by a name or phone substring: no such operation exists in the code.
