# Address book bot: a Dafny model

`address_book_bot.py` is a console assistant that keeps contacts. A contact
(`Record`) has a name, a list of ten-digit phone numbers and an optional
birthday typed as `DD.MM.YYYY`. The `AddressBook` maps names to records and
remembers insertion order. It can list the contacts whose birthday falls
within the next seven days, grouped by weekday. Command handlers turn
argument words into book updates and reply strings. An `input_error`
decorator turns `ValueError`, `KeyError` and `IndexError` into replies.

This project models that core as immutable data and pure functions:

- `Results` defines `Option` and `Result`.
- `Text` covers ASCII digits, whitespace, `str.split()`, `str.strip()`,
  `str.lower()` and `str.join`.
- `Calendar` is the proleptic Gregorian calendar of `datetime.date`: leap
  years, month lengths, `toordinal()` and `weekday()`.
- `Fields` holds `Phone` validation, `Birthday` parsing with the exact rules
  of `strptime("%d.%m.%Y")`, and `strftime("%d.%m.%Y")`.
- `Lists` has the list helpers the record operations use.
- `Records` models `Record` and its phone and birthday operations, and
  `str(record)`.
- `AddressBook` keeps the book as the sequence of records in dictionary
  order. `AsMap` is the unordered map view the operations are stated against.
- `Upcoming` is `get_upcoming_birthdays`, with the reference date as a
  parameter.
- `Commands` holds `parse_input` and the seven handlers. Each maps
  `(arguments, book)` to a `Response`: the new book, the reply, and the line
  a record operation printed, if any.

The model follows the code as written, including these behaviours:

- `add_phone` appends a number that is already present. The membership
  test at line 54 compares a new `Phone` object by identity, and `Field` has
  no `__eq__`.
- `edit_phone` assigns the new value without validation. Its
  `except`/`return` lines (70-72) can never run.
- `Birthday` accepts what `strptime` accepts. That includes one-digit days
  and months (`1.2.2024`) and a day written as a space and a digit. The year
  must be exactly four digits and not `0000`.
- A 29 February birthday is not moved to another day. In a year that is not
  leap, `date.replace` raises and the whole query answers with that error.
  The same happens when the birthday is already past in the year 9999.
- Names are not checked for being non-empty.

## Model

| member | source | states |
|---|---|---|
| Fields.ParsePhone | address_book_bot.py:29-36 | a phone is accepted exactly when it is ten ASCII digits; the stored value is the input unchanged, otherwise the error is the invalid-phone error |
| Fields.ParseBirthday | address_book_bot.py:38-43 | a parsed birthday is always a real calendar date; any failure is the invalid-date error |
| Fields.ParseBirthdayExactly | address_book_bot.py:38-43 | parsing gives date `dt` if and only if `dt` is a real date and the string is `day.month.year` with each piece matching its `strptime` directive and reading as that field |
| Fields.ParseSound | address_book_bot.py:40-41 | a successful parse comes from a string of the shape `%d.%m.%Y` whose pieces read as the date |
| Fields.ParseAccepts | address_book_bot.py:40-41 | any three pieces that match their directives and name a real date parse to that date |
| Fields.FormatDate | address_book_bot.py:198 | `%d.%m.%Y` text is zero-padded `DD.MM.YYYY` whose day, month and year pieces read back as the date's fields |
| Fields.FormatThenParse | address_book_bot.py:90 | formatting a date as `%d.%m.%Y` and parsing it again gives the same date |
| Fields.ParseThenFormat | address_book_bot.py:198 | a zero-padded `DD.MM.YYYY` string that parses is given back unchanged by formatting |
| Fields.Pad4RoundTrip | address_book_bot.py:90 | the four-digit year text and its value determine each other |
| Fields.NoThirtyFirstOfFebruary | address_book_bot.py:41 | "31.02.2024" is rejected |
| Fields.NoLeapDayIn2023 | address_book_bot.py:41 | "29.02.2023" is rejected (2023 is not leap) |
| Fields.LeapDayIn2024Accepted | address_book_bot.py:41 | "29.02.2024" is 29 February 2024 |
| Fields.ShortYearRejected | address_book_bot.py:41 | a two-digit year is rejected |
| Fields.YearZeroRejected | address_book_bot.py:41 | the year 0000 matches the pattern but is not a date |
| Fields.ShortFieldsAccepted | address_book_bot.py:41 | one-digit day and month are accepted: "1.2.2024" is 1 February 2024 |
| Calendar.DaysInMonth | address_book_bot.py:41 | months have 28 to 31 days, and 29 exactly for February of a leap year |
| Calendar.OrdinalOrder | address_book_bot.py:114 | comparing dates (`<`) agrees with comparing their day ordinals, and equal ordinals mean equal dates |
| Calendar.SameDayYearsApart | address_book_bot.py:114-117 | two dates with the same month and day in different years are at least 365 days apart |
| Calendar.KnownWeekdays | address_book_bot.py:119 | 1 January of year 1 and 10 June 2024 are Mondays, 13 June 2024 a Thursday |
| Records.NewRecord | address_book_bot.py:45-48 | a new record has the given name, no phones and no birthday |
| Records.AddPhone | address_book_bot.py:51-57 | a valid number is appended at the end with all earlier entries kept, even if already listed; an invalid one leaves the record unchanged and prints the validation error |
| Records.AddPhoneTwiceDuplicates | address_book_bot.py:54 | adding the same valid number twice lists it two more times |
| Records.AddPhoneKeepsValidity | address_book_bot.py:51-57 | if all stored numbers are ten digits, they still are after `add_phone` |
| Records.RemovePhone | address_book_bot.py:59-60 | the phones become the list filtered of that number, in their original order; every other entry keeps its multiplicity, and an absent number changes nothing |
| Records.RemovePhoneKeepsOrder | address_book_bot.py:60 | an entry other than the removed number stays between the filtered entries that were before it and those that were after it |
| Records.EditPhone | address_book_bot.py:62-74 | only the first entry equal to the old number changes, in place, to the new one; length and other entries are kept; with no match nothing changes and "not found" is printed |
| Records.EditPhoneSkipsValidation | address_book_bot.py:67 | editing a valid number to "12" stores "12", so "all phones are ten digits" is not kept |
| Records.FindPhone | address_book_bot.py:76-80 | a number is found exactly when it is listed, and the result is that number |
| Records.AddBirthday | address_book_bot.py:82-87 | a parsable string replaces the birthday and prints "added"; any other string leaves the birthday as it was and prints the error |
| Records.Describe | address_book_bot.py:89-91 | the text starts with the contact's name and contains every phone and, when set, the formatted birthday |
| AddressBook.Find | address_book_bot.py:97-98 | a record is found exactly when the name is a key, and it is the record stored under that name |
| AddressBook.AddRecord | address_book_bot.py:94-95 | the map view gains or rebinds only the record's name; an existing key keeps its position, a new key goes last |
| AddressBook.Delete | address_book_bot.py:100-104 | a present name is removed and the remaining keys keep their order; an absent name leaves the book unchanged and prints "not found" |
| Upcoming.ReplaceYear | address_book_bot.py:112 | `replace(year=y)` succeeds exactly for y in 1..9999 when the day exists in that year; an out-of-range year is reported as such |
| Upcoming.NextOccurrence | address_book_bot.py:111-115 | the occurrence has the birthday's month and day, is not before today, and is the earliest such date; it fails exactly for 29 February when this year's is missing or past, and for a birthday already past in 9999 |
| Upcoming.DueDay | address_book_bot.py:110-119 | a contact without a birthday is never due; a due weekday is that of a date with the birthday's month and day in the seven days from today |
| Upcoming.DaysUntil | address_book_bot.py:117 | the day count to an occurrence on or after today is non-negative, and zero only for today |
| Upcoming.InsertLookup | address_book_bot.py:120-122 | appending a name under a weekday extends that weekday's list at the end and leaves every other weekday's list alone |
| Upcoming.Insert | address_book_bot.py:120-122 | a new weekday key is added at the end, an existing key keeps its place |
| Upcoming.Collect | address_book_bot.py:109-122 | the loop completes exactly when every birthday can be moved to the needed year, and then every group is non-empty |
| Upcoming.CollectFailure | address_book_bot.py:109-115 | when the loop stops, it reports the error of the first birthday in book order that cannot be moved |
| Upcoming.CollectGroups | address_book_bot.py:109-122 | after the loop each weekday key appears once, and its list is exactly the names due on it, in book order |
| Upcoming.CollectKeyOrder | address_book_bot.py:120-121 | the weekday keys come in the order of the first contact due on each |
| Upcoming.DueDayWithinWeek | address_book_bot.py:111-119 | a contact is listed under weekday w exactly when a date with its birthday's month and day lies in the seven days from today and falls on w |
| Upcoming.NamesOnMembers | address_book_bot.py:109-123 | a name is listed under w exactly when the book has a record of that name due on w |
| Upcoming.NamesOnDistinct | address_book_bot.py:109-123 | no name is listed twice under a weekday |
| Upcoming.GetUpcomingBirthdays | address_book_bot.py:106-124 | the query fails exactly when some birthday cannot be moved; otherwise each key is once, a key exactly when someone is due, each list holds exactly the contacts due that weekday within the next seven days, once and in book order, and the keys come in first-due order |
| Upcoming.WeekAheadDueDays | address_book_bot.py:110-119 | with today 10 June 2024, Bob (13.06.1990) is due on Thursday and Carl (09.06.1985) is not due |
| Upcoming.WeekAheadExample | address_book_bot.py:106-124 | with today 10 June 2024, Bob (13.06.1990) is listed under Thursday and Carl (09.06.1985) nowhere |
| Commands.ParseInput | address_book_bot.py:126-129 | a blank line has no command; otherwise the command is a non-empty word with no upper-case letter and the arguments are non-empty words without whitespace |
| Commands.ParseInputRoundTrip | address_book_bot.py:126-129 | words laid out with any runs of whitespace (optional before the first and after the last, non-empty between two) parse back to the lower-cased first word and the other words; a line of whitespace only has no command |
| Commands.ParseInputReadsWords | address_book_bot.py:126-129 | every line is such a layout of words, and parsing it gives the lower-cased first word and the other words |
| Commands.AddContact | address_book_bot.py:131-144 | with two arguments the named contact exists afterwards, is created at the end when missing, and only it changes; a valid phone is appended, an invalid one is printed as an error while the contact is kept; the reply says added or updated regardless; other counts answer with the usage error |
| Commands.ChangePhone | address_book_bot.py:146-156 | with three arguments and a known name, only that contact changes, by `edit_phone`, and the reply is "updated"; an unknown name is "not found"; other counts answer with the usage error |
| Commands.ChangePhoneOfMissingNumber | address_book_bot.py:152-154 | an old number that is not listed changes nothing, prints "not found", and is still answered "updated" |
| Commands.ShowPhone | address_book_bot.py:158-168 | no arguments is the missing-arguments reply, an unknown name "not found"; for a known name the reply contains each of its phones; the book never changes |
| Commands.ShowAll | address_book_bot.py:170-177 | an empty book answers "empty", any other book a listing; the book never changes |
| Commands.ShowAllLayout | address_book_bot.py:170-177 | the listing is every record's text on its own line, the last one without the final line break and trailing blanks |
| Commands.AddBirthdayCmd | address_book_bot.py:179-189 | with two arguments and a known name the reply is "birthday added" either way; a parsable date is stored on that contact only, an unparsable one leaves the book unchanged and prints the error |
| Commands.ShowBirthday | address_book_bot.py:191-202 | the shown text is zero-padded `DD.MM.YYYY` and parses back to the stored birthday; an absent birthday, an unknown name and missing arguments each get their reply |
| Commands.BirthdayShownAsTyped | address_book_bot.py:179-202 | a birthday added as zero-padded `DD.MM.YYYY` is shown back exactly as typed |
| Commands.UpcomingBirthdays | address_book_bot.py:204-212 | the reply is the query's error exactly when some birthday cannot be moved, "none" exactly when nobody is due, a list exactly when the query succeeds and someone is due, and that list is the query's groups one per line with the trailing line break stripped; the book never changes |
| Commands.LeapDayBirthdayFailsQuery | address_book_bot.py:112 | a 29 February birthday in a non-leap year turns the whole reply into the day-out-of-range error |

## Left out

- The `main` loop (lines 225-262) is not modelled. It covers console input and output, the dispatch on command words, `hello`, `close`/`exit` and "Invalid command.".
- `save_data` and `load_data` (lines 214-223) are not modelled. They are pickle persistence, which is outside the logic.
- `input_error`'s catch-all `Exception` branch (lines 15-16) is not modelled. No handler in the model raises anything else.
- `print` calls become values: the `Notice` a record operation printed and the `Reply` a handler returns.
- The Ukrainian message texts are represented by `Reply` and `Notice` constructors. The fixed heading line of the upcoming-birthdays reply is left out as well; `UpcomingList` carries the lines after it.
- `date.today()` becomes the `today` parameter.
- `strftime('%A')` is modelled with the English weekday names of the C locale.
- Digits, whitespace and case are ASCII only. Python's `str.isdigit`, `\d`, `str.split` and `str.lower` also act on other Unicode characters.
- Fields.FormatDate: writes the year with four digits, zero-padded. CPython's `%Y` for years below 1000 depends on the platform's C library.
- Commands.ParseInput: returns no command for a blank line. In the source, the unpacking at line 127 raises there, outside `input_error`, and stops the program.
- Commands.ShowPhone: states that every phone appears in the reply, not the exact `", ".join` text.
- Upcoming.DueDayWithinWeek: stated only for birthdays the query can move to the needed year. For the others, the whole query fails (`Upcoming.GetUpcomingBirthdays`).
- Python's object sharing is not modelled. The handlers mutate the `Record` that is stored in the book; the model stores the updated record again under the same name, which gives the same book.
