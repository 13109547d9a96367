# Address book reporter, modelled in Dafny

This project models the reporting core of a small Java address book. The
address book reads lines of the form `name,sex,day/month/year`, such as
`Bill McKnight,Male,16/03/77`, and turns each one into an `AddressBookEntry`.
It then answers three questions about the entries:

- how many are female;
- who is the oldest;
- how many days lie between the birthdates of two people named by prefix.

The model follows `FileAddressBookReporter` and `AddressBookEntry` as they
are written, including their quirks.

## Modules

- `JavaText` (`java_text.dfy`) covers the parts of the Java library the
  reporter relies on:
  - `String.trim` removes characters up to U+0020 from both ends.
  - `String.split` on a single character drops trailing empty pieces, and
    returns a string with no separator whole.
  - `equalsIgnoreCase` and `Integer.parseInt` (optional sign, `int` range).
  - The 32-bit `int` line counter, which wraps on `++`.
- `LocalDates` (`local_dates.dfy`) is `java.time.LocalDate` on the proleptic
  Gregorian calendar of ISO 8601. It covers:
  - the validity check of `LocalDate.of`;
  - `isBefore`;
  - `toEpochDay` exactly as Java computes it;
  - `ChronoUnit.DAYS.between`.
  The lemmas prove that the epoch day numbers valid dates in calendar
  order, one day apart across month, year and leap-day ends.
- `Exceptions` (`exceptions.dfy`) holds the exceptions the reporter can end
  with, and a `Result` type that carries them.
- `Entries` (`entries.dfy`) is the mutable `AddressBookEntry` class with its
  two constructors and three setters.
- `Reporter` (`reporter.dfy`) holds:
  - the three validators and the parse of one line;
  - `Ingest`, a specification of the read loop;
  - the class `FileAddressBookReporter`, whose `GetAllAddressEntries` loop
    advances the `addressbookLine` field and builds fresh entries, proved
    against `Ingest`;
  - the three queries.
- `AddressLines` (`address_lines.dfy`) is the partner of the validators. It
  writes dates and lines in the file format and proves that the reporter
  reads them back unchanged.
- `Fixtures` (`fixtures.dfy`) restates the unit tests as proved facts.

Some of the code's behaviour is easy to misread; the model follows it as
written:

- `getSex` returns the trimmed input with its case as written. "FEMALE" is
  accepted, but it is then not counted as "Female".
- The two-digit-year branch assigns `"19" + year` to a local that is never
  read again. `16/03/87` is therefore the year 87.
- The oldest-person comparator never returns 0. On equal birthdates the last
  tied entry wins, not the first.
- A date token that is not a number raises an `InvalidAddressException` that
  wraps the `NumberFormatException`. That exception quotes no line number.

## Model

Source paths are relative to the repository root.

| member | source | states |
|---|---|---|
| JavaText.TrimShape | AddressBook/src/main/java/de/spillmann/address/FileAddressBookReporter.java:147 | `trim` returns a core with no space at either end; the input is that core with only characters up to U+0020 before and after it |
| JavaText.TrimUnique | AddressBook/src/main/java/de/spillmann/address/FileAddressBookReporter.java:165 | `trim` is determined by that shape: spaces, a trimmed core, spaces always trim to the core |
| JavaText.TrimIdempotent | AddressBook/src/main/java/de/spillmann/address/FileAddressBookReporter.java:185 | trimming twice is trimming once; a trimmed string is left alone (the date is trimmed whole, then each token again) |
| JavaText.TrimEmpty | AddressBook/src/main/java/de/spillmann/address/FileAddressBookReporter.java:147-149 | `trim` gives the empty string exactly for a string of spaces only |
| JavaText.SplitShape | AddressBook/src/main/java/de/spillmann/address/FileAddressBookReporter.java:70 | `split` pieces hold no separator; a string without the separator comes back whole; otherwise the pieces are a prefix of the full split whose last piece is non-empty, and the dropped pieces are empty |
| JavaText.JoinSplitAll | AddressBook/src/main/java/de/spillmann/address/FileAddressBookReporter.java:187 | the full split loses nothing: joining the pieces with the separator gives the input back |
| JavaText.SplitCons | AddressBook/src/main/java/de/spillmann/address/FileAddressBookReporter.java:70 | a non-empty first piece comes first, followed by the split of the rest |
| JavaText.EqualsIgnoreCaseLower | AddressBook/src/main/java/de/spillmann/address/FileAddressBookReporter.java:167 | comparing ignoring case with a lower-case word is comparing the lower-cased input with it |
| JavaText.ParseIntMeaning | AddressBook/src/main/java/de/spillmann/address/FileAddressBookReporter.java:199 | what `parseInt` accepts fits in an `int` and is a non-empty digit run, alone or after one `-` or `+`; its value is the digits' decimal value, negated after `-` |
| JavaText.ParsePadDigits | AddressBook/src/main/java/de/spillmann/address/FileAddressBookReporter.java:199 | `parseInt` reads a zero-padded number of up to nine digits back as that number |
| JavaText.ParseSignedPadDigits | AddressBook/src/main/java/de/spillmann/address/FileAddressBookReporter.java:199 | `parseInt` reads `-` or `+` followed by a zero-padded number of up to nine digits as the negated or the plain number |
| JavaText.IncrementWraps | AddressBook/src/main/java/de/spillmann/address/FileAddressBookReporter.java:68 | the line counter's `++` adds one below `Integer.MAX_VALUE` and lands on `Integer.MIN_VALUE` from it, the only step that goes down |
| JavaText.Utf16LengthBounds | AddressBook/src/main/java/de/spillmann/address/FileAddressBookReporter.java:189-190 | `String.length()` counts one or two UTF-16 code units per character, and equals the character count exactly when no character lies above U+FFFF |
| JavaText.AdvanceAdds | AddressBook/src/main/java/de/spillmann/address/FileAddressBookReporter.java:68 | below the wrap, `n` increments add `n` to the counter |
| LocalDates.EpochDayOrder | AddressBook/src/main/java/de/spillmann/address/FileAddressBookReporter.java:110 | `isBefore` holds exactly when the epoch day is smaller, and two valid dates are equal exactly when their epoch days are |
| LocalDates.DaysBetweenSign | AddressBook/src/main/java/de/spillmann/address/FileAddressBookReporter.java:131 | `DAYS.between` is positive exactly when the first date is earlier, zero exactly on equal dates, and antisymmetric |
| LocalDates.DaysBetweenNext | AddressBook/src/main/java/de/spillmann/address/FileAddressBookReporter.java:131 | the day after a valid date is valid and one day later, across month, year and 29 February |
| LocalDates.EpochDayNext | AddressBook/src/main/java/de/spillmann/address/FileAddressBookReporter.java:131 | `toEpochDay` moves forward by exactly one from a date to the next |
| LocalDates.NextDayValid | AddressBook/src/main/java/de/spillmann/address/FileAddressBookReporter.java:199 | the next day of a valid date passes `LocalDate.of` and comes after it |
| LocalDates.YearStartStep | AddressBook/src/main/java/de/spillmann/address/FileAddressBookReporter.java:131 | consecutive years start 365 days apart, or 366 after a leap year |
| LocalDates.MonthStartStep | AddressBook/src/main/java/de/spillmann/address/FileAddressBookReporter.java:131 | consecutive months start as many days apart as the earlier month is long |
| LocalDates.LeapDaysStep | AddressBook/src/main/java/de/spillmann/address/FileAddressBookReporter.java:131 | the leap-day count grows by one exactly after a leap year, for negative years too |
| LocalDates.EpochIsDayZero | AddressBook/src/main/java/de/spillmann/address/FileAddressBookReporter.java:131 | 1970-01-01 is epoch day 0 |
| Entries.AddressBookEntry.constructor | AddressBook/src/main/java/de/spillmann/address/AddressBookEntry.java:34-39 | the entry holds exactly the given name, sex and birthdate |
| Entries.AddressBookEntry.Empty | AddressBook/src/main/java/de/spillmann/address/AddressBookEntry.java:29-31 | the no-argument constructor gives an entry with placeholder fields |
| Entries.AddressBookEntry.SetName | AddressBook/src/main/java/de/spillmann/address/AddressBookEntry.java:43-45 | the name becomes the argument; sex and birthdate are unchanged |
| Entries.AddressBookEntry.SetSex | AddressBook/src/main/java/de/spillmann/address/AddressBookEntry.java:49-51 | the sex becomes the argument; name and birthdate are unchanged |
| Entries.AddressBookEntry.SetBirthdate | AddressBook/src/main/java/de/spillmann/address/AddressBookEntry.java:55-57 | the birthdate becomes the argument; name and sex are unchanged |
| Reporter.GetNameOutcome | AddressBook/src/main/java/de/spillmann/address/FileAddressBookReporter.java:145-153 | `getName` fails exactly on a name of spaces only, quoting the counter; otherwise it returns the non-empty trimmed core of the input |
| Reporter.GetSexOutcome | AddressBook/src/main/java/de/spillmann/address/FileAddressBookReporter.java:163-171 | `getSex` succeeds exactly when the trimmed input is "female" or "male" ignoring case, and returns the trimmed input with its case unchanged; otherwise it fails quoting the counter |
| Reporter.GetAddressDateOutcome | AddressBook/src/main/java/de/spillmann/address/FileAddressBookReporter.java:182-206 | on the slash tokens of the trimmed input: fewer than three is an index error; wrong `length()` of the raw tokens, counted in UTF-16 code units, fails first; then a token that is no integer; then an invalid date throws `DateTimeException`; otherwise the date of the three trimmed tokens as written |
| Reporter.ParseLineFields | AddressBook/src/main/java/de/spillmann/address/FileAddressBookReporter.java:70-74 | a line parses exactly when it has three comma fields and name, sex and date validate; the entry then holds the validated fields 0, 1 and 2 |
| Reporter.ParseLineFirstError | AddressBook/src/main/java/de/spillmann/address/FileAddressBookReporter.java:70-74 | a failing line raises the exception of the first of fields 0, 1, 2 that fails validation; a missing field is an index error only once every field before it has validated |
| Reporter.ParseLineEntry | AddressBook/src/main/java/de/spillmann/address/FileAddressBookReporter.java:70-74 | a parsed entry has a non-empty trimmed name and a sex word, neither with a comma; a message exception quotes the counter given |
| Reporter.IngestSucceedsIff | AddressBook/src/main/java/de/spillmann/address/FileAddressBookReporter.java:65-79 | reading the lines succeeds exactly when every line parses with the counter advanced once per line up to and including it |
| Reporter.IngestEntries | AddressBook/src/main/java/de/spillmann/address/FileAddressBookReporter.java:65-79 | a successful read gives one entry per line, in line order, each parsed with its own counter value, and advances the counter by the number of lines |
| Reporter.IngestStopsAtFirstFailure | AddressBook/src/main/java/de/spillmann/address/FileAddressBookReporter.java:65-79 | a failed read ends with the exception of the first line that does not parse; the counter stays at that line's number and every earlier line parsed |
| Reporter.ReadEntry | AddressBook/src/main/java/de/spillmann/address/FileAddressBookReporter.java:70-74 | one loop pass creates a fresh entry and sets its fields from the validated comma fields, or stops with the first exception; both as the line parse says |
| Reporter.FileAddressBookReporter.constructor | AddressBook/src/main/java/de/spillmann/address/FileAddressBookReporter.java:51 | a new reporter's line counter is 0 |
| Reporter.FileAddressBookReporter.GetAllAddressEntries | AddressBook/src/main/java/de/spillmann/address/FileAddressBookReporter.java:65-79 | the result and the new counter are those of `Ingest` from the old counter; the entries are fresh, pairwise distinct objects holding the parsed fields |
| Reporter.CountFemalePerson | AddressBook/src/main/java/de/spillmann/address/FileAddressBookReporter.java:99-103 | the count is at most the number of entries |
| Reporter.CountFemaleIsCardinality | AddressBook/src/main/java/de/spillmann/address/FileAddressBookReporter.java:99-103 | the count is the number of positions whose entry has sex exactly "Female" |
| Reporter.CountFemaleAppend | AddressBook/src/main/java/de/spillmann/address/FileAddressBookReporter.java:101 | an appended entry adds one exactly when its sex is exactly "Female" |
| Reporter.CountFemaleExtremes | AddressBook/src/main/java/de/spillmann/address/FileAddressBookReporter.java:99-103 | all entries are counted exactly when all are "Female", and none exactly when none is |
| Reporter.CompareOnTies | AddressBook/src/main/java/de/spillmann/address/FileAddressBookReporter.java:108-114 | on equal birthdates the comparator answers -1 in both orders, so it is not antisymmetric |
| Reporter.LastOldestUnique | AddressBook/src/main/java/de/spillmann/address/FileAddressBookReporter.java:107-117 | at most one position is the last of those born earliest |
| Reporter.Reduce | AddressBook/src/main/java/de/spillmann/address/FileAddressBookReporter.java:108-114 | the `maxBy` fold ends on the last of the entries born earliest |
| Reporter.CalculateOldestPerson | AddressBook/src/main/java/de/spillmann/address/FileAddressBookReporter.java:107-117 | it fails with `NoSuchElementException` exactly on an empty list; otherwise it returns the list's last entry among those born earliest |
| Reporter.OldestIsEarliest | AddressBook/src/main/java/de/spillmann/address/FileAddressBookReporter.java:107-117 | the oldest entry is in the list and nobody in the list is born before it |
| Reporter.FindFirst | AddressBook/src/main/java/de/spillmann/address/FileAddressBookReporter.java:123-124 | `findFirst` after the filter: the first matching position, or no position when none matches |
| Reporter.CalculateDayDifference | AddressBook/src/main/java/de/spillmann/address/FileAddressBookReporter.java:121-135 | it fails exactly when one of the names has no match; otherwise it gives the days from the first match of the older name to the first match of the younger |
| Reporter.FirstMatchUnique | AddressBook/src/main/java/de/spillmann/address/FileAddressBookReporter.java:123-128 | the first match of a name is unique |
| Reporter.DayDifferenceOfFirstMatches | AddressBook/src/main/java/de/spillmann/address/FileAddressBookReporter.java:121-135 | given the first matches, the difference is the days between their birthdates; it is positive exactly when the older is born earlier, and zero exactly on the same day |
| Reporter.DayDifferenceSwap | AddressBook/src/main/java/de/spillmann/address/FileAddressBookReporter.java:121-135 | swapping the names negates the difference, and fails exactly when it failed |
| Reporter.DayDifferenceNextDay | AddressBook/src/main/java/de/spillmann/address/FileAddressBookReporter.java:131 | a first match born the day after the other's first match is 1 day younger |
| AddressLines.FormatDateRoundTrip | AddressBook/src/main/java/de/spillmann/address/FileAddressBookReporter.java:182-206 | a date written `dd/mm/yy` or `dd/mm/yyyy` reads back as the same date, and a two-digit year is kept as written |
| AddressLines.FormatLineFields | AddressBook/src/main/java/de/spillmann/address/FileAddressBookReporter.java:70 | a written line splits into its name, sex and date |
| AddressLines.LineRoundTrip | AddressBook/src/main/java/de/spillmann/address/FileAddressBookReporter.java:70-74 | a line written from an entry with a trimmed comma-free name and a sex word parses back into that entry |
| AddressLines.ExtraFieldIgnored | AddressBook/src/main/java/de/spillmann/address/FileAddressBookReporter.java:70-74 | comma fields after the third do not change the entry |
| Fixtures.ShortYearRefused | AddressBook/src/test/java/de/spillmann/address/FileAddressTest.java:119-123 | `16/03/7` fails the length check |
| Fixtures.ShortMonthRefused | AddressBook/src/test/java/de/spillmann/address/FileAddressTest.java:129-133 | `16/3/87` fails the length check |
| Fixtures.ShortDayRefused | AddressBook/src/test/java/de/spillmann/address/FileAddressTest.java:139-143 | `6/03/87` fails the length check |
| Fixtures.LettersRefused | AddressBook/src/test/java/de/spillmann/address/FileAddressTest.java:149-153 | `xx/03/87` passes the length check and fails as a number |
| Fixtures.WideCharacterDay | AddressBook/src/main/java/de/spillmann/address/FileAddressBookReporter.java:189-202 | the day `😀` is two UTF-16 code units long, passes the length check and fails as a number |
| Fixtures.WideCharacterTooLong | AddressBook/src/main/java/de/spillmann/address/FileAddressBookReporter.java:189-192 | the day `1😀` is three code units long and fails the length check |
| Fixtures.SignedDayRefusedByDate | AddressBook/src/main/java/de/spillmann/address/FileAddressBookReporter.java:199 | `-1/03/87` passes the length check and `parseInt`, and `LocalDate.of` refuses day -1 |
| Fixtures.MissingBirthdateField | AddressBook/src/main/java/de/spillmann/address/FileAddressBookReporter.java:70-74 | `Bill McKnight,Male` validates name and sex, then fails with an index error on the absent date field |
| Fixtures.FirstBadFieldReported | AddressBook/src/main/java/de/spillmann/address/FileAddressBookReporter.java:70-74 | ` ,xxx` reports the invalid name, not the invalid sex, because the name is read first |
| Fixtures.TwoDigitYearAsWritten | AddressBook/src/main/java/de/spillmann/address/FileAddressBookReporter.java:194-199 | `16/03/87` is 16 March of the year 87 |
| Fixtures.EmptyValuesRefused | AddressBook/src/test/java/de/spillmann/address/FileAddressTest.java:159-183 | an empty name, an empty sex and the sex `xxx` are refused |
| Fixtures.SexTrimmedCaseKept | AddressBook/src/test/java/de/spillmann/address/FileAddressTest.java:189-194 | ` Female ` gives `Female` and ` Male ` gives `Male`; ` FEMALE ` gives `FEMALE` |
| Fixtures.TestEntries | AddressBook/src/test/java/de/spillmann/address/FileAddressTest.java:41-45 | the five fixture entries hold the names, sexes and birthdates of the tests |
| Fixtures.FemaleCount | AddressBook/src/test/java/de/spillmann/address/FileAddressTest.java:52-63 | two of the five fixture entries are female |
| Fixtures.OldestPerson | AddressBook/src/test/java/de/spillmann/address/FileAddressTest.java:102-113 | the oldest fixture entry is Wes Jackson |
| Fixtures.DaysBetweenAcrossFebruary | AddressBook/src/test/java/de/spillmann/address/FileAddressTest.java:69-96 | 28 February to 1 March is 1 day in 1995 and 2 days in 1996 |
| Fixtures.UpperCaseFemaleNotCounted | AddressBook/src/main/java/de/spillmann/address/FileAddressBookReporter.java:101 | an entry whose sex was validated as ` FEMALE ` is not counted as female |

## Left out

- File I/O in `getAllAddressEntries`: opening the data file, `readLine` and the `close` in `finally` are not modelled. The loop reads a given sequence of lines instead, so `IOException` never occurs.
- Logging: all log4j calls are side effects with no contract and are dropped.
- `AddressBookAnalyser` (the `main` runner with console output) is not part of this model.
- The `AddressBookReporter` interface has no logic and is not part of this model.
- `InvalidAddressException`'s message text is not modelled. The error keeps the counter the message would quote and the reason.
- The getters of `AddressBookEntry` are reads of the class's fields. The constructors and setters state what those reads return.
- `AddressBookEntry.toString` is not modelled; nothing in the core calls it.
- Entries.AddressBookEntry.Empty: Java leaves the three fields `null`. The model starts them as "" and 1970-01-01, because the loop sets all three before an entry is read.
- Reporter.CountFemalePerson: a `null` sex (an entry never given one) would raise `NullPointerException` in Java; model entries always hold a string.
- `String.matches` is modelled for names without regular-expression metacharacters: the name starts with the given text and the rest holds no line terminator.
- Case mapping in `equalsIgnoreCase` covers ASCII letters only. Other Unicode case pairs that Java treats as equal are not modelled.
- `Integer.parseInt` accepts ASCII digits only, not other Unicode decimal digits.
- The `long` results of `countFemalePerson` and `calculateDayDifference` are unbounded integers. Their values always fit in 64 bits.
- Stream evaluation is modelled as the sequential left fold a sequential stream performs.
