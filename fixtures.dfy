/**
 * The unit tests of the address book restated as proved facts: the
 * validators on the literal inputs the tests use, and the queries on the
 * five fixture entries.
 */
module Fixtures {
  import opened JavaText
  import opened LocalDates
  import opened Exceptions
  import opened Entries
  import opened Reporter
  import opened AddressLines

  // ---------------------------------------------------------- validators

  /** A trimmed `a/b/c` with non-empty, slash-free tokens splits into them. */
  lemma DateTokens(text: string, a: string, b: string, c: string)
    requires text == a + ['/'] + b + ['/'] + c
    requires '/' !in a && '/' !in b && '/' !in c && a != [] && b != [] && c != []
    requires IsTrimmed(text)
    ensures Split(Trim(text), '/') == [a, b, c]
  {
    TrimIdempotent(text);
    SplitThree(a, b, c, '/');
  }

  /** A one-digit year is refused before any number is read. */
  lemma ShortYearRefused(line: int32)
    ensures GetAddressDate("16/03/7", line) == Failure(InvalidAddress(line, InvalidDate))
  {
    DateTokens("16/03/7", "16", "03", "7");
    GetAddressDateOutcome("16/03/7", line);
  }

  /** A one-digit month is refused. */
  lemma ShortMonthRefused(line: int32)
    ensures GetAddressDate("16/3/87", line) == Failure(InvalidAddress(line, InvalidDate))
  {
    DateTokens("16/3/87", "16", "3", "87");
    GetAddressDateOutcome("16/3/87", line);
  }

  /** A one-digit day is refused. */
  lemma ShortDayRefused(line: int32)
    ensures GetAddressDate("6/03/87", line) == Failure(InvalidAddress(line, InvalidDate))
  {
    DateTokens("6/03/87", "6", "03", "87");
    GetAddressDateOutcome("6/03/87", line);
  }

  /** Letters of the right length pass the length check and fail as a number. */
  lemma LettersRefused(line: int32)
    ensures GetAddressDate("xx/03/87", line) == Failure(InvalidNumber)
  {
    var tokens := ["xx", "03", "87"];
    DateTokens("xx/03/87", "xx", "03", "87");
    assert TokenLengthsOk(tokens);
    TrimIdempotent("xx");
    assert !IsDigit("xx"[0]);
    assert ParseInt(Trim(tokens[Day])) == Empty;
    GetAddressDateOutcome("xx/03/87", line);
  }

  /** `length()` counts a character above U+FFFF twice: `😀` passes as a two-character day and fails as a number. */
  lemma WideCharacterDay(line: int32)
    ensures GetAddressDate("\U{1F600}/03/87", line) == Failure(InvalidNumber)
  {
    var tokens := ["\U{1F600}", "03", "87"];
    DateTokens("\U{1F600}/03/87", "\U{1F600}", "03", "87");
    assert Utf16Length(tokens[Day]) == 2;
    assert TokenLengthsOk(tokens);
    TrimIdempotent(tokens[Day]);
    assert ParseInt(Trim(tokens[Day])) == Empty;
    GetAddressDateOutcome("\U{1F600}/03/87", line);
  }

  /** `1😀` is three code units long and so fails the length check. */
  lemma WideCharacterTooLong(line: int32)
    ensures GetAddressDate("1\U{1F600}/03/87", line) == Failure(InvalidAddress(line, InvalidDate))
  {
    var tokens := ["1\U{1F600}", "03", "87"];
    DateTokens("1\U{1F600}/03/87", "1\U{1F600}", "03", "87");
    assert Utf16Length(tokens[Day]) == 3;
    GetAddressDateOutcome("1\U{1F600}/03/87", line);
  }

  /** A signed day passes the length check and `parseInt`; `LocalDate.of` refuses day -1. */
  lemma SignedDayRefusedByDate(line: int32)
    ensures GetAddressDate("-1/03/87", line) == Failure(DateTimeError)
  {
    var tokens := ["-1", "03", "87"];
    DateTokens("-1/03/87", "-1", "03", "87");
    assert TokenLengthsOk(tokens);
    SignedDayTokens();
    assert TokensDate(tokens) == Date(87, 3, -1);
    GetAddressDateOutcome("-1/03/87", line);
  }

  lemma SignedDayTokens()
    ensures ParseInt(Trim("-1")) == Of(-1)
    ensures ParseInt(Trim("03")) == Of(3)
    ensures ParseInt(Trim("87")) == Of(87)
  {
    MinusOneToken();
    TwoDigitToken(3);
    assert PadDigits(3, 2) == "03";
    TwoDigitToken(87);
    assert PadDigits(87, 2) == "87";
  }

  lemma MinusOneToken()
    ensures ParseInt(Trim("-1")) == Of(-1)
  {
    TrimIdempotent("-1");
    assert ['-'] + PadDigits(1, 1) == "-1";
    ParseSignedPadDigits(1, 1);
  }

  /** A two-digit token reads back as its number. */
  lemma TwoDigitToken(n: nat)
    requires n < 100
    ensures PadDigits(n, 2) == [DigitChar(n / 10), DigitChar(n % 10)]
    ensures ParseInt(Trim(PadDigits(n, 2))) == Of(n)
  {
    TwoDigits(n);
    DigitsTrimmed(PadDigits(n, 2));
    ParsePadDigits(n, 2);
  }

  /** Splitting `a,b` with non-empty comma-free pieces gives the two pieces. */
  lemma SplitTwo(a: string, b: string, sep: char)
    requires sep !in a && sep !in b && a != [] && b != []
    ensures Split(a + [sep] + b, sep) == [a, b]
  {
    SplitCons(a, b, sep);
    SplitAllSingle(b, sep);
  }

  /** A line without a birthdate field fails on reading it, once name and sex have validated. */
  lemma MissingBirthdateField(line: int32)
    ensures ParseLine("Bill McKnight,Male", line) == Failure(ArrayIndexOutOfBounds)
  {
    SplitTwo("Bill McKnight", "Male", ',');
    assert "Bill McKnight" + [','] + "Male" == "Bill McKnight,Male";
    GetNameOutcome("Bill McKnight", line);
    assert !IsSpace("Bill McKnight"[0]);
    TrimIdempotent("Male");
    assert ToLower("Male") == "male";
    GetSexOutcome("Male", line);
    ParseLineFirstError("Bill McKnight,Male", line);
  }

  /** With a blank name and an unknown sex, the name is reported: it is read first. */
  lemma FirstBadFieldReported(line: int32)
    ensures ParseLine(" ,xxx", line) == Failure(InvalidAddress(line, InvalidName))
  {
    SplitTwo(" ", "xxx", ',');
    assert " " + [','] + "xxx" == " ,xxx";
    GetNameOutcome(" ", line);
    ParseLineFirstError(" ,xxx", line);
  }

  lemma TwoDigits(n: nat)
    requires n < 100
    ensures PadDigits(n, 2) == [DigitChar(n / 10), DigitChar(n % 10)]
  {
    assert PadDigits(n / 10, 1) == PadDigits(n / 10 / 10, 0) + [DigitChar(n / 10 % 10)];
  }

  /** `16/03/87` is the 16th of March of the year 87: no century is added. */
  lemma TwoDigitYearAsWritten(line: int32)
    ensures GetAddressDate("16/03/87", line) == Success(Date(87, 3, 16))
  {
    TwoDigits(16);
    TwoDigits(3);
    TwoDigits(87);
    assert FormatDate(Date(87, 3, 16), 2) == "16/03/87";
    FormatDateRoundTrip(Date(87, 3, 16), 2, line);
  }

  /** An empty name and an empty or unknown sex are refused. */
  lemma EmptyValuesRefused(line: int32)
    ensures GetName("", line) == Failure(InvalidAddress(line, InvalidName))
    ensures GetSex("", line) == Failure(InvalidAddress(line, InvalidSex))
    ensures GetSex("xxx", line) == Failure(InvalidAddress(line, InvalidSex))
  {
    GetNameOutcome("", line);
    GetSexOutcome("", line);
    GetSexOutcome("xxx", line);
    TrimIdempotent("xxx");
    assert ToLower("xxx") == "xxx";
  }

  /** Spaces around the sex are dropped and its case is kept as written. */
  lemma SexTrimmedCaseKept(line: int32)
    ensures GetSex(" Female ", line) == Success("Female")
    ensures GetSex(" Male ", line) == Success("Male")
    ensures GetSex(" FEMALE ", line) == Success("FEMALE")
  {
    TrimUnique(" ", "Female", " ");
    TrimUnique(" ", "Male", " ");
    TrimUnique(" ", "FEMALE", " ");
    assert " Female " == " " + "Female" + " ";
    assert " Male " == " " + "Male" + " ";
    assert " FEMALE " == " " + "FEMALE" + " ";
    assert ToLower("Female") == "female";
    assert ToLower("Male") == "male";
    assert ToLower("FEMALE") == "female";
    GetSexOutcome(" Female ", line);
    GetSexOutcome(" Male ", line);
    GetSexOutcome(" FEMALE ", line);
  }

  // ------------------------------------------------------------- queries

  /** The five entries every query test starts from. */
  method TestEntries() returns (entries: seq<AddressBookEntry>)
    ensures |entries| == 5
    ensures entries[0].Value() == Fields("Bill McKnight", "Male", Date(1977, 3, 16))
    ensures entries[1].Value() == Fields("Paul Robinson", "Male", Date(1985, 1, 15))
    ensures entries[2].Value() == Fields("Gemma Lane", "Female", Date(1991, 11, 20))
    ensures entries[3].Value() == Fields("Sarah Stone", "Female", Date(1980, 9, 20))
    ensures entries[4].Value() == Fields("Wes Jackson", "Male", Date(1974, 8, 14))
    ensures forall k :: 0 <= k < |entries| ==> fresh(entries[k])
  {
    var entry1 := new AddressBookEntry("Bill McKnight", "Male", Date(1977, 3, 16));
    var entry2 := new AddressBookEntry("Paul Robinson", "Male", Date(1985, 1, 15));
    var entry3 := new AddressBookEntry("Gemma Lane", "Female", Date(1991, 11, 20));
    var entry4 := new AddressBookEntry("Sarah Stone", "Female", Date(1980, 9, 20));
    var entry5 := new AddressBookEntry("Wes Jackson", "Male", Date(1974, 8, 14));
    entries := [entry1, entry2, entry3, entry4, entry5];
  }

  /** Two of the five are female. */
  method FemaleCount() returns (count: nat)
    ensures count == 2
  {
    var entries := TestEntries();
    count := CountFemalePerson(entries);
    var e0, e1, e2, e3, e4 := entries[0], entries[1], entries[2], entries[3], entries[4];
    assert entries == [] + [e0] + [e1] + [e2] + [e3] + [e4];
    CountFemaleAppend([], e0);
    CountFemaleAppend([] + [e0], e1);
    CountFemaleAppend([] + [e0] + [e1], e2);
    CountFemaleAppend([] + [e0] + [e1] + [e2], e3);
    CountFemaleAppend([] + [e0] + [e1] + [e2] + [e3], e4);
  }

  /** The oldest of the five is Wes Jackson, born in 1974. */
  method OldestPerson() returns (name: string)
    ensures name == "Wes Jackson"
  {
    var entries := TestEntries();
    var oldest := CalculateOldestPerson(entries);
    ghost var k: nat :| k < |entries| && oldest.value == entries[k] && IsLastOldest(entries, k, |entries|);
    assert IsLastOldest(entries, 4, |entries|);
    LastOldestUnique(entries, k, 4, |entries|);
    name := oldest.value.name;
  }

  /**
   * With the first two entries born on the 28th of February and the 1st
   * of March, the difference is 1 day in 1995 and 2 days in the leap year
   * 1996.
   */
  method DaysBetweenAcrossFebruary(year: int) returns (days: Result<int>)
    requires year == 1995 || year == 1996
    ensures days == Success(if year == 1996 then 2 else 1)
  {
    var all := TestEntries();
    var entry1, entry2 := all[0], all[1];
    entry1.SetBirthdate(Date(year, 2, 28));
    entry2.SetBirthdate(Date(year, 3, 1));
    var entries := [entry1, entry2];
    days := CalculateDayDifference(entries, "Bill McKnight", "Paul Robinson");
    assert "Bill McKnight"[0] != "Paul Robinson"[0];
    assert IsFirstMatch(entries, "Bill McKnight", 0);
    assert IsFirstMatch(entries, "Paul Robinson", 1);
    DayDifferenceOfFirstMatches(entries, "Bill McKnight", "Paul Robinson", 0, 1);
    if year == 1995 {
      assert NextDay(Date(1995, 2, 28)) == Date(1995, 3, 1);
      DaysBetweenNext(Date(1995, 2, 28));
    } else {
      assert NextDay(Date(1996, 2, 28)) == Date(1996, 2, 29);
      assert NextDay(Date(1996, 2, 29)) == Date(1996, 3, 1);
      DaysBetweenNext(Date(1996, 2, 28));
      DaysBetweenNext(Date(1996, 2, 29));
    }
  }

  /**
   * A sex written "FEMALE" passes validation unchanged, and so is not
   * counted as "Female".
   */
  method UpperCaseFemaleNotCounted() returns (count: nat)
    ensures count == 0
  {
    SexTrimmedCaseKept(1);
    var sex := GetSex(" FEMALE ", 1);
    var entry := new AddressBookEntry("Gemma Lane", sex.value, Date(1991, 11, 20));
    count := CountFemalePerson([entry]);
    CountFemaleAppend([], entry);
    assert [] + [entry] == [entry];
  }
}
