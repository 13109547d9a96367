/**
 * The address-book file format written out: a line is
 * `name,sex,day/month/year` with a two-digit day and month and a two- or
 * four-digit year. Formatting is the partner of the validators: what is
 * written in this format is read back unchanged.
 */
module AddressLines {
  import opened JavaText
  import opened LocalDates
  import opened Exceptions
  import opened Entries
  import opened Reporter

  /** A date as `dd/mm/yy` (`width` 2) or `dd/mm/yyyy` (`width` 4). */
  function FormatDate(d: LocalDate, width: nat): string
    requires width == 2 || width == 4
    requires 0 <= d.year < Pow10(width)
  {
    PadDigits(d.day, 2) + ['/'] + PadDigits(d.month, 2) + ['/'] + PadDigits(d.year, width)
  }

  /** One line of the address-book file. */
  function FormatLine(f: Fields, width: nat): string
    requires width == 2 || width == 4
    requires 0 <= f.birthdate.year < Pow10(width)
  {
    f.name + [','] + f.sex + [','] + FormatDate(f.birthdate, width)
  }

  /**
   * The entries a file line can hold: a non-empty trimmed name without a
   * comma, and "female" or "male" in any case, written without spaces.
   */
  predicate IsWritable(f: Fields) {
    && f.name != [] && IsTrimmed(f.name) && ',' !in f.name
    && IsSexWord(f.sex)
  }

  // ------------------------------------------------------------ helpers

  /** A string of digits has no spaces at its ends and one code unit per digit. */
  lemma DigitsTrimmed(s: string)
    requires AllDigits(s)
    ensures IsTrimmed(s) && Trim(s) == s
    ensures Utf16Length(s) == |s|
  {
    TrimIdempotent(s);
    Utf16LengthBounds(s);
  }

  /** A string of digits holds neither separator. */
  lemma DigitsHaveNoSeparator(s: string)
    requires AllDigits(s)
    ensures '/' !in s && ',' !in s
  {
  }

  /** Splitting `a/b/c` with non-empty pieces gives the three pieces. */
  lemma SplitThree(a: string, b: string, c: string, sep: char)
    requires sep !in a && sep !in b && sep !in c
    requires a != [] && b != [] && c != []
    ensures Split(a + [sep] + b + [sep] + c, sep) == [a, b, c]
  {
    assert a + [sep] + b + [sep] + c == a + [sep] + (b + [sep] + c);
    SplitCons(a, b + [sep] + c, sep);
    SplitAllCons(b, c, sep);
    SplitAllSingle(c, sep);
    assert DropTrailingEmpty([b] + [c]) == [b, c];
  }

  /** Splitting `a/b/c/rest` with non-empty `a`, `b` and `c` gives those three first. */
  lemma SplitThreeThen(a: string, b: string, c: string, rest: string, sep: char)
    requires sep !in a && sep !in b && sep !in c
    requires a != [] && b != [] && c != []
    ensures Split(a + [sep] + b + [sep] + c + [sep] + rest, sep) == [a, b, c] + DropTrailingEmpty(SplitAll(rest, sep))
  {
    var tail := SplitAll(rest, sep);
    assert a + [sep] + b + [sep] + c + [sep] + rest == a + [sep] + (b + [sep] + (c + [sep] + rest));
    SplitCons(a, b + [sep] + (c + [sep] + rest), sep);
    PiecesTwoThen(b, c, rest, sep);
    DropTrailingEmptyCons(b, [c] + tail);
    DropTrailingEmptyCons(c, tail);
    assert [a] + ([b] + ([c] + DropTrailingEmpty(tail))) == [a, b, c] + DropTrailingEmpty(tail);
  }

  lemma PiecesTwoThen(b: string, c: string, rest: string, sep: char)
    requires sep !in b && sep !in c
    ensures SplitAll(b + [sep] + (c + [sep] + rest), sep) == [b] + ([c] + SplitAll(rest, sep))
  {
    SplitAllCons(b, c + [sep] + rest, sep);
    SplitAllCons(c, rest, sep);
  }

  /** The letters of a sex word are no spaces, so the word is trimmed. */
  lemma SexWordTrimmed(s: string)
    requires IsSexWord(s)
    ensures IsTrimmed(s) && Trim(s) == s && s != [] && ',' !in s
  {
    assert |ToLower(s)| == |s|;
    assert ToLowerChar(s[0]) == ToLower(s)[0];
    assert ToLowerChar(s[|s| - 1]) == ToLower(s)[|s| - 1];
    if ',' in s {
      var i :| 0 <= i < |s| && s[i] == ',';
      assert ToLower(s)[i] == ',';
    }
    TrimIdempotent(s);
  }

  // ---------------------------------------------------------- round trips

  /**
   * `getAddressDate` reads a formatted date back. A two-digit year is taken
   * as written: `dd/mm/87` is the year 87, not 1987.
   */
  lemma FormatDateRoundTrip(d: LocalDate, width: nat, line: int32)
    requires width == 2 || width == 4
    requires 0 <= d.year < Pow10(width)
    ensures GetAddressDate(FormatDate(d, width), line) == Success(d)
  {
    var day, month, year := PadDigits(d.day, 2), PadDigits(d.month, 2), PadDigits(d.year, width);
    var text := FormatDate(d, width);
    assert text[0] == day[0] && text[|text| - 1] == year[|year| - 1];
    assert IsDigit(text[0]) && IsDigit(text[|text| - 1]);
    TrimIdempotent(text);
    DigitsHaveNoSeparator(day);
    DigitsHaveNoSeparator(month);
    DigitsHaveNoSeparator(year);
    SplitThree(day, month, year, '/');
    DigitsTrimmed(day);
    DigitsTrimmed(month);
    DigitsTrimmed(year);
    assert TokenLengthsOk([day, month, year]);
    ParsePadDigits(d.day, 2);
    ParsePadDigits(d.month, 2);
    ParsePadDigits(d.year, width);
    GetAddressDateOutcome(text, line);
  }

  /** The three comma fields of a formatted line. */
  lemma FormatLineFields(f: Fields, width: nat)
    requires IsWritable(f)
    requires width == 2 || width == 4
    requires 0 <= f.birthdate.year < Pow10(width)
    ensures Split(FormatLine(f, width), ',') == [f.name, f.sex, FormatDate(f.birthdate, width)]
  {
    var date := FormatDate(f.birthdate, width);
    SexWordTrimmed(f.sex);
    DigitsHaveNoSeparator(PadDigits(f.birthdate.day, 2));
    DigitsHaveNoSeparator(PadDigits(f.birthdate.month, 2));
    DigitsHaveNoSeparator(PadDigits(f.birthdate.year, width));
    assert ',' !in date;
    SplitThree(f.name, f.sex, date, ',');
  }

  /**
   * The loop body reads a formatted line back into the entry it was
   * written from.
   */
  lemma LineRoundTrip(f: Fields, width: nat, line: int32)
    requires IsWritable(f)
    requires width == 2 || width == 4
    requires 0 <= f.birthdate.year < Pow10(width)
    ensures ParseLine(FormatLine(f, width), line) == Success(f)
  {
    FormatLineFields(f, width);
    SexWordTrimmed(f.sex);
    TrimIdempotent(f.name);
    GetNameOutcome(f.name, line);
    GetSexOutcome(f.sex, line);
    FormatDateRoundTrip(f.birthdate, width, line);
  }

  /** Fields after the third are ignored. */
  lemma ExtraFieldIgnored(f: Fields, width: nat, extra: string, line: int32)
    requires IsWritable(f)
    requires width == 2 || width == 4
    requires 0 <= f.birthdate.year < Pow10(width)
    ensures ParseLine(FormatLine(f, width) + [','] + extra, line) == Success(f)
  {
    var date := FormatDate(f.birthdate, width);
    var text := FormatLine(f, width) + [','] + extra;
    SexWordTrimmed(f.sex);
    DigitsHaveNoSeparator(PadDigits(f.birthdate.day, 2));
    DigitsHaveNoSeparator(PadDigits(f.birthdate.month, 2));
    DigitsHaveNoSeparator(PadDigits(f.birthdate.year, width));
    assert ',' !in date;
    SplitThreeThen(f.name, f.sex, date, extra, ',');
    FormatLineFields(f, width);
    var values, shortValues := Split(text, ','), Split(FormatLine(f, width), ',');
    assert values[0] == shortValues[0] && values[1] == shortValues[1] && values[2] == shortValues[2];
    ParseLineFields(text, line);
    ParseLineFields(FormatLine(f, width), line);
    LineRoundTrip(f, width, line);
  }
}
