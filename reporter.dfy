/**
 * `FileAddressBookReporter`: validates the fields of address-book lines,
 * turns a sequence of lines into entries, and answers three questions about
 * a list of entries (how many are female, who is oldest, how many days lie
 * between two people's birthdates).
 *
 * The file itself is not read here: ingestion works on the lines a reader
 * would return, in order.
 */
module Reporter {
  import opened JavaText
  import opened LocalDates
  import opened Exceptions
  import opened Entries

  /** Positions of the name, sex and birthdate in a comma-separated line. */
  const AddressName := 0
  const AddressSex := 1
  const AddressBirthdate := 2

  /** Positions of the day, month and year in a slash-separated date. */
  const Day := 0
  const Month := 1
  const Year := 2

  // ------------------------------------------------------------ validators

  /**
   * `getName`: the name without surrounding spaces; a name made only of
   * spaces is invalid. `line` is the counter quoted in the exception.
   */
  function GetName(raw: string, line: int32): Result<string> {
    var name := Trim(raw);
    if |name| == 0 then Failure(InvalidAddress(line, InvalidName)) else Success(name)
  }

  /**
   * `getName` fails exactly on names made only of spaces, quoting the
   * counter; otherwise it returns a non-empty trimmed core of the input
   * with nothing but spaces around it.
   */
  lemma GetNameOutcome(raw: string, line: int32)
    ensures GetName(raw, line).Failure? <==> AllSpace(raw)
    ensures GetName(raw, line).Failure? ==> GetName(raw, line).error == InvalidAddress(line, InvalidName)
    ensures GetName(raw, line).Success? ==> GetName(raw, line).value != [] && IsTrimmed(GetName(raw, line).value)
    ensures GetName(raw, line).Success? ==>
      exists pre, post :: raw == pre + GetName(raw, line).value + post && AllSpace(pre) && AllSpace(post)
  {
    TrimEmpty(raw);
    TrimShape(raw);
  }

  /** "female" or "male" in any mix of upper and lower case. */
  predicate IsSexWord(s: string) {
    ToLower(s) == "female" || ToLower(s) == "male"
  }

  /**
   * `getSex`: accepts "female" or "male" ignoring case and surrounding
   * spaces, and returns the trimmed input with its case as written.
   */
  function GetSex(raw: string, line: int32): Result<string> {
    var sex := Trim(raw);
    if |sex| == 0 || !(EqualsIgnoreCase(sex, "female") || EqualsIgnoreCase(sex, "male")) then
      Failure(InvalidAddress(line, InvalidSex))
    else
      Success(sex)
  }

  /**
   * `getSex` succeeds exactly when the trimmed input is "female" or "male"
   * in some case, and then returns the trimmed input unchanged (its case is
   * not normalised); otherwise it fails quoting the counter.
   */
  lemma GetSexOutcome(raw: string, line: int32)
    ensures GetSex(raw, line).Success? <==> IsSexWord(Trim(raw))
    ensures GetSex(raw, line).Success? ==> GetSex(raw, line).value == Trim(raw)
    ensures GetSex(raw, line).Failure? ==> GetSex(raw, line).error == InvalidAddress(line, InvalidSex)
  {
    EqualsIgnoreCaseLower(Trim(raw), "female");
    EqualsIgnoreCaseLower(Trim(raw), "male");
  }

  /**
   * The day and month tokens have a `length()` of two, the year two or
   * four; `length()` counts UTF-16 code units.
   */
  predicate TokenLengthsOk(tokens: seq<string>)
    requires |tokens| >= 3
  {
    && (Utf16Length(tokens[Year]) == 2 || Utf16Length(tokens[Year]) == 4)
    && Utf16Length(tokens[Month]) == 2 && Utf16Length(tokens[Day]) == 2
  }

  /** The three tokens of a date read as integers, if each is one. */
  predicate TokensParse(tokens: seq<string>)
    requires |tokens| >= 3
  {
    ParseInt(Trim(tokens[Year])).Of? && ParseInt(Trim(tokens[Month])).Of? && ParseInt(Trim(tokens[Day])).Of?
  }

  function TokensDate(tokens: seq<string>): Date
    requires |tokens| >= 3 && TokensParse(tokens)
  {
    Date(ParseInt(Trim(tokens[Year])).value, ParseInt(Trim(tokens[Month])).value, ParseInt(Trim(tokens[Day])).value)
  }

  /**
   * `getAddressDate`: a `day/month/year` date. The token lengths are checked
   * on the raw tokens before anything is parsed; each token is then trimmed
   * and parsed, and `LocalDate.of` checks the month and the day.
   */
  function GetAddressDate(raw: string, line: int32): Result<LocalDate>
  {
    var date := Trim(raw);
    var birthdateValues := Split(date, '/');
    if |birthdateValues| <= Year then
      Failure(ArrayIndexOutOfBounds)
    else if !TokenLengthsOk(birthdateValues) then
      Failure(InvalidAddress(line, InvalidDate))
    else
      // The two-digit branch of the source builds "19" + year into a local
      // that is never read again: a two-digit year is taken as written.
      var year := ParseInt(Trim(birthdateValues[Year]));
      var month := ParseInt(Trim(birthdateValues[Month]));
      var day := ParseInt(Trim(birthdateValues[Day]));
      if year.Empty? || month.Empty? || day.Empty? then
        Failure(InvalidNumber)
      else if !IsValid(Date(year.value, month.value, day.value)) then
        Failure(DateTimeError)
      else
        Success(Date(year.value, month.value, day.value))
  }

  /**
   * What `getAddressDate` yields, case by case: an index error when the
   * trimmed text has fewer than three slash-separated tokens, a date error
   * for a token of the wrong length, a number error for a token that is not
   * an integer, a `DateTimeException` when month or day is out of range,
   * and otherwise the date the three tokens spell out.
   */
  lemma GetAddressDateOutcome(raw: string, line: int32)
    ensures |Split(Trim(raw), '/')| < 3 <==> GetAddressDate(raw, line) == Failure(ArrayIndexOutOfBounds)
    ensures var tokens := Split(Trim(raw), '/');
      |tokens| >= 3 && !TokenLengthsOk(tokens) ==> GetAddressDate(raw, line) == Failure(InvalidAddress(line, InvalidDate))
    ensures var tokens := Split(Trim(raw), '/');
      |tokens| >= 3 && TokenLengthsOk(tokens) && !TokensParse(tokens) ==> GetAddressDate(raw, line) == Failure(InvalidNumber)
    ensures var tokens := Split(Trim(raw), '/');
      GetAddressDate(raw, line) == Failure(DateTimeError) <==> |tokens| >= 3 && TokenLengthsOk(tokens) && TokensParse(tokens) && !IsValid(TokensDate(tokens))
    ensures var tokens := Split(Trim(raw), '/');
      GetAddressDate(raw, line).Success? <==> |tokens| >= 3 && TokenLengthsOk(tokens) && TokensParse(tokens) && IsValid(TokensDate(tokens))
    ensures var tokens := Split(Trim(raw), '/');
      GetAddressDate(raw, line).Success? ==> GetAddressDate(raw, line).value == TokensDate(tokens)
  {
    var tokens := Split(Trim(raw), '/');
    if |tokens| < 3 {
    } else if !TokenLengthsOk(tokens) {
    } else if !TokensParse(tokens) {
    } else {
      assert GetAddressDate(raw, line) == if IsValid(TokensDate(tokens)) then Success(TokensDate(tokens)) else Failure(DateTimeError);
    }
  }

  // ---------------------------------------------------------------- lines

  /**
   * The body of the ingestion loop for one line: split on commas, then
   * validate fields 0, 1 and 2 in that order; an absent field is an index
   * error at the point it is first read, and fields after the third are
   * ignored.
   */
  function ParseLine(addressLine: string, line: int32): Result<Fields>
  {
    var addressValues := Split(addressLine, ',');
    if |addressValues| <= AddressName then Failure(ArrayIndexOutOfBounds)
    else
      var name :- GetName(addressValues[AddressName], line);
      if |addressValues| <= AddressSex then Failure(ArrayIndexOutOfBounds)
      else
        var sex :- GetSex(addressValues[AddressSex], line);
        if |addressValues| <= AddressBirthdate then Failure(ArrayIndexOutOfBounds)
        else
          var birthdate :- GetAddressDate(addressValues[AddressBirthdate], line);
          Success(Fields(name, sex, birthdate))
  }

  /**
   * A line parses exactly when it has at least three comma fields and the
   * first three validate, and the entry then holds the validated fields 0,
   * 1 and 2; fields after the third are ignored.
   */
  lemma ParseLineFields(addressLine: string, line: int32)
    ensures var r, values := ParseLine(addressLine, line), Split(addressLine, ',');
      && (r.Success? <==> |values| >= 3 && GetName(values[AddressName], line).Success?
                          && GetSex(values[AddressSex], line).Success?
                          && GetAddressDate(values[AddressBirthdate], line).Success?)
      && (r.Success? ==> r.value == Fields(GetName(values[AddressName], line).value,
                                           GetSex(values[AddressSex], line).value,
                                           GetAddressDate(values[AddressBirthdate], line).value))
  {
  }

  /**
   * Which exception a failing line raises: the fields are read in order
   * 0, 1, 2, so the first field that fails validation decides the
   * exception, and a missing field is an index error only once every field
   * before it has validated.
   */
  lemma ParseLineFirstError(addressLine: string, line: int32)
    ensures var r, values := ParseLine(addressLine, line), Split(addressLine, ',');
      |values| == 0 ==> r == Failure(ArrayIndexOutOfBounds)
    ensures var r, values := ParseLine(addressLine, line), Split(addressLine, ',');
      |values| >= 1 && GetName(values[AddressName], line).Failure? ==>
        r == Failure(GetName(values[AddressName], line).error)
    ensures var r, values := ParseLine(addressLine, line), Split(addressLine, ',');
      |values| == 1 && GetName(values[AddressName], line).Success? ==>
        r == Failure(ArrayIndexOutOfBounds)
    ensures var r, values := ParseLine(addressLine, line), Split(addressLine, ',');
      |values| >= 2 && GetName(values[AddressName], line).Success?
      && GetSex(values[AddressSex], line).Failure? ==>
        r == Failure(GetSex(values[AddressSex], line).error)
    ensures var r, values := ParseLine(addressLine, line), Split(addressLine, ',');
      |values| == 2 && GetName(values[AddressName], line).Success?
      && GetSex(values[AddressSex], line).Success? ==>
        r == Failure(ArrayIndexOutOfBounds)
    ensures var r, values := ParseLine(addressLine, line), Split(addressLine, ',');
      |values| >= 3 && GetName(values[AddressName], line).Success?
      && GetSex(values[AddressSex], line).Success?
      && GetAddressDate(values[AddressBirthdate], line).Failure? ==>
        r == Failure(GetAddressDate(values[AddressBirthdate], line).error)
  {
  }

  /**
   * A parsed entry has a non-empty trimmed name and a sex word, neither
   * holding a comma; an `InvalidAddressException` whose message quotes a
   * counter quotes the one it was given.
   */
  lemma ParseLineEntry(addressLine: string, line: int32)
    ensures var r := ParseLine(addressLine, line);
      r.Success? ==> r.value.name != [] && IsTrimmed(r.value.name) && ',' !in r.value.name
    ensures var r := ParseLine(addressLine, line);
      r.Success? ==> IsSexWord(r.value.sex) && ',' !in r.value.sex
    ensures var r := ParseLine(addressLine, line);
      r.Failure? && r.error.InvalidAddress? ==> r.error.line == line
  {
    var values := Split(addressLine, ',');
    SplitShape(addressLine, ',');
    if |values| >= 3 {
      GetNameOutcome(values[AddressName], line);
      GetSexOutcome(values[AddressSex], line);
      GetAddressDateOutcome(values[AddressBirthdate], line);
      TrimInside(values[AddressName]);
      TrimInside(values[AddressSex]);
    } else if |values| >= 2 {
      GetNameOutcome(values[AddressName], line);
      GetSexOutcome(values[AddressSex], line);
    } else if |values| >= 1 {
      GetNameOutcome(values[AddressName], line);
    }
  }

  /** What `trim` returns is taken from inside its input. */
  lemma TrimInside(s: string)
    ensures forall c :: c in Trim(s) ==> c in s
  {
    TrimShape(s);
    var pre, post :| s == pre + Trim(s) + post && AllSpace(pre) && AllSpace(post);
    forall c | c in Trim(s) ensures c in s {
      var i :| 0 <= i < |Trim(s)| && Trim(s)[i] == c;
      assert s[|pre| + i] == c;
    }
  }

  // ------------------------------------------------------------- ingestion

  /** The outcome of reading a sequence of lines, and the line counter after it. */
  datatype Ingestion = Ingestion(result: Result<seq<Fields>>, counter: int32)

  /** Puts entries parsed earlier in front of a later outcome; an exception stays. */
  function Prepend(parsed: seq<Fields>, later: Ingestion): Ingestion {
    Ingestion(if later.result.Success? then Success(parsed + later.result.value) else later.result, later.counter)
  }

  /**
   * The loop of `getAllAddressEntries`: each line first advances the
   * counter, then is parsed with it; the first exception ends the run.
   */
  function Ingest(lines: seq<string>, counter: int32): Ingestion
    decreases |lines|
  {
    if lines == [] then Ingestion(Success([]), counter)
    else
      var line := Increment(counter);
      match ParseLine(lines[0], line)
      case Failure(e) => Ingestion(Failure(e), line)
      case Success(entry) => Prepend([entry], Ingest(lines[1..], line))
  }

  lemma PrependPrepend(a: seq<Fields>, b: seq<Fields>, later: Ingestion)
    ensures Prepend(a, Prepend(b, later)) == Prepend(a + b, later)
  {
    if later.result.Success? {
      assert a + (b + later.result.value) == (a + b) + later.result.value;
    }
  }

  /** Ingestion succeeds exactly when every line parses with the counter it is read under. */
  lemma {:induction false} IngestSucceedsIff(lines: seq<string>, counter: int32)
    ensures Ingest(lines, counter).result.Success?
        <==> forall k :: 0 <= k < |lines| ==> ParseLine(lines[k], Advance(counter, k + 1)).Success?
    decreases |lines|
  {
    if lines != [] {
      var line := Increment(counter);
      var rest := lines[1..];
      IngestSucceedsIff(rest, line);
      if ParseLine(lines[0], line).Success? {
        assert Ingest(lines, counter).result.Success? <==> Ingest(rest, line).result.Success?;
        if forall k :: 0 <= k < |rest| ==> ParseLine(rest[k], Advance(line, k + 1)).Success? {
          forall k | 0 <= k < |lines| ensures ParseLine(lines[k], Advance(counter, k + 1)).Success? {
            if k > 0 {
              assert ParseLine(rest[k - 1], Advance(line, k)).Success?;
            }
          }
        }
        if forall k :: 0 <= k < |lines| ==> ParseLine(lines[k], Advance(counter, k + 1)).Success? {
          forall k | 0 <= k < |rest| ensures ParseLine(rest[k], Advance(line, k + 1)).Success? {
            assert ParseLine(lines[k + 1], Advance(counter, k + 2)).Success?;
          }
        }
      } else {
        assert Advance(counter, 1) == line;
      }
    }
  }

  /**
   * A successful ingestion yields one entry per line, in line order, each
   * parsed with the counter advanced once per line before it, and leaves
   * the counter advanced by the number of lines.
   */
  lemma {:induction false} IngestEntries(lines: seq<string>, counter: int32)
    requires Ingest(lines, counter).result.Success?
    ensures |Ingest(lines, counter).result.value| == |lines|
    ensures Ingest(lines, counter).counter == Advance(counter, |lines|)
    ensures forall k :: 0 <= k < |lines| ==>
      && ParseLine(lines[k], Advance(counter, k + 1)).Success?
      && Ingest(lines, counter).result.value[k] == ParseLine(lines[k], Advance(counter, k + 1)).value
    decreases |lines|
  {
    if lines != [] {
      var line := Increment(counter);
      var rest := lines[1..];
      assert ParseLine(lines[0], line).Success?;
      IngestEntries(rest, line);
      var all := Ingest(lines, counter).result.value;
      assert all == [ParseLine(lines[0], line).value] + Ingest(rest, line).result.value;
      forall k | 0 <= k < |lines|
        ensures ParseLine(lines[k], Advance(counter, k + 1)).Success?
        ensures all[k] == ParseLine(lines[k], Advance(counter, k + 1)).value
      {
        if k > 0 {
          assert all[k] == Ingest(rest, line).result.value[k - 1];
          assert rest[k - 1] == lines[k];
        }
      }
    }
  }

  /**
   * A failed ingestion stops at the first line that does not parse: its
   * exception is that line's, raised with the counter advanced up to and
   * including that line, and every earlier line parsed.
   */
  lemma {:induction false} IngestStopsAtFirstFailure(lines: seq<string>, counter: int32)
    ensures Ingest(lines, counter).result.Failure? ==>
      exists k :: 0 <= k < |lines|
        && ParseLine(lines[k], Advance(counter, k + 1)) == Failure(Ingest(lines, counter).result.error)
        && Ingest(lines, counter).counter == Advance(counter, k + 1)
        && forall j :: 0 <= j < k ==> ParseLine(lines[j], Advance(counter, j + 1)).Success?
    decreases |lines|
  {
    if lines != [] {
      var line := Increment(counter);
      var rest := lines[1..];
      if ParseLine(lines[0], line).Success? && Ingest(lines, counter).result.Failure? {
        IngestStopsAtFirstFailure(rest, line);
        var k :| 0 <= k < |rest|
          && ParseLine(rest[k], Advance(line, k + 1)) == Failure(Ingest(rest, line).result.error)
          && Ingest(rest, line).counter == Advance(line, k + 1)
          && forall j :: 0 <= j < k ==> ParseLine(rest[j], Advance(line, j + 1)).Success?;
        assert ParseLine(lines[k + 1], Advance(counter, k + 2)) == Failure(Ingest(lines, counter).result.error);
        forall j | 0 <= j < k + 1 ensures ParseLine(lines[j], Advance(counter, j + 1)).Success? {
          if j > 0 {
            assert ParseLine(rest[j - 1], Advance(line, j)).Success?;
          }
        }
      }
    }
  }

  /** Nothing parsed yet leaves the rest of the run as it is. */
  lemma PrependNothing(later: Ingestion)
    ensures Prepend([], later) == later
  {
    if later.result.Success? {
      assert [] + later.result.value == later.result.value;
    }
  }

  /** Reading a line that parses moves its entry to the parsed side. */
  lemma IngestStep(lines: seq<string>, i: nat, counter: int32, parsed: seq<Fields>)
    requires i < |lines| && ParseLine(lines[i], Increment(counter)).Success?
    ensures Prepend(parsed, Ingest(lines[i..], counter))
         == Prepend(parsed + [ParseLine(lines[i], Increment(counter)).value], Ingest(lines[i + 1..], Increment(counter)))
  {
    assert lines[i..][0] == lines[i] && lines[i..][1..] == lines[i + 1..];
    PrependPrepend(parsed, [ParseLine(lines[i], Increment(counter)).value], Ingest(lines[i + 1..], Increment(counter)));
  }

  /** Reading a line that does not parse ends ingestion with its exception. */
  lemma IngestStop(lines: seq<string>, i: nat, counter: int32, parsed: seq<Fields>)
    requires i < |lines| && ParseLine(lines[i], Increment(counter)).Failure?
    ensures Prepend(parsed, Ingest(lines[i..], counter))
         == Ingestion(Failure(ParseLine(lines[i], Increment(counter)).error), Increment(counter))
  {
    assert lines[i..][0] == lines[i];
  }

  /**
   * One pass of the ingestion loop after the counter is advanced: split the
   * line, create an empty entry and set its name, sex and birthdate from
   * the validated fields, stopping at the first exception.
   */
  method ReadEntry(addressLine: string, line: int32) returns (r: Result<AddressBookEntry>)
    ensures r.Success? <==> ParseLine(addressLine, line).Success?
    ensures r.Failure? ==> r.error == ParseLine(addressLine, line).error
    ensures r.Success? ==> fresh(r.value) && r.value.Value() == ParseLine(addressLine, line).value
  {
    var addressValues := Split(addressLine, ',');
    var addressBookEntry := new AddressBookEntry.Empty();
    if |addressValues| <= AddressName {
      return Failure(ArrayIndexOutOfBounds);
    }
    var name := GetName(addressValues[AddressName], line);
    if name.Failure? {
      return Failure(name.error);
    }
    addressBookEntry.SetName(name.value);
    if |addressValues| <= AddressSex {
      return Failure(ArrayIndexOutOfBounds);
    }
    var sex := GetSex(addressValues[AddressSex], line);
    if sex.Failure? {
      return Failure(sex.error);
    }
    addressBookEntry.SetSex(sex.value);
    if |addressValues| <= AddressBirthdate {
      return Failure(ArrayIndexOutOfBounds);
    }
    var birthdate := GetAddressDate(addressValues[AddressBirthdate], line);
    if birthdate.Failure? {
      return Failure(birthdate.error);
    }
    addressBookEntry.SetBirthdate(birthdate.value);
    return Success(addressBookEntry);
  }

  /** The line counter of `getAllAddressEntries`, kept between calls. */
  class FileAddressBookReporter {
    var addressbookLine: int32

    constructor ()
      ensures addressbookLine == 0
    {
      addressbookLine := 0;
    }

    /**
     * `getAllAddressEntries` over the lines of the address-book file: fresh
     * entries holding exactly what `Ingest` yields, or its exception; the
     * counter ends where `Ingest` leaves it.
     */
    method GetAllAddressEntries(lines: seq<string>) returns (r: Result<seq<AddressBookEntry>>)
      modifies this`addressbookLine
      ensures var spec := Ingest(lines, old(addressbookLine));
        && addressbookLine == spec.counter
        && (r.Success? <==> spec.result.Success?)
        && (r.Failure? ==> r.error == spec.result.error)
        && (r.Success? ==> |r.value| == |spec.result.value|
                           && forall k :: 0 <= k < |r.value| ==> r.value[k].Value() == spec.result.value[k])
      ensures r.Success? ==> forall k :: 0 <= k < |r.value| ==> fresh(r.value[k])
      ensures r.Success? ==> forall j, k :: 0 <= j < k < |r.value| ==> r.value[j] != r.value[k]
    {
      var addresses: seq<AddressBookEntry> := [];
      ghost var parsed: seq<Fields> := [];
      ghost var spec := Ingest(lines, addressbookLine);
      var i := 0;
      assert lines[i..] == lines;
      PrependNothing(spec);
      while i < |lines|
        invariant 0 <= i <= |lines|
        invariant |addresses| == |parsed|
        invariant forall k :: 0 <= k < |addresses| ==> fresh(addresses[k])
        invariant forall k :: 0 <= k < |addresses| ==> addresses[k].Value() == parsed[k]
        invariant forall j, k :: 0 <= j < k < |addresses| ==> addresses[j] != addresses[k]
        invariant spec == Prepend(parsed, Ingest(lines[i..], addressbookLine))
      {
        ghost var counter := addressbookLine;
        addressbookLine := Increment(addressbookLine);
        var addressBookEntry := ReadEntry(lines[i], addressbookLine);
        if addressBookEntry.Failure? {
          IngestStop(lines, i, counter, parsed);
          return Failure(addressBookEntry.error);
        }
        var entry := addressBookEntry.value;
        IngestStep(lines, i, counter, parsed);
        assert spec == Prepend(parsed + [entry.Value()], Ingest(lines[i + 1..], addressbookLine));
        addresses := addresses + [entry];
        parsed := parsed + [entry.Value()];
        i := i + 1;
      }
      assert parsed + [] == parsed;
      return Success(addresses);
    }
  }

  // --------------------------------------------------------------- queries

  /** `countFemalePerson`: the entries whose sex is exactly "Female". */
  function CountFemalePerson(entries: seq<AddressBookEntry>): (n: nat)
    reads entries
    ensures n <= |entries|
    decreases |entries|
  {
    if entries == [] then 0
    else CountFemalePerson(entries[..|entries| - 1]) + (if entries[|entries| - 1].sex == "Female" then 1 else 0)
  }

  /** The positions of the entries whose sex is exactly "Female". */
  function FemaleIndexes(entries: seq<AddressBookEntry>): set<nat>
    reads entries
  {
    set i: nat | i < |entries| && entries[i].sex == "Female"
  }

  /** The count is the number of positions holding an entry with sex "Female". */
  lemma {:induction false} CountFemaleIsCardinality(entries: seq<AddressBookEntry>)
    ensures CountFemalePerson(entries) == |FemaleIndexes(entries)|
    decreases |entries|
  {
    if entries != [] {
      var n := |entries| - 1;
      var front := entries[..n];
      CountFemaleIsCardinality(front);
      if entries[n].sex == "Female" {
        assert FemaleIndexes(entries) == FemaleIndexes(front) + {n};
      } else {
        assert FemaleIndexes(entries) == FemaleIndexes(front);
      }
    }
  }

  /** Appending an entry adds one to the count exactly when its sex is "Female". */
  lemma CountFemaleAppend(entries: seq<AddressBookEntry>, e: AddressBookEntry)
    ensures CountFemalePerson(entries + [e]) == CountFemalePerson(entries) + (if e.sex == "Female" then 1 else 0)
  {
    assert (entries + [e])[..|entries|] == entries;
  }

  /** All entries are counted exactly when all have sex "Female"; none exactly when none has. */
  lemma {:induction false} CountFemaleExtremes(entries: seq<AddressBookEntry>)
    ensures CountFemalePerson(entries) == |entries| <==> forall i :: 0 <= i < |entries| ==> entries[i].sex == "Female"
    ensures CountFemalePerson(entries) == 0 <==> forall i :: 0 <= i < |entries| ==> entries[i].sex != "Female"
    decreases |entries|
  {
    if entries != [] {
      var n := |entries| - 1;
      var front := entries[..n];
      CountFemaleExtremes(front);
      assert forall i :: 0 <= i < n ==> front[i] == entries[i];
    }
  }

  /**
   * The comparator handed to `Stream.max`: 1 when the first entry was born
   * earlier, -1 otherwise, so 0 never occurs.
   */
  function Compare(o1: AddressBookEntry, o2: AddressBookEntry): int
    reads o1, o2
  {
    if IsBefore(o1.birthdate, o2.birthdate) then 1 else -1
  }

  /**
   * The comparator breaks the rule that swapping the arguments flips the
   * sign: for two entries born on the same day both orders give -1.
   */
  lemma CompareOnTies(o1: AddressBookEntry, o2: AddressBookEntry)
    requires o1.birthdate == o2.birthdate
    ensures Compare(o1, o2) == -1 && Compare(o2, o1) == -1
  {
  }

  /**
   * Position `k` holds the last of the entries born earliest among the
   * first `n`: nobody there is born before it, and everybody after it is
   * born later.
   */
  predicate IsLastOldest(entries: seq<AddressBookEntry>, k: nat, n: nat)
    reads entries
    requires n <= |entries|
  {
    && k < n
    && (forall j :: 0 <= j < n ==> !IsBefore(entries[j].birthdate, entries[k].birthdate))
    && (forall j :: k < j < n ==> IsBefore(entries[k].birthdate, entries[j].birthdate))
  }

  /** At most one position is the last of those born earliest. */
  lemma LastOldestUnique(entries: seq<AddressBookEntry>, k1: nat, k2: nat, n: nat)
    requires n <= |entries| && IsLastOldest(entries, k1, n) && IsLastOldest(entries, k2, n)
    ensures k1 == k2
  {
    assert !IsBefore(entries[k1].birthdate, entries[k2].birthdate);
    assert !IsBefore(entries[k2].birthdate, entries[k1].birthdate);
  }

  /**
   * The sequential reduction `Stream.max` performs with
   * `BinaryOperator.maxBy`: the accumulator (at position `acc`) is kept
   * when the comparator says it is not smaller than the next entry,
   * otherwise the next entry replaces it.
   */
  function Reduce(entries: seq<AddressBookEntry>, acc: nat, i: nat): (k: nat)
    reads entries
    requires acc < i <= |entries|
    requires IsLastOldest(entries, acc, i)
    ensures IsLastOldest(entries, k, |entries|)
    decreases |entries| - i
  {
    if i == |entries| then acc
    else Reduce(entries, if Compare(entries[acc], entries[i]) >= 0 then acc else i, i + 1)
  }

  /**
   * `calculateOldestPerson`: an entry born no later than any other, the
   * last such in list order; an empty list fails in `Optional.get()`.
   */
  function CalculateOldestPerson(entries: seq<AddressBookEntry>): (r: Result<AddressBookEntry>)
    reads entries
    ensures r.Failure? <==> entries == []
    ensures r.Failure? ==> r.error == NoSuchElement
    ensures r.Success? ==> exists k :: 0 <= k < |entries| && r.value == entries[k] && IsLastOldest(entries, k, |entries|)
  {
    if entries == [] then Failure(NoSuchElement)
    else
      var k := Reduce(entries, 0, 1);
      Success(entries[k])
  }

  /** Nobody in the list is born before the oldest person. */
  lemma OldestIsEarliest(entries: seq<AddressBookEntry>)
    requires entries != []
    ensures CalculateOldestPerson(entries).Success?
    ensures var oldest := CalculateOldestPerson(entries).value;
      oldest in entries && forall e :: e in entries ==> !IsBefore(e.birthdate, oldest.birthdate)
  {
    var k: nat :| k < |entries| && CalculateOldestPerson(entries).value == entries[k]
      && IsLastOldest(entries, k, |entries|);
    forall e | e in entries ensures !IsBefore(e.birthdate, entries[k].birthdate) {
      var j :| 0 <= j < |entries| && entries[j] == e;
      assert IsLastOldest(entries, k, |entries|);
    }
  }

  /** A line terminator, which `.` in a Java regular expression does not match. */
  predicate IsLineTerminator(c: char) {
    c == '\n' || c == '\r' || c == '\U{0085}' || c == '\U{2028}' || c == '\U{2029}'
  }

  /**
   * `name.matches(prefix + ".*")` for a prefix without regular-expression
   * metacharacters: the name starts with the prefix, and the rest holds no
   * line terminator.
   */
  predicate NameMatches(name: string, prefix: string) {
    prefix <= name && forall i :: |prefix| <= i < |name| ==> !IsLineTerminator(name[i])
  }

  /** Position `k` holds the first entry whose name matches the prefix. */
  predicate IsFirstMatch(entries: seq<AddressBookEntry>, prefix: string, k: int)
    reads entries
  {
    && 0 <= k < |entries|
    && NameMatches(entries[k].name, prefix)
    && forall j :: 0 <= j < k ==> !NameMatches(entries[j].name, prefix)
  }

  predicate AnyMatches(entries: seq<AddressBookEntry>, prefix: string)
    reads entries
  {
    exists k :: 0 <= k < |entries| && NameMatches(entries[k].name, prefix)
  }

  /** `filter(...).findFirst()` from position `from`: the first match, or `Empty`. */
  function FindFirst(entries: seq<AddressBookEntry>, prefix: string, from: nat): (r: Optional<nat>)
    reads entries
    requires from <= |entries|
    ensures r.Of? ==> from <= r.value < |entries| && NameMatches(entries[r.value].name, prefix)
    ensures r.Of? ==> forall j :: from <= j < r.value ==> !NameMatches(entries[j].name, prefix)
    ensures r.Empty? ==> forall j :: from <= j < |entries| ==> !NameMatches(entries[j].name, prefix)
    decreases |entries| - from
  {
    if from == |entries| then Empty
    else if NameMatches(entries[from].name, prefix) then Of(from)
    else FindFirst(entries, prefix, from + 1)
  }

  /**
   * `calculateDayDifference`: the days from the birthdate of the first
   * entry matching the older person's name to that of the first entry
   * matching the younger person's; a name with no match fails in
   * `Optional.get()`.
   */
  function CalculateDayDifference(list: seq<AddressBookEntry>, nameOlderPerson: string, nameYoungerPerson: string): (r: Result<int>)
    reads list
    ensures r.Failure? <==> !AnyMatches(list, nameOlderPerson) || !AnyMatches(list, nameYoungerPerson)
    ensures r.Failure? ==> r.error == NoSuchElement
    ensures r.Success? ==> exists i, j :: IsFirstMatch(list, nameOlderPerson, i) && IsFirstMatch(list, nameYoungerPerson, j)
                                       && r.value == DaysBetween(list[i].birthdate, list[j].birthdate)
  {
    var older := FindFirst(list, nameOlderPerson, 0);
    if older.Empty? then Failure(NoSuchElement)
    else
      var younger := FindFirst(list, nameYoungerPerson, 0);
      if younger.Empty? then Failure(NoSuchElement)
      else
        assert IsFirstMatch(list, nameOlderPerson, older.value);
        assert IsFirstMatch(list, nameYoungerPerson, younger.value);
        Success(DaysBetween(list[older.value].birthdate, list[younger.value].birthdate))
  }

  lemma FirstMatchUnique(entries: seq<AddressBookEntry>, prefix: string, i: int, j: int)
    requires IsFirstMatch(entries, prefix, i) && IsFirstMatch(entries, prefix, j)
    ensures i == j
  {
  }

  /**
   * Given the first matches of both names, the difference is the days
   * between their birthdates: positive exactly when the first is born
   * earlier, zero exactly on the same day.
   */
  lemma DayDifferenceOfFirstMatches(list: seq<AddressBookEntry>, older: string, younger: string, i: int, j: int)
    requires IsFirstMatch(list, older, i) && IsFirstMatch(list, younger, j)
    ensures CalculateDayDifference(list, older, younger) == Success(DaysBetween(list[i].birthdate, list[j].birthdate))
    ensures CalculateDayDifference(list, older, younger).value > 0 <==> IsBefore(list[i].birthdate, list[j].birthdate)
    ensures CalculateDayDifference(list, older, younger).value == 0 <==> list[i].birthdate == list[j].birthdate
  {
    var o := FindFirst(list, older, 0);
    var y := FindFirst(list, younger, 0);
    assert o.Of? && y.Of?;
    FirstMatchUnique(list, older, i, o.value);
    FirstMatchUnique(list, younger, j, y.value);
    DaysBetweenSign(list[i].birthdate, list[j].birthdate);
  }

  /** Swapping the two names negates the difference, and fails exactly when it failed. */
  lemma DayDifferenceSwap(list: seq<AddressBookEntry>, a: string, b: string)
    ensures CalculateDayDifference(list, a, b).Success? <==> CalculateDayDifference(list, b, a).Success?
    ensures CalculateDayDifference(list, a, b).Success? ==>
      CalculateDayDifference(list, b, a).value == -CalculateDayDifference(list, a, b).value
  {
    if CalculateDayDifference(list, a, b).Success? {
      var i :| IsFirstMatch(list, a, i);
      var j :| IsFirstMatch(list, b, j);
      DayDifferenceOfFirstMatches(list, a, b, i, j);
      DayDifferenceOfFirstMatches(list, b, a, j, i);
      DaysBetweenSign(list[i].birthdate, list[j].birthdate);
    }
  }

  /** Someone born the day after the first match of the older name is one day younger. */
  lemma DayDifferenceNextDay(list: seq<AddressBookEntry>, older: string, younger: string, i: int, j: int)
    requires IsFirstMatch(list, older, i) && IsFirstMatch(list, younger, j)
    requires list[i].birthdate.year < MaxYear && list[j].birthdate == NextDay(list[i].birthdate)
    ensures CalculateDayDifference(list, older, younger) == Success(1)
  {
    DayDifferenceOfFirstMatches(list, older, younger, i, j);
    DaysBetweenNext(list[i].birthdate);
  }
}
