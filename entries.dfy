/**
 * `AddressBookEntry`: a mutable record of one person, with a name, a sex and
 * a birthdate, each overwritten in place by its setter.
 */
module Entries {
  import opened LocalDates

  /** The contents of an entry at one moment. */
  datatype Fields = Fields(name: string, sex: string, birthdate: LocalDate)

  class AddressBookEntry {
    var name: string
    var sex: string
    var birthdate: LocalDate

    /** The three fields as a value. */
    function Value(): Fields
      reads this
    {
      Fields(name, sex, birthdate)
    }

    /**
     * The no-argument constructor. Java leaves the three fields null; here
     * they start empty and at the epoch, and every caller sets all three
     * before the entry is read.
     */
    constructor Empty()
      ensures name == "" && sex == "" && birthdate == Date(1970, 1, 1)
    {
      name := "";
      sex := "";
      birthdate := Date(1970, 1, 1);
    }

    /** Stores exactly the given name, sex and birthdate. */
    constructor (name: string, sex: string, birthdate: LocalDate)
      ensures Value() == Fields(name, sex, birthdate)
    {
      this.name := name;
      this.sex := sex;
      this.birthdate := birthdate;
    }

    /** Replaces the name; the sex and the birthdate stay as they were. */
    method SetName(name: string)
      modifies this`name
      ensures Value() == old(Value()).(name := name)
    {
      this.name := name;
    }

    /** Replaces the sex; the name and the birthdate stay as they were. */
    method SetSex(sex: string)
      modifies this`sex
      ensures Value() == old(Value()).(sex := sex)
    {
      this.sex := sex;
    }

    /** Replaces the birthdate; the name and the sex stay as they were. */
    method SetBirthdate(birthdate: LocalDate)
      modifies this`birthdate
      ensures Value() == old(Value()).(birthdate := birthdate)
    {
      this.birthdate := birthdate;
    }
  }
}
