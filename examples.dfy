/** Concrete date texts and what `UnmarshalXML` makes of them: the dates of
    the decoded search responses, leap days, short fields, empty text, and a
    field decoded twice. */
module DateExamples {
  import opened Wrappers
  import opened GoTime
  import opened Structs

  /** Empty text has no hyphen, fails the year layout and is an error, not an
      absent date. */
  lemma EmptyTextIsError()
    ensures Unmarshal("") == Err(CannotParse(LongYear, ""))
  {
  }

  /** Connects a string literal to `Format` for `UnmarshalFormatted`, so that
      the examples below do not evaluate `Unmarshal` on the literal itself. */
  lemma StoredAs(layout: Layout, d: Date, text: string)
    requires Fits(layout, d) && Format(layout, d) == text
    ensures Unmarshal(text) == Ok(d)
  {
    UnmarshalFormatted(layout, d);
  }

  /** Connects a string literal to `Format` for `DayOutOfRangeRejected`. */
  lemma RejectedDay(d: Date, text: string)
    requires Printable(d) && 1 <= d.month <= 12 && DaysIn(d.month, d.year) < d.day
    requires Format(YearMonthDay, d) == text
    ensures Unmarshal(text) == Err(DayOutOfRange)
  {
    DayOutOfRangeRejected(d);
  }

  /** Connects a string literal to `Format` for `MonthOutOfRangeRejected`. */
  lemma RejectedMonth(d: Date, text: string)
    requires Printable(d) && (d.month < 1 || 12 < d.month)
    requires Format(YearMonth, d) == text
    ensures Unmarshal(text) == Err(MonthOutOfRange)
  {
    MonthOutOfRangeRejected(YearMonth, d);
  }

  /** The zero time is not a distinct value for a missing date: the year 1 parses to it,
      just as text with three or more hyphens leaves it. */
  lemma YearOneIsZeroTime()
    ensures Unmarshal("0001") == Ok(ZeroTime)
  {
    StoredAs(Year, ZeroTime, "0001");
  }

  /** The life-span begin date of the decoded artist search response. */
  lemma ResponseBeginDate()
    ensures Unmarshal("2007-09-21") == Ok(Date(2007, 9, 21))
  {
    StoredAs(YearMonthDay, Date(2007, 9, 21), "2007-09-21");
  }

  /** The release date of the decoded release search response. */
  lemma ResponseReleaseDate()
    ensures Unmarshal("1991-04-30") == Ok(Date(1991, 4, 30))
  {
    StoredAs(YearMonthDay, Date(1991, 4, 30), "1991-04-30");
  }

  /** February 29 exists in a leap year ... */
  lemma LeapDayAccepted()
    ensures Unmarshal("2008-02-29") == Ok(Date(2008, 2, 29))
  {
    StoredAs(YearMonthDay, Date(2008, 2, 29), "2008-02-29");
  }

  /** ... but not in other years ... */
  lemma NonLeapDayRejected()
    ensures Unmarshal("2007-02-29") == Err(DayOutOfRange)
  {
    RejectedDay(Date(2007, 2, 29), "2007-02-29");
  }

  /** ... nor in a century year not divisible by 400. */
  lemma CenturyDayRejected()
    ensures Unmarshal("1900-02-29") == Err(DayOutOfRange)
  {
    RejectedDay(Date(1900, 2, 29), "1900-02-29");
  }

  /** A two-digit year is rejected at the year. */
  lemma ShortYearRejected()
    ensures Unmarshal("07") == Err(CannotParse(LongYear, "07"))
  {
  }

  /** A one-digit month is rejected at the month. */
  lemma ShortMonthRejected()
    ensures Unmarshal("2007-9-21") == Err(CannotParse(ZeroMonth, "9-21"))
  {
  }

  /** A month past December is rejected as soon as it is read. */
  lemma MonthThirteenRejected()
    ensures Unmarshal("2007-13") == Err(MonthOutOfRange)
  {
    RejectedMonth(Date(2007, 13, 1), "2007-13");
  }

  /** Decoding a date field: a valid date is stored, an invalid one leaves the
      field as it was and returns the error. */
  method DecodeTwice() returns (ok: Option<ParseError>, first: Date, err: Option<ParseError>, second: Date)
    ensures ok == None && first == Date(2007, 9, 21)
    ensures err == Some(MonthOutOfRange) && second == first
  {
    var begin, bad := "2007-09-21", "2007-13";
    ResponseBeginDate();
    MonthThirteenRejected();
    var t := new BrainzTime();
    ok := t.UnmarshalXML(begin);
    first := t.time;
    err := t.UnmarshalXML(bad);
    second := t.time;
  }
}
