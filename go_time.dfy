/** The part of Go's `time` package the date unmarshaler relies on: `time.Parse`
    for the three layouts "2006", "2006-01" and "2006-01-02", the calendar rule it
    checks the day against, and `Format` for the same layouts. A `time.Time` is
    reduced to its calendar day: every value these layouts produce is midnight UTC. */
module GoTime {
  import opened Wrappers

  /** A day of the proleptic Gregorian calendar, at 00:00:00 UTC. */
  datatype Date = Date(year: nat, month: nat, day: nat)

  /** Go's zero `time.Time`: January 1 of year 1, 00:00:00 UTC. */
  const ZeroTime: Date := Date(1, 1, 1)

  /** The layouts "2006" (year), "2006-01" (year and month) and "2006-01-02" (full date). */
  datatype Layout = Year | YearMonth | YearMonthDay

  function LayoutText(layout: Layout): string {
    match layout
    case Year => "2006"
    case YearMonth => "2006-01"
    case YearMonthDay => "2006-01-02"
  }

  /** The element of a layout at which parsing stopped. */
  datatype LayoutElem = LongYear | Hyphen | ZeroMonth | ZeroDay

  /** The kinds of `*time.ParseError` these layouts can produce. */
  datatype ParseError =
    | CannotParse(elem: LayoutElem, rest: string)  // the text from `elem` on does not fit it
    | MonthOutOfRange
    | DayOutOfRange
    | ExtraText(rest: string)                      // text left over after the layout

  // ---------------------------------------------------------------- calendar

  predicate IsLeap(year: nat) {
    year % 4 == 0 && (year % 100 != 0 || year % 400 == 0)
  }

  /** Length of `month` in `year`; February has 29 days in leap years. */
  function DaysIn(month: nat, year: nat): nat
    requires 1 <= month <= 12
  {
    if month == 2 then (if IsLeap(year) then 29 else 28)
    else if month == 4 || month == 6 || month == 9 || month == 11 then 30
    else 31
  }

  /** A real calendar day whose year has at most four digits. */
  predicate Valid(d: Date) {
    d.year <= 9999 && 1 <= d.month <= 12 && 1 <= d.day <= DaysIn(d.month, d.year)
  }

  /** `d` is a date `layout` can express: the fields the layout does not
      mention hold the defaults January and day 1. */
  predicate Fits(layout: Layout, d: Date) {
    Valid(d) && (layout == Year ==> d.month == 1) && (layout != YearMonthDay ==> d.day == 1)
  }

  // ---------------------------------------------------------------- digits

  predicate IsDigit(c: char) {
    '0' <= c <= '9'
  }

  predicate AllDigits(s: string) {
    forall i :: 0 <= i < |s| ==> IsDigit(s[i])
  }

  function DigitValue(c: char): nat
    requires IsDigit(c)
  {
    (c as int - '0' as int) as nat
  }

  function DigitChar(n: nat): char
    requires n < 10
  {
    ('0' as int + n) as char
  }

  /** Value of four decimal digits, as `atoi` reads them. */
  function FourDigitValue(s: string): nat
    requires |s| == 4 && AllDigits(s)
  {
    1000 * DigitValue(s[0]) + 100 * DigitValue(s[1]) + 10 * DigitValue(s[2]) + DigitValue(s[3])
  }

  /** `n` written with exactly four digits, zero-padded. */
  function Pad4(n: nat): string
    requires n < 10000
  {
    Pad2(n / 100) + Pad2(n % 100)
  }

  /** `n` written with exactly two digits, zero-padded. */
  function Pad2(n: nat): string
    requires n < 100
  {
    [DigitChar(n / 10), DigitChar(n % 10)]
  }

  // ---------------------------------------------------------------- parsing

  /** What one layout element consumed: its number and the text after it. */
  datatype Chunk = Chunk(n: nat, rest: string)

  /** Layout element "2006": the first four characters must all be digits. */
  function StdLongYear(value: string): Result<Chunk, ParseError> {
    if |value| < 4 || !IsDigit(value[0]) || !AllDigits(value[..4]) then
      Err(CannotParse(LongYear, value))
    else
      Ok(Chunk(FourDigitValue(value[..4]), value[4..]))
  }

  /** Layout elements "01" and "02": exactly two digits, not yet range-checked. */
  function StdTwoDigits(value: string, elem: LayoutElem): Result<Chunk, ParseError> {
    if |value| < 2 || !IsDigit(value[0]) || !IsDigit(value[1]) then
      Err(CannotParse(elem, value))
    else
      Ok(Chunk(10 * DigitValue(value[0]) + DigitValue(value[1]), value[2..]))
  }

  /** The literal "-" between layout elements. */
  function SkipHyphen(value: string): Result<string, ParseError> {
    if |value| == 0 || value[0] != '-' then Err(CannotParse(Hyphen, value)) else Ok(value[1..])
  }

  /** The checks `time.Parse` makes once the layout is used up: no text may be
      left, and the day must exist in that month of that year. */
  function Finish(rest: string, year: nat, month: nat, day: nat): Result<Date, ParseError>
    requires 1 <= month <= 12
  {
    if rest != [] then Err(ExtraText(rest))
    else if day < 1 || DaysIn(month, year) < day then Err(DayOutOfRange)
    else Ok(Date(year, month, day))
  }

  /** `time.Parse(LayoutText(layout), value)`, element by element. A layout
      without a month or a day leaves January or day 1. */
  function Parse(layout: Layout, value: string): Result<Date, ParseError> {
    var year :- StdLongYear(value);
    if layout == Year then Finish(year.rest, year.n, 1, 1)
    else ParseMonth(layout, year.n, year.rest)
  }

  /** The rest of a layout with a month, after the year. A month outside
      1..12 is rejected as soon as it is read. */
  function ParseMonth(layout: Layout, year: nat, value: string): Result<Date, ParseError> {
    var afterYear :- SkipHyphen(value);
    var month :- StdTwoDigits(afterYear, ZeroMonth);
    if month.n < 1 || 12 < month.n then Err(MonthOutOfRange)
    else if layout == YearMonthDay then ParseDay(year, month.n, month.rest)
    else Finish(month.rest, year, month.n, 1)
  }

  /** The rest of "2006-01-02", after the month. */
  function ParseDay(year: nat, month: nat, value: string): Result<Date, ParseError>
    requires 1 <= month <= 12
  {
    var afterMonth :- SkipHyphen(value);
    var day :- StdTwoDigits(afterMonth, ZeroDay);
    Finish(day.rest, year, month, day.n)
  }

  // ---------------------------------------------------------------- formatting

  /** Fields small enough for the fixed-width layout elements. */
  predicate Printable(d: Date) {
    d.year < 10000 && d.month < 100 && d.day < 100
  }

  /** `t.Format(LayoutText(layout))`. */
  function Format(layout: Layout, d: Date): string
    requires Printable(d)
  {
    Pad4(d.year)
    + (if layout == Year then "" else "-" + Pad2(d.month))
    + (if layout == YearMonthDay then "-" + Pad2(d.day) else "")
  }

  // ---------------------------------------------------------------- digit lemmas

  lemma Pad4Digits(n: nat)
    requires n < 10000
    ensures |Pad4(n)| == 4 && AllDigits(Pad4(n)) && FourDigitValue(Pad4(n)) == n
  {
    var s := Pad4(n);
    Pad2Digits(n / 100);
    Pad2Digits(n % 100);
    assert s == Pad2(n / 100) + Pad2(n % 100);
    assert FourDigitValue(s) == 100 * (n / 100) + n % 100;
  }

  lemma FourDigitsPad(s: string)
    requires |s| == 4 && AllDigits(s)
    ensures FourDigitValue(s) < 10000 && Pad4(FourDigitValue(s)) == s
  {
    var hi := 10 * DigitValue(s[0]) + DigitValue(s[1]);
    var lo := 10 * DigitValue(s[2]) + DigitValue(s[3]);
    TwoDigitsPad(s[..2]);
    TwoDigitsPad(s[2..]);
    var n := FourDigitValue(s);
    assert n == 100 * hi + lo;
    DivMod100(hi, lo);
    assert s == s[..2] + s[2..];
  }

  lemma DivMod100(hi: nat, lo: nat)
    requires lo < 100
    ensures (100 * hi + lo) / 100 == hi && (100 * hi + lo) % 100 == lo
  {
  }

  lemma Pad2Digits(n: nat)
    requires n < 100
    ensures |Pad2(n)| == 2 && AllDigits(Pad2(n))
    ensures 10 * DigitValue(Pad2(n)[0]) + DigitValue(Pad2(n)[1]) == n
  {
  }

  lemma TwoDigitsPad(s: string)
    requires |s| == 2 && AllDigits(s)
    ensures 10 * DigitValue(s[0]) + DigitValue(s[1]) < 100
    ensures Pad2(10 * DigitValue(s[0]) + DigitValue(s[1])) == s
  {
  }

  // ---------------------------------------------------------------- parse / format

  /** What a successful `ParseDay` read: a hyphen and the two digits of a day
      that exists in that month. */
  lemma DayFormatsBack(year: nat, month: nat, value: string)
    requires 1 <= month <= 12 && ParseDay(year, month, value).Ok?
    ensures var d := ParseDay(year, month, value).value;
      d.year == year && d.month == month && 1 <= d.day <= DaysIn(month, year) &&
      d.day < 100 && value == "-" + Pad2(d.day)
  {
    var day := StdTwoDigits(value[1..], ZeroDay).value;
    assert day.rest == value[3..] == [];
    TwoDigitsPad(value[1..3]);
  }

  /** What a successful `ParseMonth` read: a hyphen, the two digits of a month
      in 1..12 and, for the full layout, what `ParseDay` read. */
  lemma MonthFormatsBack(layout: Layout, year: nat, value: string)
    requires layout != Year && ParseMonth(layout, year, value).Ok?
    ensures var d := ParseMonth(layout, year, value).value;
      d.year == year && 1 <= d.month <= 12 && 1 <= d.day <= DaysIn(d.month, year) &&
      d.day < 100 && (layout == YearMonth ==> d.day == 1) &&
      value == "-" + Pad2(d.month) + (if layout == YearMonthDay then "-" + Pad2(d.day) else "")
  {
    var month := StdTwoDigits(value[1..], ZeroMonth).value;
    assert month.rest == value[3..];
    TwoDigitsPad(value[1..3]);
    if layout == YearMonthDay {
      DayFormatsBack(year, month.n, value[3..]);
      assert value == value[..3] + value[3..];
    } else {
      assert value[3..] == [];
    }
  }

  /** Every successful parse yields a date the layout can express, and
      formatting it with the same layout gives back the input text exactly:
      no shorter field, no longer field and no trailing text is accepted. */
  lemma ParseFormatsBack(layout: Layout, value: string)
    requires Parse(layout, value).Ok?
    ensures Fits(layout, Parse(layout, value).value)
    ensures Format(layout, Parse(layout, value).value) == value
  {
    var d := Parse(layout, value).value;
    var year := StdLongYear(value).value;
    assert year.n == FourDigitValue(value[..4]) && year.rest == value[4..];
    FourDigitsPad(value[..4]);
    if layout == Year {
      assert value[4..] == [];
      assert value == Pad4(d.year);
    } else {
      MonthFormatsBack(layout, year.n, year.rest);
      assert value == value[..4] + value[4..];
    }
  }

  /** Parsing a formatted date followed by any text: the fields are read back
      as written, a month outside 1..12 is rejected at once, and otherwise the
      final checks see exactly the text that followed. */
  lemma ParseFormattedThen(layout: Layout, d: Date, tail: string)
    requires Printable(d)
    ensures Parse(layout, Format(layout, d) + tail) ==
      if layout != Year && (d.month < 1 || 12 < d.month) then Err(MonthOutOfRange)
      else Finish(tail, d.year, if layout == Year then 1 else d.month,
                  if layout == YearMonthDay then d.day else 1)
  {
    var s := Format(layout, d) + tail;
    Pad4Digits(d.year);
    assert s[..4] == Pad4(d.year);
    assert StdLongYear(s) == Ok(Chunk(d.year, s[4..]));
    if layout == Year {
      assert s[4..] == tail;
    } else {
      Pad2Digits(d.month);
      assert s[4] == '-';
      assert SkipHyphen(s[4..]) == Ok(s[5..]);
      assert s[5..][..2] == Pad2(d.month);
      assert StdTwoDigits(s[5..], ZeroMonth) == Ok(Chunk(d.month, s[7..]));
      if layout == YearMonth {
        assert s[7..] == tail;
      } else {
        Pad2Digits(d.day);
        assert s[7] == '-';
        assert SkipHyphen(s[7..]) == Ok(s[8..]);
        assert s[8..][..2] == Pad2(d.day);
        assert StdTwoDigits(s[8..], ZeroDay) == Ok(Chunk(d.day, s[10..]));
        assert s[10..] == tail;
      }
    }
  }

  /** Every date a layout can express is parsed back from its formatted text. */
  lemma FormatParses(layout: Layout, d: Date)
    requires Fits(layout, d)
    ensures Parse(layout, Format(layout, d)) == Ok(d)
  {
    ParseFormattedThen(layout, d, []);
    assert Format(layout, d) + [] == Format(layout, d);
  }

  /** `time.Parse` with one of these layouts accepts exactly the formatted
      texts of the dates that layout can express. */
  lemma ParseAcceptsExactly(layout: Layout, value: string)
    ensures Parse(layout, value).Ok? <==> exists d :: Fits(layout, d) && Format(layout, d) == value
  {
    if Parse(layout, value).Ok? {
      ParseFormatsBack(layout, value);
    }
    if d :| Fits(layout, d) && Format(layout, d) == value {
      FormatParses(layout, d);
    }
  }
}
