# BrainzTime: the date parser of a MusicBrainz WS2 client

This project models the date decoding of `gomusicbrainz`, a Go client for the
MusicBrainz WS2 XML web service. Every date field of a response goes through
`BrainzTime.UnmarshalXML`. This covers a release's `date` and a life-span's
`begin` and `end`.

The method takes the element's text and counts its hyphens. That count picks a
`time.Parse` layout:

- no hyphen: `"2006"`, a year;
- one hyphen: `"2006-01"`, a year and a month;
- two hyphens: `"2006-01-02"`, a full date.

The parsed time is stored into the receiver only when no error comes back.

The model has four modules:

- `Wrappers` (`wrappers.dfy`): `Option`, and `Result`, which stands for Go's
  `(value, error)` pair.
- `GoTime` (`go_time.dfy`): Go's `time.Parse` for exactly those three layouts.
  It reads the elements one by one, in the order and with the checks Go's
  parser makes:
  - four digits for the year;
  - a literal `-`;
  - two digits for the month, rejected at once outside 1..12;
  - a literal `-`;
  - two digits for the day;
  - no text left over;
  - the day must exist in that month of that year (leap years included).

  It also has the matching `Format`. A `time.Time` is reduced to a `Date`
  triple. Every value these layouts produce is midnight UTC. Go's zero time is
  `ZeroTime`, January 1 of year 1.
- `Structs` (`structs.dfy`): `strings.Count(v, "-")`, the layout selection, and
  `Unmarshal`, a function giving the outcome for a text. It also holds the
  class `BrainzTime`. Its `UnmarshalXML` method updates the `time` field only
  on success.
- `DateExamples` (`examples.dfy`): concrete texts. They include the dates the
  search responses decode to, leap days, short fields, empty text and a field
  decoded twice.

The main results are these:

- Parsing and formatting are inverse. A successful parse, formatted again with
  the layout the text selected, gives back the text exactly. Every date a layout
  can express is parsed back from its formatted text.
- With at most two hyphens, exactly the formatted texts of real calendar days
  are accepted.
- Precision is lost. `YYYY`, `YYYY-01` and `YYYY-01-01` store the same value.
- Empty text is an error.
- Text with three or more hyphens stores the zero time and returns no error.

Two consequences of the code as written, next to its own note
`// TODO handle empty fields` (structs.go:55):

- Empty text is reported as a parse error. It is not treated as a missing date.
- The zero time is not a distinct value for a missing date. The text `0001`
  parses to the very same value, because Go's zero `time.Time` is
  0001-01-01 00:00:00 UTC. Any text with three or more hyphens also stores it.

## Model

| member | source | states |
|---|---|---|
| `Structs.CountHyphens` | structs.go:46 | the number of hyphens never exceeds the length of the text |
| `Structs.CountHyphensAppend` | structs.go:46 | the hyphen count of a concatenation is the sum of the counts of its parts |
| `Structs.CountHyphensZero` | structs.go:46 | the count is zero exactly when no character is a hyphen |
| `Structs.LayoutHyphens` | structs.go:47-52 | the layouts "2006", "2006-01" and "2006-01-02" contain 0, 1 and 2 hyphens |
| `Structs.SelectLayout` | structs.go:46-53 | a case of the switch is selected exactly when the text has at most two hyphens; the selected layout has as many hyphens as the text |
| `Structs.BrainzTime.constructor` | structs.go:36-38 | an undecoded field holds Go's zero time |
| `Structs.BrainzTime.UnmarshalXML` | structs.go:40-62 | an error is returned exactly when parsing fails, and then the receiver keeps its old value; otherwise the receiver holds the parsed date (the zero time when no case matched) |
| `Structs.FormatHyphens` | structs.go:46-53 | a date formatted with a layout has exactly that layout's number of hyphens |
| `Structs.SelectFormattedThen` | structs.go:46-53 | a formatted date followed by hyphen-free text selects the layout it was formatted with |
| `Structs.UnmarshalFormatsBack` | structs.go:46-60 | on success the stored date has January and day 1 in the fields the layout lacks, and formatting it with the selected layout reproduces the input text |
| `Structs.UnmarshalFormatted` | structs.go:46-53 | every real date a layout can express, written in that layout, selects that layout and is stored unchanged |
| `Structs.UnmarshalAcceptsExactly` | structs.go:46-59 | with at most two hyphens, a text is accepted if and only if it is `DDDD`, `DDDD-DD` or `DDDD-DD-DD` of a real calendar day |
| `Structs.PrecisionLost` | structs.go:36-53 | a year, its January and its January 1 are all stored as the same date |
| `Structs.ManyHyphensStoreZeroTime` | structs.go:42-61 | text with three or more hyphens yields the zero time and no error |
| `Structs.TrailingTextRejected` | structs.go:46-59 | any hyphen-free text after a complete date is rejected as extra text |
| `Structs.MonthOutOfRangeRejected` | structs.go:49-59 | a two-digit month outside 1..12 is rejected as out of range |
| `Structs.DayOutOfRangeRejected` | structs.go:51-59 | a full date whose day does not exist in its month and year is rejected as out of range |
| `GoTime.DayFormatsBack` | structs.go:52 | after the month, a successful parse read exactly a hyphen and the two digits of a day that exists in that month |
| `GoTime.MonthFormatsBack` | structs.go:50-52 | after the year, a successful parse read exactly a hyphen and the two digits of a month in 1..12 (and the day part for the full layout) |
| `GoTime.ParseFormatsBack` | structs.go:48-52 | every value `time.Parse` returns for these layouts is a real date with the defaulted fields at January and day 1, and its formatted text is the input |
| `GoTime.ParseFormattedThen` | structs.go:48-52 | parsing a formatted date followed by any text reads the fields back as written, then applies the month range check, the extra-text check and the day check |
| `GoTime.FormatParses` | structs.go:48-52 | every date a layout can express is parsed back from its formatted text |
| `GoTime.ParseAcceptsExactly` | structs.go:48-52 | `time.Parse` with these layouts succeeds if and only if the text is the formatted text of a date the layout can express |
| `DateExamples.EmptyTextIsError` | structs.go:46-59 | empty text counts zero hyphens, fails the year layout and is returned as an error |
| `DateExamples.YearOneIsZeroTime` | structs.go:42-48 | the text `0001` is stored as the same value as the zero time |
| `DateExamples.ResponseBeginDate` | gomusicbrainz_test.go:88-90 | `2007-09-21` is stored as September 21, 2007 |
| `DateExamples.ResponseReleaseDate` | gomusicbrainz_test.go:142 | `1991-04-30` is stored as April 30, 1991 |
| `DateExamples.LeapDayAccepted` | structs.go:51-52 | `2008-02-29` is accepted |
| `DateExamples.NonLeapDayRejected` | structs.go:51-52 | `2007-02-29` is rejected as a day out of range |
| `DateExamples.CenturyDayRejected` | structs.go:51-52 | `1900-02-29` is rejected as a day out of range |
| `DateExamples.MonthThirteenRejected` | structs.go:49-50 | `2007-13` is rejected as a month out of range |
| `DateExamples.ShortYearRejected` | structs.go:47-48 | `07` is rejected at the year |
| `DateExamples.ShortMonthRejected` | structs.go:51-52 | `2007-9-21` is rejected at the month |
| `DateExamples.DecodeTwice` | structs.go:57-60 | decoding `2007-09-21` returns no error and stores that day; decoding `2007-13` afterwards returns the month error and leaves the field unchanged |

## Left out

- XML decoding is not modelled. This includes `d.DecodeElement` at
  structs.go:44, whose error is ignored. The model takes the element's text as
  an already extracted string.
- The struct-tag data shapes are not modelled: `Lifespan`, `Aliases`, `Artist`,
  `LabelInfo`, `Medium`, `Release`, the search request envelopes with their
  `count` and `offset`, and `Annotation`. Go's `encoding/xml` interprets them,
  and that package is not part of this model.
- A date element that is absent from a document keeps the zero value. This is
  `encoding/xml` behaviour: the unmarshaler is never called, so nothing here
  models it.
- Query building, the client facade, `WS2ListResponse` and `ScoreMap` are not
  part of this model.
- HTTP transport and the test server are not modelled.
- Only the calendar day of `time.Time` is modelled. Clock fields, time zones
  and monotonic readings are left out. For these three layouts the clock is
  always midnight UTC.
- `time.Parse` is modelled only for the three layouts this code uses. The
  layout string itself is not interpreted.
- `GoTime.ParseError` keeps only the kind of error, the layout element and the
  remaining text. Go's error also carries the full layout and value strings and
  a message.
- Text is modelled as a sequence of characters rather than UTF-8 bytes. With
  at most two hyphens, any non-ASCII character makes `time.Parse` fail either
  way. Text with three or more hyphens is not read at all. So only the
  remaining text carried inside an error could differ.
