/** `BrainzTime`, the wrapper type through which every date field of a
    MusicBrainz WS2 response is decoded (a release `date`, a life-span `begin`
    and `end`), and its `UnmarshalXML`: the element's text is parsed with the
    layout picked by its number of hyphens, and the receiver is overwritten
    only when no error comes back. */
module Structs {
  import opened Wrappers
  import opened GoTime

  /** `strings.Count(v, "-")`. */
  function CountHyphens(v: string): (n: nat)
    ensures n <= |v|
  {
    if v == [] then 0
    else (if v[0] == '-' then 1 else 0) + CountHyphens(v[1..])
  }

  /** Text counts no hyphens exactly when no character of it is a hyphen. */
  lemma {:induction false} CountHyphensZero(v: string)
    ensures CountHyphens(v) == 0 <==> forall i :: 0 <= i < |v| ==> v[i] != '-'
  {
    if v != [] {
      CountHyphensZero(v[1..]);
      assert forall i :: 1 <= i < |v| ==> v[i] == v[1..][i - 1];
    }
  }

  lemma {:induction false} CountHyphensAppend(a: string, b: string)
    ensures CountHyphens(a + b) == CountHyphens(a) + CountHyphens(b)
  {
    if a == [] {
      assert a + b == b;
    } else {
      assert (a + b)[1..] == a[1..] + b;
      CountHyphensAppend(a[1..], b);
    }
  }

  /** The hyphens of each layout's own text: none in "2006", one in
      "2006-01", two in "2006-01-02". */
  lemma LayoutHyphens(layout: Layout)
    ensures CountHyphens(LayoutText(layout)) == match layout
      case Year => 0
      case YearMonth => 1
      case YearMonthDay => 2
  {
    var year, month, day := "2006", "01", "02";
    assert CountHyphens(year) == 0 && CountHyphens(month) == 0 && CountHyphens(day) == 0;
    assert CountHyphens("-") == 1;
    CountHyphensAppend(year, "-");
    CountHyphensAppend(year + "-", month);
    assert LayoutText(YearMonth) == year + "-" + month;
    CountHyphensAppend(year + "-" + month, "-");
    CountHyphensAppend(year + "-" + month + "-", day);
    assert LayoutText(YearMonthDay) == year + "-" + month + "-" + day;
  }

  /** The case of the `switch` that `v` selects: the layout with as many
      hyphens as `v` has, or none when `v` has three or more. */
  function SelectLayout(v: string): (r: Option<Layout>)
    ensures r.Some? <==> CountHyphens(v) <= 2
    ensures r.Some? ==> CountHyphens(LayoutText(r.value)) == CountHyphens(v)
  {
    var n := CountHyphens(v);
    var r := if n == 0 then Some(Year) else if n == 1 then Some(YearMonth)
             else if n == 2 then Some(YearMonthDay) else None;
    if r.Some? then LayoutHyphens(r.value); r else r
  }

  /** The outcome of `UnmarshalXML` on the text `v`: `Ok(p)` when it stores `p`
      and returns nil, `Err(e)` when it returns `e` and stores nothing. With no
      matching case `p` keeps its zero value and `err` stays nil. */
  function Unmarshal(v: string): Result<Date, ParseError> {
    match SelectLayout(v)
    case None => Ok(ZeroTime)
    case Some(layout) => Parse(layout, v)
  }

  /** A date field of a decoded response; `time` is the embedded `time.Time`. */
  class BrainzTime {
    var time: Date

    /** The zero value `BrainzTime{}` a field holds before it is decoded. */
    constructor ()
      ensures time == ZeroTime
    {
      time := ZeroTime;
    }

    /** Decodes the element text `v` into the receiver. The new date is stored
        only when the returned error is nil; on an error the receiver keeps
        what it held. */
    method UnmarshalXML(v: string) returns (err: Option<ParseError>)
      modifies this
      ensures err.Some? <==> Unmarshal(v).Err?
      ensures err.Some? ==> err.value == Unmarshal(v).error && time == old(time)
      ensures err.None? ==> time == Unmarshal(v).value
    {
      var p := ZeroTime;
      err := None;
      var parsed: Result<Date, ParseError>;
      var n := CountHyphens(v);
      if n == 0 {
        parsed := Parse(Year, v);
      } else if n == 1 {
        parsed := Parse(YearMonth, v);
      } else if n == 2 {
        parsed := Parse(YearMonthDay, v);
      } else {
        parsed := Ok(p);
      }
      assert parsed == Unmarshal(v);
      match parsed {
        case Ok(d) => p := d;
        case Err(e) => err := Some(e);
      }
      if err.Some? {
        return;
      }
      time := p;
    }
  }

  // ---------------------------------------------------------------- properties

  /** Digits carry no hyphens, so a formatted date has exactly the hyphens of
      the layout it was formatted with. */
  lemma FormatHyphens(layout: Layout, d: Date)
    requires Printable(d)
    ensures CountHyphens(Format(layout, d)) == CountHyphens(LayoutText(layout))
  {
    LayoutHyphens(layout);
    var y, m, dd := Pad4(d.year), Pad2(d.month), Pad2(d.day);
    Pad4Digits(d.year);
    Pad2Digits(d.month);
    Pad2Digits(d.day);
    CountHyphensZero(y);
    CountHyphensZero(m);
    CountHyphensZero(dd);
    assert CountHyphens("-") == 1;
    assert CountHyphens("") == 0;
    var monthPart := if layout == Year then "" else "-" + m;
    var dayPart := if layout == YearMonthDay then "-" + dd else "";
    CountHyphensAppend("-", m);
    CountHyphensAppend("-", dd);
    CountHyphensAppend(y, monthPart);
    CountHyphensAppend(y + monthPart, dayPart);
  }

  /** Round trip: on success, formatting the stored date with the layout the
      text selected reproduces the text exactly, and the date is one that
      layout can express (unnamed fields at January and day 1). */
  lemma UnmarshalFormatsBack(v: string)
    requires CountHyphens(v) <= 2 && Unmarshal(v).Ok?
    ensures Fits(SelectLayout(v).value, Unmarshal(v).value)
    ensures Format(SelectLayout(v).value, Unmarshal(v).value) == v
  {
    ParseFormatsBack(SelectLayout(v).value, v);
  }

  /** Every date a layout can express, written in that layout, is stored as is. */
  lemma UnmarshalFormatted(layout: Layout, d: Date)
    requires Fits(layout, d)
    ensures SelectLayout(Format(layout, d)) == Some(layout)
    ensures Unmarshal(Format(layout, d)) == Ok(d)
  {
    FormatHyphens(layout, d);
    LayoutHyphens(layout);
    FormatParses(layout, d);
  }

  /** With at most two hyphens, exactly the texts `DDDD`, `DDDD-DD` and
      `DDDD-DD-DD` of real calendar days are accepted; everything else is an error. */
  lemma UnmarshalAcceptsExactly(v: string)
    requires CountHyphens(v) <= 2
    ensures Unmarshal(v).Ok? <==>
      exists layout, d :: Fits(layout, d) && Format(layout, d) == v
  {
    if Unmarshal(v).Ok? {
      UnmarshalFormatsBack(v);
    }
    if layout, d :| Fits(layout, d) && Format(layout, d) == v {
      UnmarshalFormatted(layout, d);
    }
  }

  /** Precision is not kept: a year, that year's January and that year's
      January 1 are all stored as the same date. */
  lemma PrecisionLost(year: nat)
    requires year <= 9999
    ensures var d := Date(year, 1, 1);
      Unmarshal(Format(Year, d)) == Unmarshal(Format(YearMonth, d)) == Unmarshal(Format(YearMonthDay, d)) == Ok(d)
  {
    var d := Date(year, 1, 1);
    UnmarshalFormatted(Year, d);
    UnmarshalFormatted(YearMonth, d);
    UnmarshalFormatted(YearMonthDay, d);
  }

  /** Text with three or more hyphens matches no case: no error is returned and
      the zero time is stored. */
  lemma ManyHyphensStoreZeroTime(v: string)
    requires CountHyphens(v) >= 3
    ensures Unmarshal(v) == Ok(ZeroTime)
  {
  }

  /** A formatted date followed by text without hyphens selects the layout it
      was formatted with. */
  lemma SelectFormattedThen(layout: Layout, d: Date, tail: string)
    requires Printable(d) && CountHyphens(tail) == 0
    ensures SelectLayout(Format(layout, d) + tail) == Some(layout)
  {
    FormatHyphens(layout, d);
    LayoutHyphens(layout);
    CountHyphensAppend(Format(layout, d), tail);
  }

  /** Text left after a complete date, with no extra hyphen, is rejected as
      extra text. */
  lemma TrailingTextRejected(layout: Layout, d: Date, tail: string)
    requires Fits(layout, d)
    requires tail != [] && CountHyphens(tail) == 0
    ensures Unmarshal(Format(layout, d) + tail) == Err(ExtraText(tail))
  {
    SelectFormattedThen(layout, d, tail);
    ParseFormattedThen(layout, d, tail);
  }

  /** A two-digit month outside 1..12 is rejected, whatever follows it. */
  lemma MonthOutOfRangeRejected(layout: Layout, d: Date)
    requires layout != Year && Printable(d)
    requires d.month < 1 || 12 < d.month
    ensures Unmarshal(Format(layout, d)) == Err(MonthOutOfRange)
  {
    SelectFormattedThen(layout, d, []);
    ParseFormattedThen(layout, d, []);
    assert Format(layout, d) + [] == Format(layout, d);
  }

  /** A full date whose day does not exist in its month (day 0, April 31,
      February 29 outside leap years) is rejected. */
  lemma DayOutOfRangeRejected(d: Date)
    requires Printable(d) && 1 <= d.month <= 12
    requires d.day < 1 || DaysIn(d.month, d.year) < d.day
    ensures Unmarshal(Format(YearMonthDay, d)) == Err(DayOutOfRange)
  {
    SelectFormattedThen(YearMonthDay, d, []);
    ParseFormattedThen(YearMonthDay, d, []);
    assert Format(YearMonthDay, d) + [] == Format(YearMonthDay, d);
  }
}
