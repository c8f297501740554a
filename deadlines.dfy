/** Deadline strings: `ParseTime` (internal/service/task.go), which reads a
    deadline with the Go layout "2.1.2006 15:04", and the zero-padded
    rendering "02.01.2006 15:04" the bot uses to list deadlines.

    The layout is read the way Go's `time.Parse` reads it: the day, the
    month and the hour are one digit, or two when a second digit follows;
    the year is exactly four digits; the minute exactly two; the space of
    the layout matches a run of one or more spaces; nothing may follow the
    minute; and the month, day (against the length of the month), hour and
    minute must name an existing minute. The result is a UTC reading. */
module Deadlines {
  import opened Wrappers
  import opened Text
  import opened Calendar

  /** The text `ParseTime` puts in front of the parser's own explanation. */
  const ErrBadTime := "некорректно введенная строка времени, "

  /** Go's zero `time.Time`, returned beside a parse error. */
  const ZeroTime: Time := DateTime(1, 1, 1, 0, 0)

  /** A number read from the front of a string and what is left after it. */
  datatype Scan = Scan(value: nat, rest: string)

  /** Go's `getnum`: one digit, or two when a second digit follows; `fixed`
      demands two. */
  function GetNum(s: string, fixed: bool): Option<Scan> {
    if |s| == 0 || !IsDigit(s[0]) then None
    else if |s| < 2 || !IsDigit(s[1]) then
      (if fixed then None else Some(Scan(DigitValue(s[0]), s[1..])))
    else Some(Scan(DigitValue(s[0]) * 10 + DigitValue(s[1]), s[2..]))
  }

  /** The "2006" element: exactly four digits. */
  function GetYear(s: string): Option<Scan> {
    if |s| < 4 || !AllDigits(s[..4]) then None else Some(Scan(DigitsValue(s[..4]), s[4..]))
  }

  /** A literal character of the layout. */
  function Literal(s: string, c: char): (r: Option<string>)
    ensures r.Some? ==> s == [c] + r.value
  {
    if |s| > 0 && s[0] == c then Some(s[1..]) else None
  }

  function CutSpaces(s: string): (r: string)
    ensures r == [] || r[0] != ' '
    ensures |r| <= |s|
    ensures s == Repeat(' ', |s| - |r|) + r
  {
    if s != [] && s[0] == ' ' then
      var r := CutSpaces(s[1..]);
      assert Repeat(' ', |s| - |r|) == [' '] + Repeat(' ', |s| - 1 - |r|);
      r
    else s
  }

  /** The space of the layout: it fails only on a character other than a
      space, and then swallows every space. */
  function SkipSpaces(s: string): Option<string> {
    if |s| > 0 && s[0] != ' ' then None else Some(CutSpaces(s))
  }

  /** The date part of a reading and the text after it. */
  datatype DateScan = DateScan(day: nat, month: nat, year: nat, rest: string)

  /** The time of day of a reading. */
  datatype Clock = Clock(hour: nat, minute: nat)

  /** The elements "2.1.2006" of the layout, read from the front of `s`. */
  function ParseDate(s: string): (r: Option<DateScan>)
    ensures r.Some? ==> r.value.year <= 9999
  {
    var day :- GetNum(s, false);
    var r1 :- Literal(day.rest, '.');
    var month :- GetNum(r1, false);
    var r2 :- Literal(month.rest, '.');
    var year :- GetYear(r2);
    DigitsValueBound(r2[..4]);
    Some(DateScan(day.value, month.value, year.value, year.rest))
  }

  /** The elements " 15:04" of the layout, which must end the text. */
  function ParseClock(s: string): Option<Clock> {
    var r3 :- SkipSpaces(s);
    var hour :- GetNum(r3, false);
    var r4 :- Literal(hour.rest, ':');
    var minute :- GetNum(r4, true);
    if minute.rest == [] then Some(Clock(hour.value, minute.value)) else None
  }

  /** The layout "2.1.2006 15:04" read from `s`: the reading, or None where
      `time.Parse` reports an error (an element that does not match, text
      left over, or a field out of its range). */
  function ParseLayout(s: string): (r: Option<DateTime>)
    ensures r.Some? ==> Valid(r.value) && r.value.year <= 9999
  {
    var date :- ParseDate(s);
    var clock :- ParseClock(date.rest);
    if 1 <= date.month <= 12 && 1 <= date.day <= DaysIn(date.month, date.year)
       && clock.hour < 24 && clock.minute < 60
    then Some(DateTime(date.year, date.month, date.day, clock.hour, clock.minute))
    else None
  }

  /** `ParseTime`: the reading and no error, or Go's zero time and the
      error. */
  function ParseTime(s: string): (r: (Time, Option<string>))
    ensures r.1.None? <==> ParseLayout(s).Some?
    ensures r.1.None? ==> r.0 == ParseLayout(s).value
    ensures r.1.Some? ==> r.0 == ZeroTime && ErrBadTime <= r.1.value
  {
    match ParseLayout(s)
    case Some(t) => (t, None)
    case None => (ZeroTime, Some(ErrBadTime))
  }

  // ---------------------------------------------------------------------
  // Rendering a reading
  // ---------------------------------------------------------------------

  /** How a string that the layout accepts writes its reading: whether the
      day, the month and the hour carry a leading zero, and how many spaces
      stand between the date and the time. */
  datatype Style = Style(padDay: bool, padMonth: bool, padHour: bool, spaces: nat)

  function Field(n: nat, pad: bool): string {
    ZeroPad(n, if pad then 2 else 1)
  }

  /** The date of `dt` written in the given style. */
  function DatePart(dt: DateTime, st: Style): string {
    Field(dt.day, st.padDay) + ("." + (Field(dt.month, st.padMonth) + ("." + ZeroPad(dt.year, 4))))
  }

  /** The spaces and the time of day of `dt` written in the given style. */
  function ClockPart(dt: DateTime, st: Style): string {
    Repeat(' ', st.spaces) + (Field(dt.hour, st.padHour) + (":" + ZeroPad(dt.minute, 2)))
  }

  /** `dt` written in the given style. */
  function Render(dt: DateTime, st: Style): string {
    DatePart(dt, st) + ClockPart(dt, st)
  }

  /** Go's `Format` with the layout "02.01.2006 15:04". */
  function Format(dt: DateTime): string {
    Render(dt, Style(true, true, true, 1))
  }

  lemma DigitCharOfValue(c: char)
    requires IsDigit(c)
    ensures DigitChar(DigitValue(c)) == c
  {
  }

  lemma FieldShape(n: nat, pad: bool)
    requires n < 100
    ensures var f := Field(n, pad);
      if pad || n >= 10 then |f| == 2 && AllDigits(f) && DigitValue(f[0]) * 10 + DigitValue(f[1]) == n
      else f == [DigitChar(n)]
  {
    var f := Field(n, pad);
    if pad || n >= 10 {
      assert DigitCount(n) <= 2;
      assert f[..1][..0] == [] && f[..2][..1] == f[..1];
      assert DigitsValue(f) == DigitsValue(f[..1]) * 10 + DigitValue(f[1]);
    }
  }

  /** A field written with or without its leading zero is read back by
      `getnum` when a non-digit follows it. */
  lemma GetNumField(n: nat, pad: bool, fixed: bool, rest: string)
    requires n < 100 && (fixed ==> pad)
    requires rest == [] || !IsDigit(rest[0])
    ensures GetNum(Field(n, pad) + rest, fixed) == Some(Scan(n, rest))
  {
    FieldShape(n, pad);
    var s := Field(n, pad) + rest;
    if pad || n >= 10 {
      assert s[2..] == rest;
    } else {
      assert s[1..] == rest;
    }
  }

  lemma YearWidth(y: nat)
    requires y <= 9999
    ensures |ZeroPad(y, 4)| == 4
  {
    DigitCountAtMost(y, 4);
  }

  lemma GetYearField(y: nat, rest: string)
    requires y <= 9999
    ensures GetYear(ZeroPad(y, 4) + rest) == Some(Scan(y, rest))
  {
    YearWidth(y);
    var s := ZeroPad(y, 4) + rest;
    assert s[..4] == ZeroPad(y, 4) && s[4..] == rest;
  }

  lemma {:induction false} SkipSpacesRun(k: nat, rest: string)
    requires k >= 1 && (rest == [] || rest[0] != ' ')
    ensures SkipSpaces(Repeat(' ', k) + rest) == Some(rest)
  {
    CutSpacesRun(k, rest);
  }

  lemma {:induction false} CutSpacesRun(k: nat, rest: string)
    requires rest == [] || rest[0] != ' '
    ensures CutSpaces(Repeat(' ', k) + rest) == rest
  {
    if k > 0 {
      assert (Repeat(' ', k) + rest)[1..] == Repeat(' ', k - 1) + rest;
      CutSpacesRun(k - 1, rest);
    }
  }

  /** Text after the date part follows its year. */
  lemma DatePartThen(dt: DateTime, st: Style, rest: string)
    ensures DatePart(dt, st) + rest
      == Field(dt.day, st.padDay) + ("." + (Field(dt.month, st.padMonth) + ("." + (ZeroPad(dt.year, 4) + rest))))
  {
    var z := ZeroPad(dt.year, 4);
    var d := "." + z;
    var c := Field(dt.month, st.padMonth) + d;
    AppendAssoc(Field(dt.day, st.padDay), "." + c, rest);
    AppendAssoc(".", c, rest);
    AppendAssoc(Field(dt.month, st.padMonth), d, rest);
    AppendAssoc(".", z, rest);
  }

  /** The date part of a rendering is read back, up to the spaces that
      follow it. */
  lemma ParseDatePart(dt: DateTime, st: Style, rest: string)
    requires dt.day < 100 && dt.month < 100 && dt.year <= 9999
    requires rest == [] || !IsDigit(rest[0])
    ensures ParseDate(DatePart(dt, st) + rest) == Some(DateScan(dt.day, dt.month, dt.year, rest))
  {
    var tail1 := "." + (ZeroPad(dt.year, 4) + rest);
    var tail0 := "." + (Field(dt.month, st.padMonth) + tail1);
    DatePartThen(dt, st, rest);
    GetNumField(dt.day, st.padDay, false, tail0);
    GetNumField(dt.month, st.padMonth, false, tail1);
    GetYearField(dt.year, rest);
  }

  /** The clock part of a rendering is read back. */
  lemma ParseClockPart(dt: DateTime, st: Style)
    requires dt.hour < 100 && dt.minute < 100 && st.spaces >= 1
    ensures ParseClock(ClockPart(dt, st)) == Some(Clock(dt.hour, dt.minute))
  {
    var tail5 := ZeroPad(dt.minute, 2);
    var tail4 := ":" + tail5;
    var tail3 := Field(dt.hour, st.padHour) + tail4;
    FieldShape(dt.hour, st.padHour);
    SkipSpacesRun(st.spaces, tail3);
    GetNumField(dt.hour, st.padHour, false, tail4);
    GetNumField(dt.minute, true, true, []);
    assert tail5 + [] == tail5;
  }

  /** Every valid reading, in every style with at least one space, is
      accepted by the layout and read back unchanged; in particular the
      zero-padded "02.01.2006 15:04" form and the unpadded "2.1.2006 15:04"
      form of the same reading both parse to it. */
  lemma ParseRender(dt: DateTime, st: Style)
    requires Valid(dt) && dt.year <= 9999 && st.spaces >= 1
    ensures ParseLayout(Render(dt, st)) == Some(dt)
  {
    ParseDatePart(dt, st, ClockPart(dt, st));
    ParseClockPart(dt, st);
  }

  /** Two digits are the padded field of the value they spell. */
  lemma TwoDigitField(two: string)
    requires |two| == 2 && AllDigits(two)
    ensures DigitsValue(two) == DigitValue(two[0]) * 10 + DigitValue(two[1])
    ensures DigitsValue(two) < 100 && Field(DigitsValue(two), true) == two
  {
    var n := DigitsValue(two);
    assert two[..1][..0] == [] && two[..1] == [two[0]];
    assert DigitsValue(two[..1]) == DigitValue(two[0]);
    FixedOfValue(two);
    DigitsValueBound(two);
  }

  /** `getnum` consumed exactly a field written with or without a leading
      zero. */
  lemma GetNumInverse(s: string, fixed: bool) returns (pad: bool)
    requires GetNum(s, fixed).Some?
    ensures var sc := GetNum(s, fixed).value;
      sc.value < 100 && s == Field(sc.value, pad) + sc.rest
  {
    var sc := GetNum(s, fixed).value;
    if |s| < 2 || !IsDigit(s[1]) {
      pad := false;
      DigitCharOfValue(s[0]);
      FieldShape(sc.value, pad);
      assert s == [s[0]] + s[1..];
    } else {
      pad := true;
      var two := s[..2];
      TwoDigitField(two);
      assert s == two + s[2..];
    }
  }

  lemma GetYearInverse(s: string)
    requires GetYear(s).Some?
    ensures var sc := GetYear(s).value;
      sc.value <= 9999 && s == ZeroPad(sc.value, 4) + sc.rest
  {
    var four := s[..4];
    FixedOfValue(four);
    DigitsValueBound(four);
    var y := DigitsValue(four);
    DigitCountAtMost(y, 4);
    assert ZeroPad(y, 4) == Fixed(y, 4) == four;
    assert s == four + s[4..];
  }

  /** What the elements "1.2006" read is a month, a '.' and a year. */
  lemma ParsedMonthYear(r1: string) returns (pad: bool)
    requires GetNum(r1, false).Some? && Literal(GetNum(r1, false).value.rest, '.').Some?
    requires GetYear(Literal(GetNum(r1, false).value.rest, '.').value).Some?
    ensures var month := GetNum(r1, false).value;
      var year := GetYear(Literal(month.rest, '.').value).value;
      r1 == Field(month.value, pad) + ("." + (ZeroPad(year.value, 4) + year.rest))
  {
    var month := GetNum(r1, false).value;
    pad := GetNumInverse(r1, false);
    GetYearInverse(Literal(month.rest, '.').value);
  }

  /** What the date elements read is a date part followed by the rest. */
  lemma ParsedDateIsRendered(s: string, dt: DateTime) returns (st: Style)
    requires ParseDate(s).Some?
    requires var d := ParseDate(s).value; dt.day == d.day && dt.month == d.month && dt.year == d.year
    ensures s == DatePart(dt, st) + ParseDate(s).value.rest
  {
    var day := GetNum(s, false).value;
    var padDay := GetNumInverse(s, false);
    var r1 := Literal(day.rest, '.').value;
    var padMonth := ParsedMonthYear(r1);
    var month := GetNum(r1, false).value;
    var year := GetYear(Literal(month.rest, '.').value).value;
    assert ParseDate(s).value == DateScan(day.value, month.value, year.value, year.rest);
    st := Style(padDay, padMonth, false, 1);
    assert s == Field(day.value, padDay) + ("." + r1);
    DatePartThen(dt, st, year.rest);
  }

  /** What the clock elements read is a clock part with at least one space. */
  lemma ParsedClockIsRendered(s: string, dt: DateTime) returns (st: Style)
    requires ParseClock(s).Some?
    requires dt.hour == ParseClock(s).value.hour && dt.minute == ParseClock(s).value.minute
    ensures st.spaces >= 1 && s == ClockPart(dt, st)
  {
    var r3 := SkipSpaces(s).value;
    var hour := GetNum(r3, false).value;
    var padHour := GetNumInverse(r3, false);
    var r4 := Literal(hour.rest, ':').value;
    var minute := GetNum(r4, true).value;
    var padMinute := GetNumInverse(r4, true);
    var k := |s| - |r3|;
    assert s != [];
    assert Field(minute.value, padMinute) == ZeroPad(minute.value, 2) by {
      FieldShape(minute.value, padMinute);
      FieldShape(minute.value, true);
    }
    st := Style(false, false, padHour, k);
    assert r4 == ZeroPad(minute.value, 2);
  }

  /** Every string the layout accepts is a rendering of what it is read as:
      together with ParseRender, the accepted strings are exactly the
      renderings of valid readings with years of four digits. */
  lemma ParsedIsRendered(s: string) returns (st: Style)
    requires ParseLayout(s).Some?
    ensures st.spaces >= 1 && s == Render(ParseLayout(s).value, st)
  {
    var dt := ParseLayout(s).value;
    var d := ParseDate(s).value;
    var dateStyle := ParsedDateIsRendered(s, dt);
    var clockStyle := ParsedClockIsRendered(d.rest, dt);
    st := Style(dateStyle.padDay, dateStyle.padMonth, clockStyle.padHour, clockStyle.spaces);
    assert DatePart(dt, st) == DatePart(dt, dateStyle);
    assert ClockPart(dt, st) == ClockPart(dt, clockStyle);
  }

  /** A formatted reading parses back to itself without error. */
  lemma FormatRoundTrip(dt: DateTime)
    requires Valid(dt) && dt.year <= 9999
    ensures ParseTime(Format(dt)) == (dt, None)
  {
    ParseRender(dt, Style(true, true, true, 1));
  }

  /** Within years 0..9999 the zero-padded layout is always sixteen
      characters long. */
  lemma FormatLength(dt: DateTime)
    requires Valid(dt) && dt.year <= 9999
    ensures |Format(dt)| == 16
  {
    DigitCountAtMost(dt.day, 2);
    DigitCountAtMost(dt.month, 2);
    DigitCountAtMost(dt.hour, 2);
    DigitCountAtMost(dt.minute, 2);
    YearWidth(dt.year);
  }

  lemma TwoDigits(n: nat)
    requires n < 100
    ensures ZeroPad(n, 2) == [DigitChar(n / 10), DigitChar(n % 10)]
  {
    assert DigitCount(n) <= 2;
    assert Fixed(n / 10, 1) == [DigitChar(n / 10)];
  }

  lemma FourDigits(n: nat)
    requires n < 10000
    ensures ZeroPad(n, 4) == [DigitChar(n / 1000), DigitChar(n / 100 % 10), DigitChar(n / 10 % 10), DigitChar(n % 10)]
  {
    DigitCountAtMost(n, 4);
    assert n / 1000 == n / 10 / 10 / 10 && n / 100 == n / 10 / 10;
    assert Fixed(n / 1000, 1) == [DigitChar(n / 1000)];
    assert Fixed(n / 100, 2) == [DigitChar(n / 1000), DigitChar(n / 100 % 10)];
    assert Fixed(n / 10, 3) == [DigitChar(n / 1000), DigitChar(n / 100 % 10), DigitChar(n / 10 % 10)];
  }

  lemma DatePartExample(dt: DateTime, st: Style)
    requires dt == DateTime(2026, 2, 15, 11, 20) && st == Style(true, true, true, 1)
    ensures DatePart(dt, st) == "15.02.2026"
  {
    TwoDigits(15);
    TwoDigits(2);
    FourDigits(2026);
  }

  lemma ClockPartExample(dt: DateTime, st: Style)
    requires dt == DateTime(2026, 2, 15, 11, 20) && st == Style(true, true, true, 1)
    ensures ClockPart(dt, st) == " 11:20"
  {
    TwoDigits(11);
    TwoDigits(20);
  }

  /** The listing's rendering of the deadline of the repository's own
      example. */
  lemma FormatExample(dt: DateTime)
    requires dt == DateTime(2026, 2, 15, 11, 20)
    ensures Format(dt) == "15.02.2026 11:20"
  {
    DatePartExample(dt, Style(true, true, true, 1));
    ClockPartExample(dt, Style(true, true, true, 1));
  }

  lemma ParseLayoutExample(dt: DateTime, s: string)
    requires dt == DateTime(2026, 2, 15, 11, 20)
    requires s == "15.02.2026 11:20"
    ensures ParseLayout(s) == Some(dt)
  {
    FormatExample(dt);
    ParseRender(dt, Style(true, true, true, 1));
  }

  /** The accepted input of the repository's own table of cases. */
  lemma ParseTimeAccepts(s: string)
    requires s == "15.02.2026 11:20"
    ensures ParseTime(s) == (DateTime(2026, 2, 15, 11, 20), None)
  {
    ParseLayoutExample(DateTime(2026, 2, 15, 11, 20), s);
  }

  /** The rejected inputs of the repository's own table of cases: another
      date order, */
  lemma ParseTimeRejectsIso(s: string)
    requires s == "2026-02-15 11:20"
    ensures ParseTime(s).1.Some?
  {
    assert GetNum(s, false) == Some(Scan(20, s[2..])) && s[2] == '2';
  }

  /** a date without a time, */
  lemma ParseTimeRejectsDateOnly(s: string)
    requires s == "15.02.2026"
    ensures ParseTime(s).1.Some?
  {
    assert ParseDate(s).Some? ==> ParseDate(s).value.rest == [];
    assert SkipSpaces([]) == Some([]) && GetNum([], false).None?;
  }

  /** the empty string */
  lemma ParseTimeRejectsEmpty(s: string)
    requires s == ""
    ensures ParseTime(s).1.Some?
  {
  }

  /** and gibberish. */
  lemma ParseTimeRejectsWord(s: string)
    requires s == "apple-pie"
    ensures ParseTime(s).1.Some?
  {
    assert !IsDigit(s[0]);
  }
}
