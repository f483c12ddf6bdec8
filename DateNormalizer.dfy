/** Turning the captured timestamps into dates (preprocessor.py, lines 5-13 and 38-74):
    separator removal, the year-format and clock-format decisions taken once for the
    whole table, and the parse under the resulting format. */
module DateNormalizer {
  import opened Text
  import opened Results
  import opened Tokenizer

  // ---------------------------------------------------------------------------
  // Line 39: .str.strip().str.replace(r"\s-\s*$", "", regex=True)

  /** `\s-\s*$` matches at `p`. */
  predicate SeparatorAt(t: string, p: nat) {
    p + 1 < |t| && IsSpace(t[p]) && t[p + 1] == '-' && AllSpace(t[p + 2..])
  }

  /** Cuts `t` at the first position from `from` on where the separator matches. */
  function TrimSeparatorFrom(t: string, from: nat): (r: string)
    ensures |r| <= |t| && r == t[..|r|]
    decreases |t| - from
  {
    if from + 1 >= |t| then t
    else if SeparatorAt(t, from) then t[..from]
    else TrimSeparatorFrom(t, from + 1)
  }

  /** A separator at `p` is cut off, and only it. */
  lemma {:induction false} TrimSeparatorCuts(t: string, from: nat, p: nat)
    requires from <= p && SeparatorAt(t, p)
    ensures TrimSeparatorFrom(t, from) == t[..p]
    decreases |t| - from
  {
    if !SeparatorAt(t, from) {
      TrimSeparatorCuts(t, from + 1, p);
    }
  }

  /** Without a separator the text is left as it is. */
  lemma {:induction false} TrimSeparatorKeeps(t: string, from: nat)
    requires forall p :: from <= p ==> !SeparatorAt(t, p)
    ensures TrimSeparatorFrom(t, from) == t
    decreases |t| - from
  {
    if from + 1 < |t| {
      TrimSeparatorKeeps(t, from + 1);
    }
  }

  /** The timestamp with a trailing separator (whitespace, `-`, whitespace) cut off. */
  function CleanStamp(t: string): (r: string)
  {
    TrimSeparatorFrom(Strip(t), 0)
  }

  // ---------------------------------------------------------------------------
  // get_year_format (lines 5-13)

  datatype YearFormat = YY | YYYY

  /** `date_str.split(',')[0].strip().split('/')[-1]`. */
  function YearField(dateStr: string): string {
    AfterLast(Strip(BeforeFirst(dateStr, ',')), '/')
  }

  function GetYearFormat(dateStr: string): (r: Result<YearFormat>)
    ensures r == Ok(YY) <==> |YearField(dateStr)| == 2
    ensures r == Ok(YYYY) <==> |YearField(dateStr)| == 4
    ensures r.Err? ==> r.error == "Invalid year format in date: " + dateStr
  {
    var year := YearField(dateStr);
    if |year| == 2 then Ok(YY)
    else if |year| == 4 then Ok(YYYY)
    else Err("Invalid year format in date: " + dateStr)
  }

  /** The layout of a captured timestamp: `DD/MM/` then `y` year digits and a comma,
      ending in whitespace and `-`. */
  predicate StampShape(t: string, y: nat) {
    DigitsAt(t, 0, 2) && CharAt(t, 2, '/') && DigitsAt(t, 3, 2) && CharAt(t, 5, '/')
    && DigitsAt(t, 6, y) && CharAt(t, 6 + y, ',')
    && 9 + y <= |t| && IsSpace(t[|t| - 2]) && t[|t| - 1] == '-'
  }

  lemma {:induction false} MatchShape(s: string, i: nat)
    requires MatchAt(s, i).Some?
    ensures StampShape(s[i..i + MatchAt(s, i).value], YearDigits(s, i + 6))
  {
    MatchFields(s, i);
    SliceShape(s, i, MatchAt(s, i).value, YearDigits(s, i + 6));
  }

  /** What a match at `i` has seen in the text, field by field. */
  lemma {:induction false} MatchFields(s: string, i: nat)
    requires MatchAt(s, i).Some?
    ensures var n, y := MatchAt(s, i).value, YearDigits(s, i + 6);
      && DigitsAt(s, i, 2) && CharAt(s, i + 2, '/') && DigitsAt(s, i + 3, 2) && CharAt(s, i + 5, '/')
      && DigitsAt(s, i + 6, y) && CharAt(s, i + 6 + y, ',')
      && 9 + y <= n && i + n <= |s| && IsSpace(s[i + n - 2]) && s[i + n - 1] == '-'
  {
  }

  /** Those fields, read in the matched slice. */
  lemma {:induction false} SliceShape(s: string, i: nat, n: nat, y: nat)
    requires DigitsAt(s, i, 2) && CharAt(s, i + 2, '/') && DigitsAt(s, i + 3, 2) && CharAt(s, i + 5, '/')
    requires DigitsAt(s, i + 6, y) && CharAt(s, i + 6 + y, ',')
    requires 9 + y <= n && i + n <= |s| && IsSpace(s[i + n - 2]) && s[i + n - 1] == '-'
    ensures StampShape(s[i..i + n], y)
  {
    var t := s[i..i + n];
    DigitsInSlice(s, i, i + n, 0, 2);
    DigitsInSlice(s, i, i + n, 3, 2);
    DigitsInSlice(s, i, i + n, 6, y);
    assert t[2] == s[i + 2] && t[5] == s[i + 5] && t[6 + y] == s[i + 6 + y];
    assert t[n - 2] == s[i + n - 2] && t[n - 1] == s[i + n - 1];
  }

  /** The separator at the end of a captured timestamp is all that cleaning removes. */
  lemma {:induction false} CleanShape(t: string)
    requires 3 <= |t| && IsDigit(t[0]) && IsSpace(t[|t| - 2]) && t[|t| - 1] == '-'
    ensures CleanStamp(t) == t[..|t| - 2]
  {
    assert SeparatorAt(t, |t| - 2);
    TrimSeparatorCuts(t, 0, |t| - 2);
    StripUnchanged(t);
  }

  /** The date part before the first comma is `DD/MM/` and the year digits. */
  lemma {:induction false} DateOfShape(u: string, y: nat)
    requires 6 + y < |u| && u[2] == '/' && u[5] == '/' && u[6 + y] == ','
    requires DigitsAt(u, 0, 2) && DigitsAt(u, 3, 2) && DigitsAt(u, 6, y)
    ensures BeforeFirst(u, ',') == u[..6 + y]
  {
    var d := u[..6 + y];
    forall k | 0 <= k < 6 + y ensures d[k] != ',' {
      assert d[k] == u[k];
      if k != 2 && k != 5 {
        assert IsDigit(u[k]);
      }
    }
    BeforeFirstAt(u, ',', 6 + y);
  }

  /** After the last `/` of `DD/MM/` and `y` digits come the `y` digits. */
  lemma {:induction false} YearAfterSlash(d: string, y: nat)
    requires |d| == 6 + y && d[5] == '/' && AllDigits(d[6..])
    ensures AfterLast(d, '/') == d[6..]
  {
    AfterLastAt(d, '/', 5);
  }

  /** The date part has no surrounding whitespace. */
  lemma {:induction false} DateStripped(d: string, y: nat)
    requires |d| == 6 + y && IsDigit(d[0]) && IsDigit(d[5 + y])
    ensures Strip(d) == d
  {
    StripUnchanged(d);
  }

  lemma {:induction false} YearSlice(d: string, y: nat)
    requires |d| == 6 + y && d[5] == '/' && DigitsAt(d, 6, y)
    ensures AfterLast(d, '/') == d[6..]
  {
    assert AllDigits(d[6..]) by {
      forall k | 0 <= k < y ensures IsDigit(d[6..][k]) {
        assert d[6..][k] == d[6 + k];
      }
    }
    YearAfterSlash(d, y);
  }

  lemma {:induction false} DateOfStamp(t: string, y: nat)
    requires StampShape(t, y)
    ensures BeforeFirst(t[..|t| - 2], ',') == t[..6 + y]
  {
    var u := t[..|t| - 2];
    DigitsInPrefix(t, |t| - 2, 0, 2);
    DigitsInPrefix(t, |t| - 2, 3, 2);
    DigitsInPrefix(t, |t| - 2, 6, y);
    assert u[2] == t[2] && u[5] == t[5] && u[6 + y] == t[6 + y];
    DateOfShape(u, y);
    assert u[..6 + y] == t[..6 + y];
  }

  lemma {:induction false} YearOfStamp(t: string, y: nat)
    requires StampShape(t, y) && 0 < y
    ensures Strip(t[..6 + y]) == t[..6 + y]
    ensures AfterLast(t[..6 + y], '/') == t[6..6 + y]
  {
    var d := t[..6 + y];
    assert IsDigit(t[5 + y]);
    DateStripped(d, y);
    DigitsInPrefix(t, 6 + y, 6, y);
    assert d[5] == t[5];
    YearSlice(d, y);
    assert d[6..] == t[6..6 + y];
  }

  lemma {:induction false} YearFieldOfDate(t: string, y: nat)
    requires StampShape(t, y) && 0 < y
    ensures YearField(t[..|t| - 2]) == t[6..6 + y]
  {
    DateOfStamp(t, y);
    YearOfStamp(t, y);
  }

  lemma {:induction false} ShapeYearFormat(t: string, y: nat)
    requires StampShape(t, y) && (y == 2 || y == 4)
    ensures GetYearFormat(CleanStamp(t)) == Ok(if y == 2 then YY else YYYY)
  {
    CleanYearField(t, y);
    YearFormatOfLength(CleanStamp(t), y);
  }

  /** The year field of a cleaned timestamp is the year digits the pattern matched. */
  lemma {:induction false} CleanYearField(t: string, y: nat)
    requires StampShape(t, y) && 0 < y
    ensures |YearField(CleanStamp(t))| == y
  {
    assert IsDigit(t[0]);
    CleanShape(t);
    YearFieldOfDate(t, y);
  }

  lemma {:induction false} YearFormatOfLength(stamp: string, y: nat)
    requires |YearField(stamp)| == y && (y == 2 || y == 4)
    ensures GetYearFormat(stamp) == Ok(if y == 2 then YY else YYYY)
  {
  }

  /** Every timestamp the boundary pattern captures, once cleaned, has a two- or
      four-digit year field, so `get_year_format` never raises inside `preprocess`;
      the format it reports is the number of year digits the pattern matched. */
  lemma {:induction false} BoundaryYearFormat(s: string, i: nat)
    requires MatchAt(s, i).Some?
    ensures GetYearFormat(CleanStamp(s[i..i + MatchAt(s, i).value]))
            == Ok(if YearDigits(s, i + 6) == 2 then YY else YYYY)
  {
    MatchShape(s, i);
    ShapeYearFormat(s[i..i + MatchAt(s, i).value], YearDigits(s, i + 6));
  }

  predicate HasYearFormat(stamp: string) { GetYearFormat(CleanStamp(stamp)).Ok? }

  /** A captured timestamp with a two- or four-digit year. */
  predicate Captured(t: string) { StampShape(t, 2) || StampShape(t, 4) }

  lemma {:induction false} MatchCaptured(s: string, i: nat)
    requires MatchAt(s, i).Some?
    ensures Captured(s[i..i + MatchAt(s, i).value])
  {
    MatchShape(s, i);
  }

  predicate AllCaptured(ts: seq<string>) {
    forall k :: 0 <= k < |ts| ==> Captured(ts[k])
  }

  lemma {:induction false} FindAllCaptured(s: string, i: nat)
    ensures AllCaptured(FindAllFrom(s, i))
    decreases |s| - i
  {
    if i < |s| {
      match MatchAt(s, i)
      case Some(n) =>
        FindAllCaptured(s, i + n);
        MatchCaptured(s, i);
        assert FindAllFrom(s, i) == [s[i..i + n]] + FindAllFrom(s, i + n);
        AllCapturedCons(s[i..i + n], FindAllFrom(s, i + n));
      case None =>
        FindAllCaptured(s, i + 1);
        assert FindAllFrom(s, i) == FindAllFrom(s, i + 1);
    }
  }

  lemma {:induction false} AllCapturedCons(t: string, rest: seq<string>)
    requires Captured(t) && AllCaptured(rest)
    ensures AllCaptured([t] + rest)
  {
    forall k | 0 <= k < |[t] + rest| ensures Captured(([t] + rest)[k]) {
      if k > 0 { assert ([t] + rest)[k] == rest[k - 1]; }
    }
  }

  /** `get_year_format` applied to every captured timestamp succeeds. */
  lemma {:induction false} FindAllYearFormats(s: string)
    ensures forall k :: 0 <= k < |FindAll(s)| ==> HasYearFormat(FindAll(s)[k])
  {
    FindAllCaptured(s, 0);
    forall k | 0 <= k < |FindAll(s)| ensures HasYearFormat(FindAll(s)[k]) {
      var t := FindAll(s)[k];
      if StampShape(t, 2) {
        ShapeYearFormat(t, 2);
      } else {
        ShapeYearFormat(t, 4);
      }
    }
  }

  // ---------------------------------------------------------------------------
  // The clock format (lines 48-58)

  datatype TimeFormat = Clock24 | Clock12

  /** The whole table is read in one format (lines 55-58). */
  datatype Format = Format(year: YearFormat, time: TimeFormat)

  predicate HasMeridiem(t: string) { Contains(t, "am") || Contains(t, "pm") }

  /** `'%I:%M %p'` as soon as one timestamp mentions `am` or `pm`, else `'%H:%M'`. */
  function ChooseTimeFormat(stamps: seq<string>): (f: TimeFormat)
    ensures f == Clock12 <==> exists k :: 0 <= k < |stamps| && HasMeridiem(stamps[k])
  {
    if stamps == [] then Clock24
    else if HasMeridiem(stamps[0]) then Clock12
    else
      var f := ChooseTimeFormat(stamps[1..]);
      assert forall k :: 1 <= k < |stamps| ==> stamps[k] == stamps[1..][k - 1];
      f
  }

  // ---------------------------------------------------------------------------
  // Dates and the parse (lines 60-74)

  type Year = y: int | 1 <= y <= 9999 witness 1
  type Month = m: int | 1 <= m <= 12 witness 1
  type Day = d: int | 1 <= d <= 31 witness 1
  type Hour = h: int | 0 <= h < 24
  type Minute = m: int | 0 <= m < 60

  datatype DateTime = DateTime(year: Year, month: Month, day: Day, hour: Hour, minute: Minute)

  /** `datetime.date`: the calendar day of a timestamp. */
  datatype Date = Date(year: Year, month: Month, day: Day)

  predicate IsLeapYear(y: int) { y % 4 == 0 && (y % 100 != 0 || y % 400 == 0) }

  function DaysInMonth(y: int, m: Month): (n: int)
    ensures 28 <= n <= 31
    ensures n == 29 <==> m == 2 && IsLeapYear(y)
    ensures n < 30 <==> m == 2
  {
    if m == 2 then (if IsLeapYear(y) then 29 else 28)
    else if m == 4 || m == 6 || m == 9 || m == 11 then 30
    else 31
  }

  /** A day that exists in the Gregorian calendar. */
  predicate ValidDateTime(dt: DateTime) { dt.day <= DaysInMonth(dt.year, dt.month) }

  function Pow10(n: nat): (p: nat)
    ensures p >= 1
  {
    if n == 0 then 1 else 10 * Pow10(n - 1)
  }

  lemma {:induction false} DigitsValueBound(s: string)
    requires AllDigits(s)
    ensures DigitsValue(s) < Pow10(|s|)
  {
    if s != [] {
      DigitsValueBound(s[..|s| - 1]);
    }
  }

  // The parse consumes the text from the front; each step returns what is left.

  /** Exactly `n` digits (`%d`, `%m`, `%y`, `%Y`, `%M` are fixed-width here). */
  function TakeDigits(t: string, n: nat): (r: Option<(nat, string)>)
    ensures r.Some? ==> n <= |t| && r.value.1 == t[n..] && r.value.0 < Pow10(n)
  {
    if n <= |t| && AllDigits(t[..n]) then
      DigitsValueBound(t[..n]);
      Some((DigitsValue(t[..n]), t[n..]))
    else None
  }

  function TakeChar(t: string, c: char): (r: Option<string>)
    ensures r.Some? ==> t == [c] + r.value
  {
    if t != [] && t[0] == c then Some(t[1..]) else None
  }

  /** A blank in the format: one or more whitespace characters. */
  function TakeSpaces(t: string): (r: Option<string>)
    ensures r.Some? ==> |r.value| < |t| && r.value == TrimStart(t)
  {
    if t != [] && IsSpace(t[0]) then Some(TrimStart(t)) else None
  }

  /** `%H` or `%I`: one or two digits, before the colon. */
  function TakeHour(t: string): (r: Option<(nat, string)>)
    ensures r.Some? ==> r.value.0 < 100 && |r.value.1| < |t| && CharAt(r.value.1, 0, ':')
  {
    var h := HourDigits(t, 0);
    if h == 0 then None
    else
      DigitsValueBound(t[..h]);
      Some((DigitsValue(t[..h]), t[h..]))
  }

  /** `%y`: 69-99 are 1969-1999, 00-68 are 2000-2068. */
  function CenturyOf(yy: nat): (y: nat)
    requires yy < 100
    ensures 1969 <= y <= 2068 && y % 100 == yy
  {
    if yy <= 68 then 2000 + yy else 1900 + yy
  }

  /** The hour of day from a 12-hour clock value and `am`/`pm`. */
  function From12Hour(h: nat, pm: bool): (r: Hour)
    requires 1 <= h <= 12
    ensures r % 12 == h % 12 && (r >= 12 <==> pm)
  {
    if h == 12 then (if pm then 12 else 0) else (if pm then h + 12 else h)
  }

  /** What follows the minutes: nothing for `%H:%M` (hour 0-23); a blank then `am`
      or `pm`, in either case, for `%I:%M %p` (hour 1-12). */
  function ParseClock(rest: string, hv: nat, time: TimeFormat): (r: Option<Hour>)
  {
    match time
    case Clock24 => if rest == [] && hv <= 23 then Some(hv) else None
    case Clock12 =>
      var mer :- TakeSpaces(rest);
      if 1 <= hv <= 12 && LowerString(mer) == "am" then Some(From12Hour(hv, false))
      else if 1 <= hv <= 12 && LowerString(mer) == "pm" then Some(From12Hour(hv, true))
      else None
  }

  function YearLength(f: YearFormat): nat { if f == YY then 2 else 4 }

  /** `%d/%m/%y,` or `%d/%m/%Y,`: day, month, the year digits' value, and the rest. */
  function ParseDate(t: string, year: YearFormat): (r: Option<(nat, nat, nat, string)>)
    ensures r.Some? ==> r.value.0 < 100 && r.value.1 < 100 && (year == YY ==> r.value.2 < 100)
  {
    var d :- TakeDigits(t, 2);
    var t1 :- TakeChar(d.1, '/');
    var m :- TakeDigits(t1, 2);
    var t2 :- TakeChar(m.1, '/');
    var y :- TakeDigits(t2, YearLength(year));
    var rest :- TakeChar(y.1, ',');
    Some((d.0, m.0, y.0, rest))
  }

  /** ` %H:%M` or ` %I:%M %p` up to the end of the text: hour of day and minute. */
  function ParseTime(t: string, time: TimeFormat): (r: Option<(Hour, nat)>)
    ensures r.Some? ==> r.value.1 < 100
  {
    var t1 :- TakeSpaces(t);
    var h :- TakeHour(t1);
    var t2 :- TakeChar(h.1, ':');
    var mi :- TakeDigits(t2, 2);
    var hour :- ParseClock(mi.1, h.0, time);
    Some((hour, mi.0))
  }

  /** `pd.to_datetime(stamp, format=..., errors='coerce')` on a cleaned timestamp:
      `Some` exactly when the whole text reads `DD/MM/YY` (or `YYYY`), a comma, a
      blank, `H:MM` or `HH:MM` and, for the 12-hour clock, a blank and `am`/`pm`, and
      names a real day of the Gregorian calendar; `None` (NaT) otherwise. */
  function ParseStamp(t: string, fmt: Format): (r: Option<DateTime>)
    ensures r.Some? ==> ValidDateTime(r.value)
    ensures r.Some? && fmt.year == YY ==> 1969 <= r.value.year <= 2068
  {
    var date :- ParseDate(t, fmt.year);
    var time :- ParseTime(date.3, fmt.time);
    var (day, month, hour, minute) := (date.0, date.1, time.0, time.1);
    var year := if fmt.year == YY then CenturyOf(date.2) else date.2;
    if 1 <= day <= 31 && 1 <= month <= 12 && 1 <= year <= 9999 && minute <= 59
       && day <= DaysInMonth(year, month)
    then Some(DateTime(year, month, day, hour, minute))
    else None
  }

  // ---------------------------------------------------------------------------
  // The inverse: writing a date the way the export does

  /** Two digits, zero-padded. */
  function Pad2(n: nat): (r: string)
    requires n < 100
    ensures |r| == 2 && AllDigits(r)
  {
    [DigitChar(n / 10), DigitChar(n % 10)]
  }

  function Pad4(n: nat): (r: string)
    requires n < 10000
    ensures |r| == 4 && AllDigits(r)
  {
    Pad2(n / 100) + Pad2(n % 100)
  }

  /** The hour as the 12-hour clock shows it. */
  function Hour12(h: Hour): (r: nat)
    ensures 1 <= r <= 12
  {
    if h % 12 == 0 then 12 else h % 12
  }

  /** The year as written: two digits or four. */
  function YearText(y: Year, f: YearFormat): (r: string)
    requires f == YY ==> 1969 <= y <= 2068
    ensures |r| == YearLength(f)
  {
    if f == YY then Pad2(y % 100) else Pad4(y)
  }

  /** The time as written after the comma: a blank, the hour (two digits on the
      24-hour clock, one or two on the 12-hour clock), the minute, and for the
      12-hour clock a narrow no-break space and `am` or `pm`. */
  function TimeText(h: Hour, minute: Minute, time: TimeFormat): string {
    var hourText := if time == Clock24 then Pad2(h) else NatToString(Hour12(h));
    " " + (hourText + (":" + (Pad2(minute) + MeridiemText(h, time))))
  }

  function MeridiemText(h: Hour, time: TimeFormat): string {
    if time == Clock24 then "" else "\U{202F}" + (if h >= 12 then "pm" else "am")
  }

  /** A timestamp as the export writes it, e.g. `25/12/23, 21:05` or
      `25/12/2023, 9:05\u202fpm`. */
  function FormatStamp(dt: DateTime, fmt: Format): (r: string)
    requires fmt.year == YY ==> 1969 <= dt.year <= 2068
  {
    Pad2(dt.day) + ("/" + (Pad2(dt.month) + ("/" + (YearText(dt.year, fmt.year)
      + ("," + TimeText(dt.hour, dt.minute, fmt.time))))))
  }

  lemma {:induction false} DigitsValueOne(c: char)
    requires IsDigit(c)
    ensures DigitsValue([c]) == c as int - '0' as int
  {
    assert [c][..0] == [];
  }

  lemma {:induction false} DigitsValuePad2(n: nat)
    requires n < 100
    ensures DigitsValue(Pad2(n)) == n
  {
    var p := Pad2(n);
    assert p[..1] == [DigitChar(n / 10)];
    DigitsValueOne(DigitChar(n / 10));
  }

  lemma {:induction false} ShiftDigit(x: int, p: int, v: int, l: int)
    ensures (x * p + v) * 10 + l == x * (10 * p) + (v * 10 + l)
  {
  }

  lemma {:induction false} AllDigitsAppend(a: string, b: string)
    requires AllDigits(a) && AllDigits(b)
    ensures AllDigits(a + b)
  {
    forall k | 0 <= k < |a + b| ensures IsDigit((a + b)[k]) {
      if k >= |a| {
        assert (a + b)[k] == b[k - |a|];
      }
    }
  }

  lemma {:induction false} DigitsValueConcat(a: string, b: string)
    requires AllDigits(a) && AllDigits(b)
    ensures AllDigits(a + b) && DigitsValue(a + b) == DigitsValue(a) * Pow10(|b|) + DigitsValue(b)
  {
    AllDigitsAppend(a, b);
    if b == [] {
      assert a + b == a;
    } else {
      var c := b[..|b| - 1];
      assert AllDigits(c);
      assert (a + b)[..|a + b| - 1] == a + c;
      DigitsValueConcat(a, c);
      var l := b[|b| - 1] as int - '0' as int;
      assert DigitsValue(a + b) == DigitsValue(a + c) * 10 + l;
      assert DigitsValue(b) == DigitsValue(c) * 10 + l;
      assert Pow10(|b|) == 10 * Pow10(|c|);
      ShiftDigit(DigitsValue(a), Pow10(|c|), DigitsValue(c), l);
    }
  }

  lemma {:induction false} DigitsValuePad4(n: nat)
    requires n < 10000
    ensures DigitsValue(Pad4(n)) == n
  {
    DigitsValuePad2(n / 100);
    DigitsValuePad2(n % 100);
    DigitsValueConcat(Pad2(n / 100), Pad2(n % 100));
    assert Pow10(2) == 100;
  }

  lemma {:induction false} TakePad2(n: nat, rest: string)
    requires n < 100
    ensures TakeDigits(Pad2(n) + rest, 2) == Some((n, rest))
  {
    var t := Pad2(n) + rest;
    assert t[..2] == Pad2(n) && t[2..] == rest;
    DigitsValuePad2(n);
  }

  lemma {:induction false} TakePad4(n: nat, rest: string)
    requires n < 10000
    ensures TakeDigits(Pad4(n) + rest, 4) == Some((n, rest))
  {
    var t := Pad4(n) + rest;
    assert t[..4] == Pad4(n) && t[4..] == rest;
    DigitsValuePad4(n);
  }

  lemma {:induction false} TakeHourText(h: nat, rest: string)
    requires h < 100
    ensures TakeHour(NatToString(h) + (":" + rest)) == Some((h, ":" + rest))
  {
    var t := NatToString(h) + (":" + rest);
    if h < 10 {
      assert t[0] == DigitChar(h) && t[1] == ':';
      assert IsDigit(t[0]) && !IsDigit(t[1]);
      assert HourDigits(t, 0) == 1;
      assert t[..1] == [DigitChar(h)] && t[1..] == ":" + rest;
      DigitsValueOne(DigitChar(h));
    } else {
      assert NatToString(h) == Pad2(h);
      TakePad2Hour(h, rest);
    }
  }

  lemma {:induction false} TakePad2Hour(h: nat, rest: string)
    requires h < 100
    ensures TakeHour(Pad2(h) + (":" + rest)) == Some((h, ":" + rest))
  {
    var t := Pad2(h) + (":" + rest);
    assert t[0] == DigitChar(h / 10) && t[1] == DigitChar(h % 10) && t[2] == ':';
    assert HourDigits(t, 0) == 2;
    assert t[..2] == Pad2(h) && t[2..] == ":" + rest;
    DigitsValuePad2(h);
  }

  /** The 12-hour clock value and the meridiem give back the hour of day. */
  lemma {:induction false} From12HourInverse(h: Hour)
    ensures From12Hour(Hour12(h), h >= 12) == h
  {
    assert h % 12 == (if h < 12 then h else h - 12);
  }

  lemma {:induction false} MeridiemLower()
    ensures LowerString("am") == "am" && LowerString("pm") == "pm"
  {
    assert Lower('a') == 'a' && Lower('p') == 'p' && Lower('m') == 'm';
  }

  /** The blank before the meridiem is read as a blank, and the meridiem as itself. */
  lemma {:induction false} MeridiemRead(hv: nat, pm: bool)
    requires 1 <= hv <= 12
    ensures ParseClock("\U{202F}" + (if pm then "pm" else "am"), hv, Clock12) == Some(From12Hour(hv, pm))
  {
    var mer := if pm then "pm" else "am";
    TakeOneSpace('\U{202F}', mer);
    MeridiemLower();
    assert LowerString(mer) == "am" <==> !pm;
  }

  lemma {:induction false} ClockRoundTrip(h: Hour, time: TimeFormat)
    ensures ParseClock(MeridiemText(h, time), if time == Clock24 then h else Hour12(h), time) == Some(h)
  {
    if time == Clock12 {
      MeridiemRead(Hour12(h), h >= 12);
      From12HourInverse(h);
    }
  }

  lemma {:induction false} ParseDateRoundTrip(dt: DateTime, f: YearFormat, rest: string)
    requires f == YY ==> 1969 <= dt.year <= 2068
    ensures ParseDate(Pad2(dt.day) + ("/" + (Pad2(dt.month) + ("/" + (YearText(dt.year, f) + ("," + rest))))), f)
            == Some((dt.day, dt.month, if f == YY then dt.year % 100 else dt.year, rest))
  {
    var s2 := YearText(dt.year, f) + ("," + rest);
    var s1 := Pad2(dt.month) + ("/" + s2);
    TakePad2(dt.day, "/" + s1);
    TakePad2(dt.month, "/" + s2);
    if f == YY {
      TakePad2(dt.year % 100, "," + rest);
    } else {
      TakePad4(dt.year, "," + rest);
    }
  }

  lemma {:induction false} TakeOneSpace(c: char, rest: string)
    requires IsSpace(c) && rest != [] && !IsSpace(rest[0])
    ensures TakeSpaces([c] + rest) == Some(rest)
  {
    assert ([c] + rest)[1..] == rest;
  }

  lemma {:induction false} ParseTimeRoundTrip(h: Hour, minute: Minute, time: TimeFormat)
    ensures ParseTime(TimeText(h, minute, time), time) == Some((h, minute))
  {
    var tail := MeridiemText(h, time);
    var s5 := Pad2(minute) + tail;
    var hv := if time == Clock24 then h else Hour12(h);
    var hourText := if time == Clock24 then Pad2(h) else NatToString(Hour12(h));
    var s4 := hourText + (":" + s5);
    assert IsDigit(s4[0]);
    TakeOneSpace(' ', s4);
    if time == Clock24 {
      TakePad2Hour(h, s5);
    } else {
      TakeHourText(Hour12(h), s5);
    }
    assert TakeHour(s4) == Some((hv, ":" + s5));
    assert TakeChar(":" + s5, ':') == Some(s5);
    TakePad2(minute, tail);
    ClockRoundTrip(h, time);
  }

  lemma {:induction false} CenturyOfYear(y: int)
    requires 1969 <= y <= 2068
    ensures CenturyOf(y % 100) == y
  {
  }

  lemma {:induction false} ParseStampOfFields(t: string, fmt: Format, dt: DateTime, yv: nat, rest: string)
    requires ValidDateTime(dt)
    requires fmt.year == YY ==> 1969 <= dt.year <= 2068 && yv == dt.year % 100
    requires fmt.year == YYYY ==> yv == dt.year
    requires ParseDate(t, fmt.year) == Some((dt.day as nat, dt.month as nat, yv, rest))
    requires ParseTime(rest, fmt.time) == Some((dt.hour, dt.minute as nat))
    ensures ParseStamp(t, fmt) == Some(dt)
  {
    var year := if fmt.year == YY then CenturyOf(yv) else yv;
    if fmt.year == YY { CenturyOfYear(dt.year); }
    assert year == dt.year;
  }

  /** Parsing undoes formatting: every valid date and time, written the way the
      export writes it in a given format, is read back unchanged in that format. */
  lemma {:induction false} ParseFormatRoundTrip(dt: DateTime, fmt: Format)
    requires ValidDateTime(dt)
    requires fmt.year == YY ==> 1969 <= dt.year <= 2068
    ensures ParseStamp(FormatStamp(dt, fmt), fmt) == Some(dt)
  {
    var tt := TimeText(dt.hour, dt.minute, fmt.time);
    var yv := if fmt.year == YY then dt.year % 100 else dt.year;
    ParseDateRoundTrip(dt, fmt.year, tt);
    ParseTimeRoundTrip(dt.hour, dt.minute, fmt.time);
    ParseStampOfFields(FormatStamp(dt, fmt), fmt, dt, yv, tt);
  }

  // ---------------------------------------------------------------------------
  // Derived fields (lines 67-74)

  const MonthNames: seq<string> := ["January", "February", "March", "April", "May", "June", "July",
                                    "August", "September", "October", "November", "December"]

  const DayNames: seq<string> := ["Sunday", "Monday", "Tuesday", "Wednesday", "Thursday", "Friday", "Saturday"]

  /** `dt.month_name()` and `strftime('%B')`. */
  function MonthName(m: Month): string { MonthNames[m - 1] }

  /** The part of Sakamoto's day-of-week sum that does not depend on the day. */
  function MonthBase(y: Year, m: Month): int {
    var offsets := [0, 3, 2, 5, 0, 3, 5, 1, 4, 6, 2, 4];
    var yy := if m < 3 then y - 1 else y;
    yy + yy / 4 - yy / 100 + yy / 400 + offsets[m - 1]
  }

  /** Day of the week, 0 for Sunday (Sakamoto's method for the Gregorian calendar). */
  function Weekday(y: Year, m: Month, d: Day): (w: nat)
    ensures w < 7
  {
    (MonthBase(y, m) + d) % 7
  }

  /** `dt.day_name()`. */
  function DayName(y: Year, m: Month, d: Day): string { DayNames[Weekday(y, m, d)] }

  /** Within a month, the next day is the next weekday. */
  lemma {:induction false} NextDayNextWeekday(y: Year, m: Month, d: Day)
    requires d < DaysInMonth(y, m)
    ensures Weekday(y, m, d + 1) == (Weekday(y, m, d) + 1) % 7
  {
    var b := MonthBase(y, m) + d;
    assert Weekday(y, m, d + 1) == (b + 1) % 7;
    ModSevenSuccessor(b);
  }

  lemma {:induction false} ModSevenSuccessor(b: int)
    ensures (b + 1) % 7 == (b % 7 + 1) % 7
  {
    var q, r := b / 7, b % 7;
    assert b == 7 * q + r;
    if r < 6 {
      assert b + 1 == 7 * q + (r + 1);
    } else {
      assert b + 1 == 7 * (q + 1);
    }
  }

  /** The day after the last day of a month is the first of the next month and falls on
      the next weekday. */
  lemma {:induction false} NextMonthNextWeekday(y: Year, m: Month)
    requires m < 12
    ensures Weekday(y, m + 1, 1) == (Weekday(y, m, DaysInMonth(y, m)) + 1) % 7
  {
    var a := MonthBase(y, m) + DaysInMonth(y, m);
    var k := MonthStep(y, m);
    assert MonthBase(y, m + 1) + 1 == (a + 1) - 7 * k;
    ModSevenShift(a + 1, k);
    ModSevenSuccessor(a);
  }

  /** New Year's Day falls on the weekday after 31 December of the year before. */
  lemma {:induction false} NextYearNextWeekday(y: Year)
    requires y < 9999
    ensures Weekday(y + 1, 1, 1) == (Weekday(y, 12, 31) + 1) % 7
  {
    var a := MonthBase(y, 12) + 31;
    assert MonthBase(y + 1, 1) + 1 == (a + 1) - 7 * 5;
    ModSevenShift(a + 1, 5);
    ModSevenSuccessor(a);
  }

  /** From one month to the next, the month term of Sakamoto's sum moves by the length of
      the month less a whole number `k` of weeks. */
  lemma {:induction false} MonthStep(y: Year, m: Month) returns (k: int)
    requires m < 12
    ensures MonthBase(y, m + 1) == MonthBase(y, m) + DaysInMonth(y, m) - 7 * k
  {
    if m == 2 {
      FebruaryStep(y);
      k := 4;
    } else if m == 4 || m == 7 || m == 10 {
      k := 5;
    } else {
      k := 4;
    }
  }

  /** Across the end of February the year term of the sum moves from `y - 1` to `y`, and
      grows by one exactly in a leap year, when February has 29 days. */
  lemma {:induction false} FebruaryStep(y: Year)
    ensures MonthBase(y, 3) == MonthBase(y, 2) + DaysInMonth(y, 2) - 28
  {
    var leap := if IsLeapYear(y) then 1 else 0;
    DivStep(y, 4);
    DivStep(y, 100);
    DivStep(y, 400);
    assert (y / 4 - (y - 1) / 4) - (y / 100 - (y - 1) / 100) + (y / 400 - (y - 1) / 400) == leap;
    assert MonthBase(y, 3) - MonthBase(y, 2) == 1 + (y / 4 - (y - 1) / 4) - (y / 100 - (y - 1) / 100) + (y / 400 - (y - 1) / 400) - 1;
  }

  /** `y / d` grows by one exactly when `y` is a multiple of `d`. */
  lemma {:induction false} DivStep(y: int, d: int)
    requires d == 4 || d == 100 || d == 400
    ensures y / d - (y - 1) / d == if y % d == 0 then 1 else 0
  {
    if d == 4 {
      assert y / 4 - (y - 1) / 4 == if y % 4 == 0 then 1 else 0;
    } else if d == 100 {
      assert y / 100 - (y - 1) / 100 == if y % 100 == 0 then 1 else 0;
    } else {
      assert y / 400 - (y - 1) / 400 == if y % 400 == 0 then 1 else 0;
    }
  }

  lemma {:induction false} ModSevenShift(b: int, k: int)
    ensures (b - 7 * k) % 7 == b % 7
  {
  }

  /** A year has 365 days, and 366 in a leap year. */
  lemma {:induction false} DaysInYear(y: int)
    ensures DaysInMonth(y, 1) + DaysInMonth(y, 2) + DaysInMonth(y, 3) + DaysInMonth(y, 4)
          + DaysInMonth(y, 5) + DaysInMonth(y, 6) + DaysInMonth(y, 7) + DaysInMonth(y, 8)
          + DaysInMonth(y, 9) + DaysInMonth(y, 10) + DaysInMonth(y, 11) + DaysInMonth(y, 12)
         == if IsLeapYear(y) then 366 else 365
  {
  }

  /** 1 January 2023 was a Sunday. */
  lemma {:induction false} WeekdayAnchor()
    ensures DayName(2023, 1, 1) == "Sunday"
  {
  }
}
