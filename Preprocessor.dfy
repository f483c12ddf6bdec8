/** `preprocess` (preprocessor.py, lines 15-96): the exported chat text becomes a
    table of messages, one row per timestamp that parses and is not a group
    notification, with the date parts, the emojis and the cleaned text of each. */
module Preprocessor {
  import opened Text
  import opened Results
  import opened Tokenizer
  import opened DateNormalizer
  import opened TextFeatures
  import opened Counting

  /** A row after line 64: a parsed date, the sender and the message. */
  datatype Parsed = Parsed(msgDate: DateTime, user: string, message: string)

  /** A row of the table `preprocess` returns. The date columns of lines 67-74 are
      read off `msgDate`. */
  datatype Message = Message(msgDate: DateTime, user: string, message: string, emoji: string,
                             cleanMessage: string, isEmptyAfterCleaning: bool)
  {
    function Year(): Year { msgDate.year }
    function Month(): string { MonthName(msgDate.month) }
    function Day(): Day { msgDate.day }
    function Hour(): Hour { msgDate.hour }
    function Minute(): Minute { msgDate.minute }
    function Date(): Date { DateNormalizer.Date(msgDate.year, msgDate.month, msgDate.day) }
    function MonthNum(): Month { msgDate.month }
    function DayName(): string { DateNormalizer.DayName(msgDate.year, msgDate.month, msgDate.day) }
  }

  const NoMessages: string := "No messages found in the chat data."

  // ---------------------------------------------------------------------------
  // The column steps, one function each

  /** Line 39: every timestamp loses its surrounding blanks and the trailing ` -`. */
  function CleanDates(es: seq<Entry>): (cs: seq<Entry>)
    ensures |cs| == |es|
    ensures forall k :: 0 <= k < |es| ==>
              cs[k] == Entry(CleanStamp(es[k].msgDate), es[k].user, es[k].message)
  {
    seq(|es|, k requires 0 <= k < |es| => Entry(CleanStamp(es[k].msgDate), es[k].user, es[k].message))
  }

  function Stamps(es: seq<Entry>): (ss: seq<string>)
    ensures |ss| == |es| && forall k :: 0 <= k < |es| ==> ss[k] == es[k].msgDate
  {
    seq(|es|, k requires 0 <= k < |es| => es[k].msgDate)
  }

  /** Lines 42-58: the format is chosen once, from the year field of the first
      timestamp and from whether any timestamp mentions `am` or `pm`. */
  function TableFormat(es: seq<Entry>): (r: Result<Format>)
    ensures es == [] ==> r == Err(NoMessages)
    ensures es != [] ==> (r.Ok? <==> GetYearFormat(es[0].msgDate).Ok?)
    ensures r.Ok? ==> (r.value.year == GetYearFormat(es[0].msgDate).value
                       && (r.value.time == Clock12 <==> exists k :: 0 <= k < |es| && HasMeridiem(es[k].msgDate)))
  {
    if es == [] then Err(NoMessages)
    else
      match GetYearFormat(es[0].msgDate)
      case Err(e) => Err(e)
      case Ok(year) =>
        var ss := Stamps(es);
        var time := ChooseTimeFormat(ss);
        assert (exists k :: 0 <= k < |ss| && HasMeridiem(ss[k])) <==>
               (exists k :: 0 <= k < |es| && HasMeridiem(es[k].msgDate));
        Ok(Format(year, time))
  }

  /** `pd.to_datetime(..., errors='coerce')` on one row: the row keeps its sender and
      message and gets the parsed date, or becomes `NaT`. */
  function ParseEntry(e: Entry, fmt: Format): (r: Option<Parsed>)
    ensures r.Some? <==> ParseStamp(e.msgDate, fmt).Some?
    ensures r.Some? ==> r.value == Parsed(ParseStamp(e.msgDate, fmt).value, e.user, e.message)
  {
    match ParseStamp(e.msgDate, fmt)
    case Some(dt) => Some(Parsed(dt, e.user, e.message))
    case None => None
  }

  /** The parse of every row, `NaT` as `None`. */
  function ParseAll(es: seq<Entry>, fmt: Format): (ps: seq<Option<Parsed>>)
    ensures |ps| == |es| && forall k :: 0 <= k < |es| ==> ps[k] == ParseEntry(es[k], fmt)
  {
    seq(|es|, k requires 0 <= k < |es| => ParseEntry(es[k], fmt))
  }

  /** Lines 61-64: the rows whose timestamp does not parse are dropped. */
  function DropUnparsed(es: seq<Entry>, fmt: Format): (rows: seq<Parsed>)
    ensures |rows| <= |es|
    ensures forall p :: p in rows <==> exists k :: 0 <= k < |es| && ParseEntry(es[k], fmt) == Some(p)
  {
    Somes(ParseAll(es, fmt))
  }

  predicate NotNotification(p: Parsed) { p.user != GroupNotifications }

  /** Line 77: group notifications are dropped. */
  function DropNotifications(rows: seq<Parsed>): (kept: seq<Parsed>)
    ensures |kept| <= |rows|
    ensures forall p :: p in kept <==> p in rows && p.user != GroupNotifications
  {
    Filter(rows, NotNotification)
  }

  /** Lines 80-94 on one row. */
  function AddFeatures(p: Parsed, emojiData: set<string>): Message {
    var clean := CleanMessage(p.message, emojiData);
    Message(p.msgDate, p.user, p.message, ExtractEmojis(p.message, emojiData), clean, clean == "")
  }

  function AddAllFeatures(rows: seq<Parsed>, emojiData: set<string>): (ms: seq<Message>)
    ensures |ms| == |rows|
    ensures forall k :: 0 <= k < |rows| ==> ms[k] == AddFeatures(rows[k], emojiData)
  {
    seq(|rows|, k requires 0 <= k < |rows| => AddFeatures(rows[k], emojiData))
  }

  /** Lines 61-94 once the format is known. */
  function Rows(es: seq<Entry>, fmt: Format, emojiData: set<string>): seq<Message> {
    AddAllFeatures(DropNotifications(DropUnparsed(es, fmt)), emojiData)
  }

  /** The whole of `preprocess`, as a function of the chat text and of the emoji table. */
  function PreprocessSpec(data: string, emojiData: set<string>): Result<seq<Message>> {
    var es := CleanDates(Entries(data));
    match TableFormat(es)
    case Err(e) => Err(e)
    case Ok(fmt) => Ok(Rows(es, fmt, emojiData))
  }

  // ---------------------------------------------------------------------------
  // The procedure

  /** Lines 17 and 22: the timestamps of the text without its newlines. */
  function Timestamps(data: string): seq<string> {
    FindAll(RemoveNewlines(data))
  }

  /** Lines 17 and 21: one body per timestamp. */
  function Bodies(data: string): (bodies: seq<string>)
    ensures |bodies| == |Timestamps(data)|
  {
    SplitCount(RemoveNewlines(data));
    ReSplit(RemoveNewlines(data))[1..]
  }

  /** Lines 24-33: each body is split into its sender and its message, one at a time. */
  method SplitSenders(messages: seq<string>) returns (users: seq<string>, messagesList: seq<string>)
    ensures users == Senders(messages) && messagesList == Messages(messages)
  {
    users := [];
    messagesList := [];
    var i := 0;
    while i < |messages|
      invariant 0 <= i <= |messages|
      invariant users == Senders(messages[..i])
      invariant messagesList == Messages(messages[..i])
    {
      var message := messages[i];
      assert messages[..i + 1][..i] == messages[..i];
      match FirstColonSpace(message, 1) {
        case Some(k) =>
          users := users + [Title(Strip(message[..k]))];
          messagesList := messagesList + [message[k + 2..]];
        case None =>
          users := users + [GroupNotifications];
          messagesList := messagesList + [message];
      }
      i := i + 1;
    }
    assert messages[..i] == messages;
  }

  /** `preprocess(data)`: the bodies are split into senders and messages, and the
      columns are then built and filtered step by step. */
  method Preprocess(data: string, emojiData: set<string>) returns (r: Result<seq<Message>>)
    ensures r == PreprocessSpec(data, emojiData)
  {
    var messages := Bodies(data);
    var dates := Timestamps(data);
    var users, messagesList := SplitSenders(messages);

    var df := seq(|dates|, k requires 0 <= k < |dates| => Entry(dates[k], users[k], messagesList[k]));
    assert df == Entries(data);
    df := CleanDates(df);
    if |df| == 0 {
      return Err(NoMessages);
    }
    var yearFormat := GetYearFormat(df[0].msgDate);
    if yearFormat.Err? {
      return Err(yearFormat.error);
    }
    var timeFormat := ChooseTimeFormat(Stamps(df));
    var fmt := Format(yearFormat.value, timeFormat);
    assert TableFormat(df) == Ok(fmt);
    var rows := DropUnparsed(df, fmt);
    rows := DropNotifications(rows);
    r := Ok(AddAllFeatures(rows, emojiData));
  }

  // ---------------------------------------------------------------------------
  // What the table satisfies

  /** `preprocess` fails exactly when the text holds no timestamp, and then with
      the message of line 46: `get_year_format` never raises on a captured
      timestamp. */
  lemma {:induction false} PreprocessFails(data: string, emojiData: set<string>)
    ensures PreprocessSpec(data, emojiData).Err? <==> FindAll(RemoveNewlines(data)) == []
    ensures PreprocessSpec(data, emojiData).Err? ==> PreprocessSpec(data, emojiData).error == NoMessages
  {
    var text := RemoveNewlines(data);
    var es := CleanDates(Entries(data));
    if es != [] {
      FindAllYearFormats(text);
      assert HasYearFormat(FindAll(text)[0]);
      assert Entries(data)[0].msgDate == FindAll(text)[0];
    }
  }

  /** A row of the result: a sender that is not the sentinel and is title-cased, and the
      emoji and cleaning columns of its message. */
  predicate WellFormed(m: Message, emojiData: set<string>) {
    && m.user != GroupNotifications
    && Title(m.user) == m.user
    && ValidDateTime(m.msgDate)
    && m.emoji == ExtractEmojis(m.message, emojiData)
    && m.cleanMessage == CleanMessage(m.message, emojiData)
    && (m.isEmptyAfterCleaning <==> m.cleanMessage == "")
  }

  /** Every sender the split produces is the sentinel or a title-cased name. */
  lemma {:induction false} SendersTitleCased(data: string)
    ensures forall e :: e in Entries(data) ==> e.user == GroupNotifications || Title(e.user) == e.user
  {
    forall e | e in Entries(data) && e.user != GroupNotifications ensures Title(e.user) == e.user {
      var i :| 0 <= i < |Entries(data)| && Entries(data)[i] == e;
      var text := RemoveNewlines(data);
      SplitCount(text);
      var bodies := ReSplit(text)[1..];
      SendersAt(bodies);
      var body := bodies[i];
      assert e.user == SenderOf(body);
      SplitSenderCases(body);
      var k :| 1 <= k && ColonSpaceAt(body, k) && SenderOf(body) == Title(Strip(body[..k]));
      TitleIdempotent(Strip(body[..k]));
    }
  }

  /** An entry that gives a row: its timestamp parses and its sender is a person. */
  predicate Survives(e: Entry, fmt: Format) {
    e.user != GroupNotifications && ParseStamp(e.msgDate, fmt).Some?
  }

  /** The row an entry gives when it survives. */
  function RowOf(e: Entry, fmt: Format, emojiData: set<string>): Message
    requires Survives(e, fmt)
  {
    AddFeatures(Parsed(ParseStamp(e.msgDate, fmt).value, e.user, e.message), emojiData)
  }

  /** The rows of the result are exactly the rows of the surviving entries. */
  lemma {:induction false} RowsFromEntries(es: seq<Entry>, fmt: Format, emojiData: set<string>)
    ensures forall m :: m in Rows(es, fmt, emojiData) <==>
              exists k :: 0 <= k < |es| && Survives(es[k], fmt) && m == RowOf(es[k], fmt, emojiData)
  {
    var ms := Rows(es, fmt, emojiData);
    forall m | m in ms
      ensures exists k :: 0 <= k < |es| && Survives(es[k], fmt) && m == RowOf(es[k], fmt, emojiData)
    {
      var i :| 0 <= i < |ms| && ms[i] == m;
      var k := SurvivorOfRow(es, fmt, emojiData, i);
    }
    forall k | 0 <= k < |es| && Survives(es[k], fmt) ensures RowOf(es[k], fmt, emojiData) in ms {
      RowOfSurvivor(es, fmt, emojiData, k);
    }
  }

  /** Each row of the result is the row of some surviving entry. */
  lemma {:induction false} SurvivorOfRow(es: seq<Entry>, fmt: Format, emojiData: set<string>, i: nat) returns (k: nat)
    requires i < |Rows(es, fmt, emojiData)|
    ensures k < |es| && Survives(es[k], fmt) && Rows(es, fmt, emojiData)[i] == RowOf(es[k], fmt, emojiData)
  {
    var parsed := DropUnparsed(es, fmt);
    var kept := DropNotifications(parsed);
    var p := kept[i];
    assert p in kept;
    assert p in parsed && p.user != GroupNotifications;
    k :| 0 <= k < |es| && ParseEntry(es[k], fmt) == Some(p);
  }

  /** Each surviving entry gives a row of the result. */
  lemma {:induction false} RowOfSurvivor(es: seq<Entry>, fmt: Format, emojiData: set<string>, k: nat)
    requires k < |es| && Survives(es[k], fmt)
    ensures RowOf(es[k], fmt, emojiData) in Rows(es, fmt, emojiData)
  {
    var parsed := DropUnparsed(es, fmt);
    var kept := DropNotifications(parsed);
    var p := ParseEntry(es[k], fmt).value;
    assert p in parsed;
    assert p in kept;
    var i :| 0 <= i < |kept| && kept[i] == p;
    assert Rows(es, fmt, emojiData)[i] == RowOf(es[k], fmt, emojiData);
  }

  /** Every row `preprocess` returns is well formed and comes from a block of the chat
      whose cleaned timestamp parses in the table's format and whose sender is a person;
      every such block gives a row. */
  lemma {:induction false} PreprocessRows(data: string, emojiData: set<string>)
    requires PreprocessSpec(data, emojiData).Ok?
    ensures forall m :: m in PreprocessSpec(data, emojiData).value ==> WellFormed(m, emojiData)
    ensures var es := CleanDates(Entries(data));
            forall m :: m in PreprocessSpec(data, emojiData).value <==>
              exists k :: 0 <= k < |es| && Survives(es[k], TableFormat(es).value)
                          && m == RowOf(es[k], TableFormat(es).value, emojiData)
  {
    var es := CleanDates(Entries(data));
    var fmt := TableFormat(es).value;
    var ms := PreprocessSpec(data, emojiData).value;
    assert ms == Rows(es, fmt, emojiData);
    RowsFromEntries(es, fmt, emojiData);
    SendersTitleCased(data);
    forall k | 0 <= k < |es| ensures es[k].user == GroupNotifications || Title(es[k].user) == es[k].user {
      assert Entries(data)[k] in Entries(data);
    }
    RowsWellFormed(es, fmt, emojiData);
  }

  /** Entries whose senders are the sentinel or title-cased give well-formed rows. */
  lemma {:induction false} RowsWellFormed(es: seq<Entry>, fmt: Format, emojiData: set<string>)
    requires forall k :: 0 <= k < |es| ==> es[k].user == GroupNotifications || Title(es[k].user) == es[k].user
    ensures forall m :: m in Rows(es, fmt, emojiData) ==> WellFormed(m, emojiData)
  {
    RowsFromEntries(es, fmt, emojiData);
    forall m | m in Rows(es, fmt, emojiData) ensures WellFormed(m, emojiData) {
      var k :| 0 <= k < |es| && Survives(es[k], fmt) && m == RowOf(es[k], fmt, emojiData);
    }
  }

  /** The filters keep the order of the chat: the rows of two consecutive stretches of
      entries are the rows of the first followed by the rows of the second. */
  lemma {:induction false} RowsAppend(a: seq<Entry>, b: seq<Entry>, fmt: Format, emojiData: set<string>)
    ensures Rows(a + b, fmt, emojiData) == Rows(a, fmt, emojiData) + Rows(b, fmt, emojiData)
  {
    DropUnparsedAppend(a, b, fmt);
    FilterAppend(DropUnparsed(a, fmt), DropUnparsed(b, fmt), NotNotification);
    AddAllFeaturesAppend(DropNotifications(DropUnparsed(a, fmt)), DropNotifications(DropUnparsed(b, fmt)), emojiData);
  }

  lemma {:induction false} DropUnparsedAppend(a: seq<Entry>, b: seq<Entry>, fmt: Format)
    ensures DropUnparsed(a + b, fmt) == DropUnparsed(a, fmt) + DropUnparsed(b, fmt)
  {
    PointwiseAppend(a, b, ParseAll(a + b, fmt), ParseAll(a, fmt), ParseAll(b, fmt), e => ParseEntry(e, fmt));
    SomesAppend(ParseAll(a, fmt), ParseAll(b, fmt));
  }

  lemma {:induction false} AddAllFeaturesAppend(x: seq<Parsed>, y: seq<Parsed>, emojiData: set<string>)
    ensures AddAllFeatures(x + y, emojiData) == AddAllFeatures(x, emojiData) + AddAllFeatures(y, emojiData)
  {
    PointwiseAppend(x, y, AddAllFeatures(x + y, emojiData), AddAllFeatures(x, emojiData), AddAllFeatures(y, emojiData),
                    p => AddFeatures(p, emojiData));
  }

  /** No more rows than timestamps. */
  lemma {:induction false} RowCount(data: string, emojiData: set<string>)
    requires PreprocessSpec(data, emojiData).Ok?
    ensures |PreprocessSpec(data, emojiData).value| <= |FindAll(RemoveNewlines(data))|
  {
  }
}
