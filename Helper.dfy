/** The statistics of the dashboard (helper.py): every query first narrows the table
    to one sender, unless "Overall" is selected, and then counts, groups or lists. */
module Helper {
  import opened Text
  import opened Results
  import opened Counting
  import opened DateNormalizer
  import opened TextFeatures
  import opened Preprocessor

  const Overall: string := "Overall"

  function IsFrom(selectedUser: string): Message -> bool {
    (m: Message) => m.user == selectedUser
  }

  /** The selection at the top of every query (lines 22-23 and their copies): all rows
      for "Overall", otherwise the rows of that sender, in table order. */
  function Scope(selectedUser: string, df: seq<Message>): (rows: seq<Message>)
    ensures |rows| <= |df|
    ensures selectedUser == Overall ==> rows == df
    ensures selectedUser != Overall ==> forall m :: m in rows <==> m in df && m.user == selectedUser
  {
    if selectedUser == Overall then df else Filter(df, IsFrom(selectedUser))
  }

  /** The selection keeps table order: the rows of a sender in two consecutive parts of
      the table are the rows in the first part followed by those in the second. */
  lemma {:induction false} ScopeAppend(selectedUser: string, a: seq<Message>, b: seq<Message>)
    ensures Scope(selectedUser, a + b) == Scope(selectedUser, a) + Scope(selectedUser, b)
  {
    if selectedUser != Overall {
      FilterAppend(a, b, IsFrom(selectedUser));
    }
  }

  // ---------------------------------------------------------------------------
  // fetch_stats (lines 21-40)

  const MediaOmitted: string := "<Media omitted>"

  predicate IsMedia(m: Message) { m.message == MediaOmitted }

  /** The `words` list of lines 28-30: the whitespace-separated tokens of every message. */
  function AllWords(rows: seq<Message>): seq<string> {
    if rows == [] then [] else AllWords(rows[..|rows| - 1]) + Words(rows[|rows| - 1].message)
  }

  /** The `links` list of lines 36-38, for a given URL finder. */
  function AllLinks(rows: seq<Message>, findUrls: string -> seq<string>): seq<string> {
    if rows == [] then [] else AllLinks(rows[..|rows| - 1], findUrls) + findUrls(rows[|rows| - 1].message)
  }

  /** The messages run together, in table order. */
  function AllText(rows: seq<Message>): string {
    if rows == [] then [] else AllText(rows[..|rows| - 1]) + rows[|rows| - 1].message
  }

  lemma {:induction false} AllWordsSnoc(rows: seq<Message>, i: nat)
    requires i < |rows|
    ensures AllWords(rows[..i + 1]) == AllWords(rows[..i]) + Words(rows[i].message)
  {
    var p := rows[..i + 1];
    assert p != [] && |p| - 1 == i;
    assert p[..i] == rows[..i] && p[i] == rows[i];
  }

  lemma {:induction false} AllLinksSnoc(rows: seq<Message>, i: nat, findUrls: string -> seq<string>)
    requires i < |rows|
    ensures AllLinks(rows[..i + 1], findUrls) == AllLinks(rows[..i], findUrls) + findUrls(rows[i].message)
  {
    var p := rows[..i + 1];
    assert p != [] && |p| - 1 == i;
    assert p[..i] == rows[..i] && p[i] == rows[i];
  }

  /** The loop of lines 28-30. */
  method CollectWords(rows: seq<Message>) returns (words: seq<string>)
    ensures words == AllWords(rows)
  {
    words := [];
    var i := 0;
    while i < |rows|
      invariant 0 <= i <= |rows|
      invariant words == AllWords(rows[..i])
    {
      AllWordsSnoc(rows, i);
      words := words + Words(rows[i].message);
      i := i + 1;
    }
    assert rows[..i] == rows;
  }

  /** The loop of lines 36-38. */
  method CollectLinks(rows: seq<Message>, findUrls: string -> seq<string>) returns (links: seq<string>)
    ensures links == AllLinks(rows, findUrls)
  {
    links := [];
    var i := 0;
    while i < |rows|
      invariant 0 <= i <= |rows|
      invariant links == AllLinks(rows[..i], findUrls)
    {
      AllLinksSnoc(rows, i, findUrls);
      links := links + findUrls(rows[i].message);
      i := i + 1;
    }
    assert rows[..i] == rows;
  }

  /** `fetch_stats`: the number of rows, of words, of media placeholders and of links in
      the selection. The URL finder is a parameter. */
  method FetchStats(selectedUser: string, df: seq<Message>, findUrls: string -> seq<string>)
    returns (numMessages: nat, numWords: nat, numMedia: nat, numLinks: nat)
    ensures numMessages == |Scope(selectedUser, df)|
    ensures numWords == |AllWords(Scope(selectedUser, df))|
    ensures numMedia == |Filter(Scope(selectedUser, df), IsMedia)| && numMedia <= numMessages
    ensures numLinks == |AllLinks(Scope(selectedUser, df), findUrls)|
  {
    var rows := Scope(selectedUser, df);
    numMessages := |rows|;
    var words := CollectWords(rows);
    numMedia := |Filter(rows, IsMedia)|;
    var links := CollectLinks(rows, findUrls);
    numWords := |words|;
    numLinks := |links|;
  }

  lemma {:induction false} ConcatAppend(a: seq<string>, b: seq<string>)
    ensures Concat(a + b) == Concat(a) + Concat(b)
  {
    if a == [] {
      assert a + b == b;
    } else {
      assert (a + b)[1..] == a[1..] + b;
      ConcatAppend(a[1..], b);
    }
  }

  lemma {:induction false} AllWordsConcat(rows: seq<Message>)
    ensures Concat(AllWords(rows)) == NonSpace(AllText(rows))
  {
    if rows != [] {
      var init := rows[..|rows| - 1];
      var last := rows[|rows| - 1].message;
      AllWordsConcat(init);
      ConcatAppend(AllWords(init), Words(last));
      WordsKeepNonSpace(last);
      NonSpaceAppend(AllText(init), last);
    }
  }

  /** Every word is a non-empty run without whitespace. */
  predicate WordShaped(w: string) { w != [] && NoSpace(w) }

  lemma {:induction false} AllWordsShaped(rows: seq<Message>)
    ensures forall k :: 0 <= k < |AllWords(rows)| ==> WordShaped(AllWords(rows)[k])
  {
    if rows != [] {
      var init := rows[..|rows| - 1];
      var ws0 := AllWords(init);
      var ws1 := Words(rows[|rows| - 1].message);
      AllWordsShaped(init);
      assert forall k :: 0 <= k < |ws1| ==> WordShaped(ws1[k]);
      EveryAppend(ws0, ws1, WordShaped);
      assert AllWords(rows) == ws0 + ws1;
    }
  }

  /** The counted words lose only whitespace: glued together they are the non-space
      characters of all the messages, in order; and none is empty or holds a blank. */
  lemma {:induction false} AllWordsKeepText(rows: seq<Message>)
    ensures Concat(AllWords(rows)) == NonSpace(AllText(rows))
    ensures forall k :: 0 <= k < |AllWords(rows)| ==> AllWords(rows)[k] != [] && NoSpace(AllWords(rows)[k])
  {
    AllWordsConcat(rows);
    AllWordsShaped(rows);
  }

  // ---------------------------------------------------------------------------
  // most_busy_user (lines 42-45)

  function Users(df: seq<Message>): (us: seq<string>)
    ensures |us| == |df| && forall i :: 0 <= i < |df| ==> us[i] == df[i].user
  {
    seq(|df|, i requires 0 <= i < |df| => df[i].user)
  }

  /** `df['user'].value_counts().head()`: the five busiest senders with their numbers of
      messages, busiest first. */
  function MostBusyUsers(df: seq<Message>): (t: seq<(string, nat)>)
    ensures |t| <= 5
    ensures |t| == Min(5, |ValueCounts(Users(df))|)
    ensures forall i :: 0 <= i < |t| ==> t[i] == ValueCounts(Users(df))[i]
    ensures Distinct(Keys(t))
    ensures forall i :: 0 <= i < |t| ==> t[i].1 == Count(Users(df), t[i].0) && t[i].1 > 0
    ensures forall i, j :: 0 <= i < j < |t| ==> t[i].1 >= t[j].1
    ensures forall i, j :: 0 <= i < j < |t| && t[i].1 == t[j].1 ==> FirstIndex(Users(df), t[i].0) < FirstIndex(Users(df), t[j].0)
  {
    TopRows(Users(df), 5)
  }

  /** A sender left out of the five busiest sent at most as many messages as each
      sender listed. */
  lemma {:induction false} MostBusyUsersAreBusiest(df: seq<Message>, u: string)
    requires u in Users(df) && u !in Keys(MostBusyUsers(df))
    ensures forall i :: 0 <= i < |MostBusyUsers(df)| ==> Count(Users(df), u) <= MostBusyUsers(df)[i].1
  {
    TopRowsAreMostFrequent(Users(df), 5, u);
  }

  // ---------------------------------------------------------------------------
  // start_end_date (lines 68-89)

  /** The suffix chosen at lines 78-82. */
  function OrdinalSuffix(day: nat): string {
    if 11 <= day <= 13 then "th"
    else if day % 10 == 1 then "st"
    else if day % 10 == 2 then "nd"
    else if day % 10 == 3 then "rd"
    else "th"
  }

  /** `add_ordinal_suffix(day)`: the number, then its suffix. The number can be read
      back from the text. */
  function AddOrdinalSuffix(day: nat): (r: string)
    ensures |r| >= 3 && r[..|r| - 2] == NatToString(day) && DigitsValue(r[..|r| - 2]) == day
    ensures r[|r| - 2..] == OrdinalSuffix(day)
  {
    NatToStringRoundTrip(day);
    var r := NatToString(day) + OrdinalSuffix(day);
    assert r[..|r| - 2] == NatToString(day);
    assert r[|r| - 2..] == OrdinalSuffix(day);
    r
  }

  /** English ordinals for the days of a month: 1st, 2nd, 3rd, 21st, 22nd, 23rd and 31st;
      every other day, 11th, 12th and 13th included, takes "th". */
  lemma {:induction false} OrdinalSuffixEnglish(day: Day)
    ensures OrdinalSuffix(day) == (if day in {1, 21, 31} then "st"
                                   else if day in {2, 22} then "nd"
                                   else if day in {3, 23} then "rd"
                                   else "th")
  {
  }

  /** Different days are written differently. */
  lemma {:induction false} AddOrdinalSuffixInjective(d1: nat, d2: nat)
    requires AddOrdinalSuffix(d1) == AddOrdinalSuffix(d2)
    ensures d1 == d2
  {
  }

  /** `f"{d.strftime('%B')} {add_ordinal_suffix(d.day)}, {d.year}"`, e.g. "March 3rd, 2024". */
  function LongDate(dt: DateTime): string {
    MonthName(dt.month) + " " + AddOrdinalSuffix(dt.day) + ", " + NatToString(dt.year)
  }

  function Dates(rows: seq<Message>): (ds: seq<Date>)
    ensures |ds| == |rows| && forall i :: 0 <= i < |rows| ==> ds[i] == rows[i].Date()
  {
    seq(|rows|, i requires 0 <= i < |rows| => rows[i].Date())
  }

  /** `start_end_date`: the dates of the first and of the last row of the selection, in
      table order, and the number of distinct days with a message. An empty selection
      has no row 0 and fails (`None`). */
  function StartEndDate(selectedUser: string, df: seq<Message>): (r: Option<(string, string, nat)>)
    ensures r.None? <==> Scope(selectedUser, df) == []
    ensures r.Some? ==> var rows := Scope(selectedUser, df);
              && r.value.0 == LongDate(rows[0].msgDate)
              && r.value.1 == LongDate(rows[|rows| - 1].msgDate)
              && r.value.2 == |set d | d in Dates(rows)|
              && 1 <= r.value.2 <= |rows|
  {
    var rows := Scope(selectedUser, df);
    if rows == [] then None
    else
      var days := Unique(Dates(rows));
      DistinctCardinality(days);
      assert (set d | d in days) == (set d | d in Dates(rows));
      DistinctWithin(days, Dates(rows));
      assert Dates(rows)[0] in days;
      Some((LongDate(rows[0].msgDate), LongDate(rows[|rows| - 1].msgDate), |days|))
  }

  // ---------------------------------------------------------------------------
  // monthly_timeline (lines 92-101)

  /** A group of line 95: year, month number and month name. */
  datatype MonthKey = MonthKey(year: Year, monthNum: Month, month: string)

  function MonthKeys(rows: seq<Message>): (ks: seq<MonthKey>)
    ensures |ks| == |rows|
    ensures forall i :: 0 <= i < |rows| ==> ks[i] == MonthKey(rows[i].Year(), rows[i].MonthNum(), rows[i].Month())
  {
    seq(|rows|, i requires 0 <= i < |rows| => MonthKey(rows[i].Year(), rows[i].MonthNum(), rows[i].Month()))
  }

  /** The group order of `groupby`: by year, then by month number. */
  function MonthOrder(k: MonthKey): int { k.year * 12 + k.monthNum }

  predicate MonthBefore(a: MonthKey, b: MonthKey) {
    a.year < b.year || (a.year == b.year && a.monthNum < b.monthNum)
  }

  /** The label of line 98, e.g. "March-2024". */
  function MonthLabel(k: MonthKey): string { k.month + "-" + NatToString(k.year) }

  /** `monthly_timeline`: one row per month with messages, in calendar order, with its
      number of messages and its label. */
  method MonthlyTimeline(selectedUser: string, df: seq<Message>) returns (timeline: seq<(MonthKey, nat)>, time: seq<string>)
    ensures timeline == GroupCounts(MonthKeys(Scope(selectedUser, df)), MonthOrder)
    ensures |time| == |timeline|
    ensures forall i :: 0 <= i < |timeline| ==> time[i] == MonthLabel(timeline[i].0)
  {
    timeline := GroupCounts(MonthKeys(Scope(selectedUser, df)), MonthOrder);
    time := [];
    var i := 0;
    while i < |timeline|
      invariant 0 <= i <= |timeline|
      invariant |time| == i
      invariant forall k :: 0 <= k < i ==> time[k] == MonthLabel(timeline[k].0)
    {
      time := time + [timeline[i].0.month + "-" + NatToString(timeline[i].0.year)];
      i := i + 1;
    }
  }

  lemma {:induction false} MonthNamesWellFormed()
    ensures forall m: Month :: '-' !in MonthName(m)
    ensures forall m1: Month, m2: Month :: MonthName(m1) == MonthName(m2) ==> m1 == m2
  {
  }

  lemma {:induction false} BeforeFirstDash(a: string, b: string)
    requires '-' !in a
    ensures BeforeFirst(a + "-" + b, '-') == a
  {
    if a != [] {
      assert (a + "-" + b)[1..] == a[1..] + "-" + b;
      BeforeFirstDash(a[1..], b);
    }
  }

  /** Two texts joined by a dash, where the first contains no dash, split back uniquely. */
  lemma {:induction false} SplitAtDash(a: string, b: string, c: string, d: string)
    requires '-' !in a && '-' !in c
    requires a + "-" + b == c + "-" + d
    ensures a == c && b == d
  {
    BeforeFirstDash(a, b);
    BeforeFirstDash(c, d);
    var s := a + "-" + b;
    assert b == s[|a| + 1..];
    assert d == s[|c| + 1..];
  }

  /** A month key as the source builds it: the name belongs to the number. */
  predicate ConsistentMonth(k: MonthKey) { k.month == MonthName(k.monthNum) }

  /** Distinct months carry distinct labels. */
  lemma {:induction false} MonthLabelInjective(k1: MonthKey, k2: MonthKey)
    requires ConsistentMonth(k1) && ConsistentMonth(k2)
    requires MonthLabel(k1) == MonthLabel(k2)
    ensures k1 == k2
  {
    MonthNamesWellFormed();
    SplitAtDash(k1.month, NatToString(k1.year), k2.month, NatToString(k2.year));
    NatToStringInjective(k1.year, k2.year);
  }

  /** Of two distinct consistent months, the one earlier in the group order is earlier
      in the calendar. */
  lemma {:induction false} MonthOrderBefore(k1: MonthKey, k2: MonthKey)
    requires ConsistentMonth(k1) && ConsistentMonth(k2) && k1 != k2
    requires MonthOrder(k1) <= MonthOrder(k2)
    ensures MonthBefore(k1, k2)
  {
  }

  /** Groups of consistent month keys are in strict calendar order and carry distinct
      labels. */
  lemma {:induction false} GroupedMonthsOrdered(ks: seq<MonthKey>)
    requires forall k :: k in ks ==> ConsistentMonth(k)
    ensures var t := GroupCounts(ks, MonthOrder);
            forall i, j :: 0 <= i < j < |t| ==> MonthBefore(t[i].0, t[j].0) && MonthLabel(t[i].0) != MonthLabel(t[j].0)
  {
    var t := GroupCounts(ks, MonthOrder);
    forall i | 0 <= i < |t| ensures ConsistentMonth(t[i].0) {
      assert Keys(t)[i] in ks;
    }
    MonthRowsOrdered(t);
  }

  lemma {:induction false} MonthRowsOrdered(t: seq<(MonthKey, nat)>)
    requires Distinct(Keys(t)) && forall i :: 0 <= i < |t| ==> ConsistentMonth(t[i].0)
    requires forall i, j :: 0 <= i < j < |t| ==> MonthOrder(t[i].0) <= MonthOrder(t[j].0)
    ensures forall i, j :: 0 <= i < j < |t| ==> MonthBefore(t[i].0, t[j].0) && MonthLabel(t[i].0) != MonthLabel(t[j].0)
  {
    forall i, j | 0 <= i < j < |t|
      ensures MonthBefore(t[i].0, t[j].0) && MonthLabel(t[i].0) != MonthLabel(t[j].0)
    {
      assert Keys(t)[i] == t[i].0 && Keys(t)[j] == t[j].0;
      MonthPairOrdered(t[i].0, t[j].0);
    }
  }

  /** Two different consistent month keys in `MonthOrder` order are in calendar order
      and carry different labels. */
  lemma {:induction false} MonthPairOrdered(k1: MonthKey, k2: MonthKey)
    requires ConsistentMonth(k1) && ConsistentMonth(k2) && k1 != k2
    requires MonthOrder(k1) <= MonthOrder(k2)
    ensures MonthBefore(k1, k2) && MonthLabel(k1) != MonthLabel(k2)
  {
    MonthOrderBefore(k1, k2);
    if MonthLabel(k1) == MonthLabel(k2) {
      MonthLabelInjective(k1, k2);
    }
  }

  /** The timeline is in strict calendar order and no two of its rows carry the same
      label. */
  lemma {:induction false} MonthlyTimelineOrdered(selectedUser: string, df: seq<Message>)
    ensures var t := GroupCounts(MonthKeys(Scope(selectedUser, df)), MonthOrder);
            forall i, j :: 0 <= i < j < |t| ==> MonthBefore(t[i].0, t[j].0) && MonthLabel(t[i].0) != MonthLabel(t[j].0)
  {
    var ks := MonthKeys(Scope(selectedUser, df));
    forall k | k in ks ensures ConsistentMonth(k) {
      var i :| 0 <= i < |ks| && ks[i] == k;
    }
    GroupedMonthsOrdered(ks);
  }

  // ---------------------------------------------------------------------------
  // daily_timeline (lines 103-107)

  /** The group order of `groupby('date')`. */
  function DateOrder(d: Date): int { d.year * 372 + d.month * 31 + d.day }

  predicate DateBefore(a: Date, b: Date) {
    a.year < b.year || (a.year == b.year && (a.month < b.month || (a.month == b.month && a.day < b.day)))
  }

  lemma {:induction false} DateOrderMonotone(a: Date, b: Date)
    requires DateOrder(a) <= DateOrder(b) && a != b
    ensures DateBefore(a, b)
  {
  }

  /** `daily_timeline`: one row per day with messages, in strict calendar order, with its
      positive number of messages; the numbers add up to the number of selected rows. */
  function DailyTimeline(selectedUser: string, df: seq<Message>): (t: seq<(Date, nat)>)
    ensures forall d :: d in Dates(Scope(selectedUser, df)) <==> d in Keys(t)
    ensures forall i :: 0 <= i < |t| ==> t[i].1 == Count(Dates(Scope(selectedUser, df)), t[i].0) && t[i].1 > 0
    ensures forall i, j :: 0 <= i < j < |t| ==> DateBefore(t[i].0, t[j].0)
    ensures Total(t) == |Scope(selectedUser, df)|
  {
    var t := GroupCounts(Dates(Scope(selectedUser, df)), DateOrder);
    forall i, j | 0 <= i < j < |t| ensures DateBefore(t[i].0, t[j].0) {
      assert Keys(t)[i] != Keys(t)[j];
      DateOrderMonotone(t[i].0, t[j].0);
    }
    t
  }

  // ---------------------------------------------------------------------------
  // week_activity_map and month_activity_map (lines 109-119)

  function DayNamesOf(rows: seq<Message>): (ns: seq<string>)
    ensures |ns| == |rows| && forall i :: 0 <= i < |rows| ==> ns[i] == rows[i].DayName()
  {
    seq(|rows|, i requires 0 <= i < |rows| => rows[i].DayName())
  }

  function MonthNamesOf(rows: seq<Message>): (ns: seq<string>)
    ensures |ns| == |rows| && forall i :: 0 <= i < |rows| ==> ns[i] == rows[i].Month()
  {
    seq(|rows|, i requires 0 <= i < |rows| => rows[i].Month())
  }

  /** `df['day_name'].value_counts()`: the weekdays of the selected messages with their
      numbers of messages, busiest first. */
  function WeekActivityMap(selectedUser: string, df: seq<Message>): (t: seq<(string, nat)>)
    ensures |t| <= 7
    ensures forall i :: 0 <= i < |t| ==> t[i].0 in DayNames
    ensures Distinct(Keys(t))
    ensures forall x :: x in DayNamesOf(Scope(selectedUser, df)) <==> x in Keys(t)
    ensures forall i :: 0 <= i < |t| ==> t[i].1 == Count(DayNamesOf(Scope(selectedUser, df)), t[i].0) && t[i].1 > 0
    ensures forall i, j :: 0 <= i < j < |t| ==> t[i].1 >= t[j].1
    ensures Total(t) == |Scope(selectedUser, df)|
  {
    var ns := DayNamesOf(Scope(selectedUser, df));
    forall x | x in ns ensures x in DayNames {
      var i :| 0 <= i < |ns| && ns[i] == x;
    }
    ValueCountsWithin(ns, DayNames);
    ValueCounts(ns)
  }

  /** `df['month'].value_counts()`: the months of the selected messages with their
      numbers of messages, busiest first. */
  function MonthActivityMap(selectedUser: string, df: seq<Message>): (t: seq<(string, nat)>)
    ensures |t| <= 12
    ensures forall i :: 0 <= i < |t| ==> t[i].0 in MonthNames
    ensures Distinct(Keys(t))
    ensures forall x :: x in MonthNamesOf(Scope(selectedUser, df)) <==> x in Keys(t)
    ensures forall i :: 0 <= i < |t| ==> t[i].1 == Count(MonthNamesOf(Scope(selectedUser, df)), t[i].0) && t[i].1 > 0
    ensures forall i, j :: 0 <= i < j < |t| ==> t[i].1 >= t[j].1
    ensures Total(t) == |Scope(selectedUser, df)|
  {
    var ns := MonthNamesOf(Scope(selectedUser, df));
    forall x | x in ns ensures x in MonthNames {
      var i :| 0 <= i < |ns| && ns[i] == x;
    }
    ValueCountsWithin(ns, MonthNames);
    ValueCounts(ns)
  }

  // ---------------------------------------------------------------------------
  // activity_heatmap (lines 121-145)

  /** The hour bucket of lines 130-135. */
  function PeriodLabel(h: Hour): string {
    if h == 23 then "23-00"
    else if h == 0 then "0-1"
    else NatToString(h) + "-" + NatToString(h + 1)
  }

  /** The categories of lines 139-142, in their order. */
  const PeriodCategories: seq<string> := [
    "0-1", "1-2", "2-3", "3-4", "4-5", "5-6", "6-7", "7-8", "8-9", "9-10",
    "10-11", "11-12", "12-13", "13-14", "14-15", "15-16", "16-17", "17-18",
    "18-19", "19-20", "20-21", "21-22", "22-23", "23-00"]

  lemma {:induction false} PeriodLabelAt0()
    ensures PeriodCategories[0] == PeriodLabel(0)
  {
    assert NatToString(0) == [DigitChar(0)];
    assert NatToString(1) == [DigitChar(1)];
  }

  lemma {:induction false} PeriodLabelAt1()
    ensures PeriodCategories[1] == PeriodLabel(1)
  {
    assert NatToString(1) == [DigitChar(1)];
    assert NatToString(2) == [DigitChar(2)];
  }

  lemma {:induction false} PeriodLabelAt2()
    ensures PeriodCategories[2] == PeriodLabel(2)
  {
    assert NatToString(2) == [DigitChar(2)];
    assert NatToString(3) == [DigitChar(3)];
  }

  lemma {:induction false} PeriodLabelAt3()
    ensures PeriodCategories[3] == PeriodLabel(3)
  {
    assert NatToString(3) == [DigitChar(3)];
    assert NatToString(4) == [DigitChar(4)];
  }

  lemma {:induction false} PeriodLabelAt4()
    ensures PeriodCategories[4] == PeriodLabel(4)
  {
    assert NatToString(4) == [DigitChar(4)];
    assert NatToString(5) == [DigitChar(5)];
  }

  lemma {:induction false} PeriodLabelAt5()
    ensures PeriodCategories[5] == PeriodLabel(5)
  {
    assert NatToString(5) == [DigitChar(5)];
    assert NatToString(6) == [DigitChar(6)];
  }

  lemma {:induction false} PeriodLabelAt6()
    ensures PeriodCategories[6] == PeriodLabel(6)
  {
    assert NatToString(6) == [DigitChar(6)];
    assert NatToString(7) == [DigitChar(7)];
  }

  lemma {:induction false} PeriodLabelAt7()
    ensures PeriodCategories[7] == PeriodLabel(7)
  {
    assert NatToString(7) == [DigitChar(7)];
    assert NatToString(8) == [DigitChar(8)];
  }

  lemma {:induction false} PeriodLabelAt8()
    ensures PeriodCategories[8] == PeriodLabel(8)
  {
    assert NatToString(8) == [DigitChar(8)];
    assert NatToString(9) == [DigitChar(9)];
  }

  lemma {:induction false} PeriodLabelAt9()
    ensures PeriodCategories[9] == PeriodLabel(9)
  {
    assert NatToString(9) == [DigitChar(9)];
    assert NatToString(10) == NatToString(1) + [DigitChar(0)];
  }

  lemma {:induction false} PeriodLabelAt10()
    ensures PeriodCategories[10] == PeriodLabel(10)
  {
    assert NatToString(10) == NatToString(1) + [DigitChar(0)];
    assert NatToString(11) == NatToString(1) + [DigitChar(1)];
  }

  lemma {:induction false} PeriodLabelAt11()
    ensures PeriodCategories[11] == PeriodLabel(11)
  {
    assert NatToString(11) == NatToString(1) + [DigitChar(1)];
    assert NatToString(12) == NatToString(1) + [DigitChar(2)];
  }

  lemma {:induction false} PeriodLabelAt12()
    ensures PeriodCategories[12] == PeriodLabel(12)
  {
    assert NatToString(12) == NatToString(1) + [DigitChar(2)];
    assert NatToString(13) == NatToString(1) + [DigitChar(3)];
  }

  lemma {:induction false} PeriodLabelAt13()
    ensures PeriodCategories[13] == PeriodLabel(13)
  {
    assert NatToString(13) == NatToString(1) + [DigitChar(3)];
    assert NatToString(14) == NatToString(1) + [DigitChar(4)];
  }

  lemma {:induction false} PeriodLabelAt14()
    ensures PeriodCategories[14] == PeriodLabel(14)
  {
    assert NatToString(14) == NatToString(1) + [DigitChar(4)];
    assert NatToString(15) == NatToString(1) + [DigitChar(5)];
  }

  lemma {:induction false} PeriodLabelAt15()
    ensures PeriodCategories[15] == PeriodLabel(15)
  {
    assert NatToString(15) == NatToString(1) + [DigitChar(5)];
    assert NatToString(16) == NatToString(1) + [DigitChar(6)];
  }

  lemma {:induction false} PeriodLabelAt16()
    ensures PeriodCategories[16] == PeriodLabel(16)
  {
    assert NatToString(16) == NatToString(1) + [DigitChar(6)];
    assert NatToString(17) == NatToString(1) + [DigitChar(7)];
  }

  lemma {:induction false} PeriodLabelAt17()
    ensures PeriodCategories[17] == PeriodLabel(17)
  {
    assert NatToString(17) == NatToString(1) + [DigitChar(7)];
    assert NatToString(18) == NatToString(1) + [DigitChar(8)];
  }

  lemma {:induction false} PeriodLabelAt18()
    ensures PeriodCategories[18] == PeriodLabel(18)
  {
    assert NatToString(18) == NatToString(1) + [DigitChar(8)];
    assert NatToString(19) == NatToString(1) + [DigitChar(9)];
  }

  lemma {:induction false} PeriodLabelAt19()
    ensures PeriodCategories[19] == PeriodLabel(19)
  {
    assert NatToString(19) == NatToString(1) + [DigitChar(9)];
    assert NatToString(20) == NatToString(2) + [DigitChar(0)];
  }

  lemma {:induction false} PeriodLabelAt20()
    ensures PeriodCategories[20] == PeriodLabel(20)
  {
    assert NatToString(20) == NatToString(2) + [DigitChar(0)];
    assert NatToString(21) == NatToString(2) + [DigitChar(1)];
  }

  lemma {:induction false} PeriodLabelAt21()
    ensures PeriodCategories[21] == PeriodLabel(21)
  {
    assert NatToString(21) == NatToString(2) + [DigitChar(1)];
    assert NatToString(22) == NatToString(2) + [DigitChar(2)];
  }

  lemma {:induction false} PeriodLabelAt22()
    ensures PeriodCategories[22] == PeriodLabel(22)
  {
    assert NatToString(22) == NatToString(2) + [DigitChar(2)];
    assert NatToString(23) == NatToString(2) + [DigitChar(3)];
  }

  lemma {:induction false} PeriodLabelAt23()
    ensures PeriodCategories[23] == PeriodLabel(23)
  {
    assert NatToString(23) == NatToString(2) + [DigitChar(3)];
  }

  /** Every hour falls in the category at its own position: each label is one of the 24. */
  lemma {:induction false} PeriodLabelIsCategory(h: Hour)
    ensures PeriodCategories[h] == PeriodLabel(h)
  {
    if h < 3 {
      if h == 0 { PeriodLabelAt0(); } else if h == 1 { PeriodLabelAt1(); } else { PeriodLabelAt2(); }
    } else if h < 6 {
      if h == 3 { PeriodLabelAt3(); } else if h == 4 { PeriodLabelAt4(); } else { PeriodLabelAt5(); }
    } else if h < 9 {
      if h == 6 { PeriodLabelAt6(); } else if h == 7 { PeriodLabelAt7(); } else { PeriodLabelAt8(); }
    } else if h < 12 {
      if h == 9 { PeriodLabelAt9(); } else if h == 10 { PeriodLabelAt10(); } else { PeriodLabelAt11(); }
    } else if h < 15 {
      if h == 12 { PeriodLabelAt12(); } else if h == 13 { PeriodLabelAt13(); } else { PeriodLabelAt14(); }
    } else if h < 18 {
      if h == 15 { PeriodLabelAt15(); } else if h == 16 { PeriodLabelAt16(); } else { PeriodLabelAt17(); }
    } else if h < 21 {
      if h == 18 { PeriodLabelAt18(); } else if h == 19 { PeriodLabelAt19(); } else { PeriodLabelAt20(); }
    } else {
      if h == 21 { PeriodLabelAt21(); } else if h == 22 { PeriodLabelAt22(); } else { PeriodLabelAt23(); }
    }
  }

  /** Distinct hours fall in distinct buckets. */
  lemma {:induction false} PeriodLabelInjective(h1: Hour, h2: Hour)
    requires PeriodLabel(h1) == PeriodLabel(h2)
    ensures h1 == h2
  {
    PeriodLabelSplit(h1);
    PeriodLabelSplit(h2);
    SplitAtDash(NatToString(h1), PeriodEnd(h1), NatToString(h2), PeriodEnd(h2));
    NatToStringInjective(h1, h2);
  }

  /** The text after the dash of an hour's bucket. */
  function PeriodEnd(h: Hour): string {
    if h == 23 then "00" else if h == 0 then "1" else NatToString(h + 1)
  }

  /** Every bucket is the hour, a dash and the end of the bucket. */
  lemma {:induction false} PeriodLabelSplit(h: Hour)
    ensures PeriodLabel(h) == NatToString(h) + "-" + PeriodEnd(h)
  {
    if h == 23 {
      LastPeriodSplit();
    } else if h == 0 {
      FirstPeriodSplit();
    }
  }

  lemma {:induction false} LastPeriodSplit()
    ensures PeriodLabel(23) == NatToString(23) + "-" + PeriodEnd(23)
  {
    assert NatToString(23) == NatToString(2) + [DigitChar(3)];
  }

  lemma {:induction false} FirstPeriodSplit()
    ensures PeriodLabel(0) == NatToString(0) + "-" + PeriodEnd(0)
  {
    assert NatToString(0) == [DigitChar(0)];
  }

  function HourOf(m: Message): int { m.Hour() }

  /** The cell of the pivot table a row is counted in: its weekday and its hour bucket. */
  function CellOf(m: Message): (string, string) { (m.DayName(), PeriodLabel(m.Hour())) }

  function Cells(rows: seq<Message>): (cs: seq<(string, string)>)
    ensures |cs| == |rows| && forall i :: 0 <= i < |rows| ==> cs[i] == CellOf(rows[i])
  {
    seq(|rows|, i requires 0 <= i < |rows| => CellOf(rows[i]))
  }

  /** The 7 x 24 cells of the filled pivot table, weekday by weekday. */
  function HeatKeys(): (ks: seq<(string, string)>)
    ensures |ks| == 168
  {
    seq(168, i requires 0 <= i < 168 => (DayNames[i / 24], PeriodCategories[i % 24]))
  }

  /** The loop of lines 129-135: the hour bucket of every row, in order. */
  method PeriodColumn(rows: seq<Message>) returns (period: seq<string>)
    ensures |period| == |rows|
    ensures forall i :: 0 <= i < |rows| ==> period[i] == PeriodLabel(rows[i].Hour())
  {
    period := [];
    var i := 0;
    while i < |rows|
      invariant 0 <= i <= |rows|
      invariant |period| == i
      invariant forall k :: 0 <= k < i ==> period[k] == PeriodLabel(rows[k].Hour())
    {
      var hour := rows[i].Hour();
      var category: string;
      if hour == 23 {
        category := "23-00";
      } else if hour == 0 {
        category := "0-1";
      } else {
        category := NatToString(hour) + "-" + NatToString(hour + 1);
      }
      period := period + [category];
      i := i + 1;
    }
  }

  /** `activity_heatmap`: the rows sorted by hour, the bucket of each, and the number of
      rows in every weekday-and-bucket cell, 0 where there is none. */
  method ActivityHeatmap(selectedUser: string, df: seq<Message>) returns (period: seq<string>, heat: seq<((string, string), nat)>)
    ensures var sorted := SortBy(Scope(selectedUser, df), HourOf);
            && |period| == |sorted|
            && (forall i :: 0 <= i < |sorted| ==> period[i] == PeriodLabel(sorted[i].Hour()))
            && heat == CountTable(HeatKeys(), Cells(sorted))
  {
    var sorted := SortBy(Scope(selectedUser, df), HourOf);
    period := PeriodColumn(sorted);
    heat := CountTable(HeatKeys(), Cells(sorted));
  }

  lemma {:induction false} DayNamesDistinct()
    ensures Distinct(DayNames)
  {
  }

  lemma {:induction false} HeatKeysDistinct()
    ensures Distinct(HeatKeys())
  {
    var ks := HeatKeys();
    DayNamesDistinct();
    forall i, j | 0 <= i < j < 168 ensures ks[i] != ks[j] {
      if ks[i] == ks[j] {
        PeriodLabelIsCategory(i % 24);
        PeriodLabelIsCategory(j % 24);
        PeriodLabelInjective(i % 24, j % 24);
      }
    }
  }

  lemma {:induction false} HeatKeyAt(w: nat, h: Hour)
    requires w < 7
    ensures HeatKeys()[w * 24 + h] == (DayNames[w], PeriodCategories[h])
  {
    var i := w * 24 + h;
    assert i / 24 == w && i % 24 == h;
  }

  /** Every cell a row can fall in is one of the 7 x 24 cells of the table. */
  lemma {:induction false} CellsInHeatKeys(rows: seq<Message>)
    ensures forall c :: c in Cells(rows) ==> c in HeatKeys()
  {
    forall c | c in Cells(rows) ensures c in HeatKeys() {
      var i :| 0 <= i < |rows| && Cells(rows)[i] == c;
      var d := rows[i].msgDate;
      var w := Weekday(d.year, d.month, d.day);
      PeriodLabelIsCategory(d.hour);
      HeatKeyAt(w, d.hour);
    }
  }

  /** Every row lands in exactly one cell of the heat map: the sorted rows are the
      selected rows in order of hour, and the cells add up to the number of selected
      rows. */
  lemma {:induction false} HeatmapTotals(selectedUser: string, df: seq<Message>)
    ensures var sorted := SortBy(Scope(selectedUser, df), HourOf);
            && multiset(sorted) == multiset(Scope(selectedUser, df))
            && SortedBy(sorted, HourOf)
            && Total(CountTable(HeatKeys(), Cells(sorted))) == |Scope(selectedUser, df)|
  {
    var sorted := SortBy(Scope(selectedUser, df), HourOf);
    SortBySorted(Scope(selectedUser, df), HourOf);
    HeatKeysDistinct();
    CellsInHeatKeys(sorted);
    TotalCovers(HeatKeys(), Cells(sorted));
  }

  // ---------------------------------------------------------------------------
  // emoji_helper (lines 147-190)

  /** The `emojis` list of lines 150-153: the emoji characters of every row, in order. */
  function AllEmojis(rows: seq<Message>): string {
    if rows == [] then []
    else
      var e := rows[|rows| - 1].emoji;
      AllEmojis(rows[..|rows| - 1]) + (if e != "" then e else [])
  }

  predicate HasEmoji(m: Message) { m.emoji != "" }

  datatype Sentiment = Positive | Neutral | Negative

  /** The table of lines 160-181, in source order. Five keys are two or three code
      points long (a base emoji with U+FE0F, or a sequence joined by U+200D). */
  const SentimentPairs: seq<(string, Sentiment)> := [
    ("\U{1F600}", Positive), ("\U{1F603}", Positive), ("\U{1F604}", Positive), ("\U{1F601}", Positive),
    ("\U{1F606}", Positive), ("\U{1F605}", Positive), ("\U{1F602}", Positive), ("\U{1F923}", Positive),
    ("\U{1F60A}", Positive), ("\U{1F607}", Positive), ("\U{1F60D}", Positive), ("\U{1F618}", Positive),
    ("\U{1F61A}", Positive), ("\U{1F60B}", Positive), ("\U{1F61C}", Positive), ("\U{1F60E}", Positive),
    ("\U{1F929}", Positive), ("\U{1F973}", Positive), ("\U{1F917}", Positive), ("\U{1F496}", Positive),
    ("\U{1F493}", Positive), ("\U{1F495}", Positive), ("\U{1F49E}", Positive), ("\U{1F49D}", Positive),
    ("\U{1F499}", Positive), ("\U{1F49A}", Positive), ("\U{1F49B}", Positive), ("\U{1F49C}", Positive),
    ("\U{2764}\U{FE0F}", Positive), ("\U{1F9E1}", Positive), ("\U{1F497}", Positive), ("\U{1F389}", Positive),
    ("\U{1F38A}", Positive), ("\U{1F970}", Positive), ("\U{1F63B}", Positive), ("\U{1F44D}", Positive),
    ("\U{1F64F}", Positive), ("\U{2728}", Positive), ("\U{1F31F}", Positive), ("\U{1F979}", Positive),
    ("\U{1F525}", Positive), ("\U{1F4AA}", Positive), ("\U{1F984}", Positive), ("\U{1F33B}", Positive),
    ("\U{1F33C}", Positive), ("\U{1F973}", Positive), ("\U{1F340}", Positive), ("\U{1F388}", Positive),
    ("\U{1F370}", Positive), ("\U{1F48C}", Positive), ("\U{1F9C1}", Positive), ("\U{2600}\U{FE0F}", Positive),
    ("\U{1F30A}", Positive), ("\U{1F972}", Positive), ("\U{1F61E}", Negative), ("\U{1F614}", Negative),
    ("\U{1F61F}", Negative), ("\U{1F615}", Negative), ("\U{1F641}", Negative), ("\U{2639}\U{FE0F}", Negative),
    ("\U{1F623}", Negative), ("\U{1F616}", Negative), ("\U{1F62B}", Negative), ("\U{1F629}", Negative),
    ("\U{1F62D}", Negative), ("\U{1F622}", Negative), ("\U{1F628}", Negative), ("\U{1F630}", Negative),
    ("\U{1F631}", Negative), ("\U{1F621}", Negative), ("\U{1F620}", Negative), ("\U{1F92C}", Negative),
    ("\U{1F47F}", Negative), ("\U{1F624}", Negative), ("\U{1F613}", Negative), ("\U{1F912}", Negative),
    ("\U{1F915}", Negative), ("\U{1F975}", Negative), ("\U{1F976}", Negative), ("\U{1F633}", Negative),
    ("\U{1F616}", Negative), ("\U{1F494}", Negative), ("\U{1F480}", Negative), ("\U{2620}\U{FE0F}", Negative),
    ("\U{1F44E}", Negative), ("\U{1F635}", Negative), ("\U{1F627}", Negative), ("\U{1F922}", Negative),
    ("\U{1F92E}", Negative), ("\U{1F927}", Negative), ("\U{1F62C}", Negative), ("\U{1F631}", Negative),
    ("\U{1F635}\U{200D}\U{1F4AB}", Negative), ("\U{1F97A}", Negative), ("\U{1F627}", Negative), ("\U{1F5A4}", Negative),
    ("\U{1F4A9}", Negative), ("\U{1F63F}", Negative), ("\U{1F624}", Negative)
  ]
  /** `dict.get(key, default)` on a dictionary written with repeated keys: the last
      binding of a key wins. */
  function Lookup(pairs: seq<(string, Sentiment)>, key: string, default: Sentiment): Sentiment {
    if pairs == [] then default
    else if pairs[|pairs| - 1].0 == key then pairs[|pairs| - 1].1
    else Lookup(pairs[..|pairs| - 1], key, default)
  }

  /** Line 186 for one emoji character. */
  function SentimentOf(c: char): Sentiment { Lookup(SentimentPairs, [c], Neutral) }

  /** The pairs whose key is a single character. */
  function SingleCharPairs(pairs: seq<(string, Sentiment)>): (r: seq<(string, Sentiment)>)
    ensures forall i :: 0 <= i < |r| ==> |r[i].0| == 1
  {
    if pairs == [] then []
    else
      var init := SingleCharPairs(pairs[..|pairs| - 1]);
      if |pairs[|pairs| - 1].0| == 1 then init + [pairs[|pairs| - 1]] else init
  }

  /** Looking up one character never reaches a key of several code points: the table
      behaves as if those entries were not there. */
  lemma {:induction false} MultiCodePointKeysUnreachable(pairs: seq<(string, Sentiment)>, c: char, default: Sentiment)
    ensures Lookup(pairs, [c], default) == Lookup(SingleCharPairs(pairs), [c], default)
  {
    if pairs != [] {
      var init := pairs[..|pairs| - 1];
      MultiCodePointKeysUnreachable(init, c, default);
      if |pairs[|pairs| - 1].0| == 1 {
        var r := SingleCharPairs(init) + [pairs[|pairs| - 1]];
        assert r[..|r| - 1] == SingleCharPairs(init);
      }
    }
  }

    /** A tally that has the three named keys has every sentiment as a key. */
  lemma {:induction false} EverySentimentIn(t: map<Sentiment, nat>)
    requires Positive in t && Neutral in t && Negative in t
    ensures forall s: Sentiment :: s in t
  {
    forall s: Sentiment ensures s in t {
      match s {
        case Positive =>
        case Neutral =>
        case Negative =>
      }
    }
  }

  /** A sentiment count over `emojis`, each emoji classified by `f`. */
  function TallyBy(emojis: string, f: char -> Sentiment): (t: map<Sentiment, nat>)
    ensures Positive in t && Neutral in t && Negative in t
  {
    if emojis == [] then map[Positive := 0, Neutral := 0, Negative := 0]
    else
      var t := TallyBy(emojis[..|emojis| - 1], f);
      var s := f(emojis[|emojis| - 1]);
      EverySentimentIn(t);
      t[s := t[s] + 1]
  }

  /** The classification of each emoji by `f`, in order. */
  function SentimentsBy(emojis: string, f: char -> Sentiment): (ss: seq<Sentiment>)
    ensures |ss| == |emojis| && forall k :: 0 <= k < |emojis| ==> ss[k] == f(emojis[k])
  {
    seq(|emojis|, k requires 0 <= k < |emojis| => f(emojis[k]))
  }

  lemma {:induction false} TallyByCount(emojis: string, f: char -> Sentiment, x: Sentiment)
    ensures x in TallyBy(emojis, f) && TallyBy(emojis, f)[x] == Count(SentimentsBy(emojis, f), x)
  {
    EverySentimentIn(TallyBy(emojis, f));
    if emojis != [] {
      var init := emojis[..|emojis| - 1];
      var e := emojis[|emojis| - 1];
      TallyByCount(init, f, x);
      SentimentsBySnoc(emojis, f);
      CountAppend(SentimentsBy(init, f), [f(e)], x);
      TallyBySnoc(emojis, f, x);
    }
  }

  lemma {:induction false} SentimentsBySnoc(emojis: string, f: char -> Sentiment)
    requires emojis != []
    ensures SentimentsBy(emojis, f) == SentimentsBy(emojis[..|emojis| - 1], f) + [f(emojis[|emojis| - 1])]
  {
    var init := emojis[..|emojis| - 1];
    var e := emojis[|emojis| - 1];
    assert emojis == init + [e];
    PointwiseAppend(init, [e], SentimentsBy(emojis, f), SentimentsBy(init, f), [f(e)], f);
  }

  lemma {:induction false} TallyBySnoc(emojis: string, f: char -> Sentiment, x: Sentiment)
    requires emojis != []
    ensures x in TallyBy(emojis[..|emojis| - 1], f)
    ensures TallyBy(emojis, f)[x] == TallyBy(emojis[..|emojis| - 1], f)[x] + Count([f(emojis[|emojis| - 1])], x)
  {
    var t := TallyBy(emojis[..|emojis| - 1], f);
    EverySentimentIn(t);
    TallyStep(t, f(emojis[|emojis| - 1]), x);
  }

  /** Counting one more emoji of sentiment `s` adds one to the count of `s` only. */
  lemma {:induction false} TallyStep(t: map<Sentiment, nat>, s: Sentiment, x: Sentiment)
    requires s in t && x in t
    ensures t[s := t[s] + 1][x] == t[x] + Count([s], x)
  {
  }

  /** Every classified emoji is counted under exactly one of the three sentiments. */
  lemma {:induction false} SentimentCountsSum(ss: seq<Sentiment>)
    ensures Count(ss, Positive) + Count(ss, Neutral) + Count(ss, Negative) == |ss|
  {
    if ss != [] {
      SentimentCountsSum(ss[1..]);
      match ss[0] {
        case Positive =>
        case Neutral =>
        case Negative =>
      }
    }
  }

  lemma {:induction false} TallyByCounts(emojis: string, f: char -> Sentiment)
    ensures TallyBy(emojis, f)[Positive] == Count(SentimentsBy(emojis, f), Positive)
    ensures TallyBy(emojis, f)[Neutral] == Count(SentimentsBy(emojis, f), Neutral)
    ensures TallyBy(emojis, f)[Negative] == Count(SentimentsBy(emojis, f), Negative)
    ensures TallyBy(emojis, f)[Positive] + TallyBy(emojis, f)[Neutral] + TallyBy(emojis, f)[Negative] == |emojis|
  {
    TallyByCount(emojis, f, Positive);
    TallyByCount(emojis, f, Neutral);
    TallyByCount(emojis, f, Negative);
    var ss := SentimentsBy(emojis, f);
    CountsAddUp(TallyBy(emojis, f), ss);
    assert |ss| == |emojis|;
  }

  lemma {:induction false} CountsAddUp(t: map<Sentiment, nat>, ss: seq<Sentiment>)
    requires Positive in t && Neutral in t && Negative in t
    requires t[Positive] == Count(ss, Positive) && t[Neutral] == Count(ss, Neutral)
    requires t[Negative] == Count(ss, Negative)
    ensures t[Positive] + t[Neutral] + t[Negative] == |ss|
  {
    SentimentCountsSum(ss);
  }

  /** The `sentiment_count` dictionary after the loop of lines 185-187 has seen `emojis`. */
  function Tally(emojis: string): map<Sentiment, nat> { TallyBy(emojis, SentimentOf) }

  /** The sentiment of each emoji, in order. */
  function Sentiments(emojis: string): seq<Sentiment> { SentimentsBy(emojis, SentimentOf) }

  /** Each count of the tally is the number of emojis with that sentiment, and the three
      counts add up to the number of emojis. */
  lemma {:induction false} TallyCounts(emojis: string)
    ensures Tally(emojis)[Positive] == Count(Sentiments(emojis), Positive)
    ensures Tally(emojis)[Neutral] == Count(Sentiments(emojis), Neutral)
    ensures Tally(emojis)[Negative] == Count(Sentiments(emojis), Negative)
    ensures Tally(emojis)[Positive] + Tally(emojis)[Neutral] + Tally(emojis)[Negative] == |emojis|
  {
    TallyByCounts(emojis, SentimentOf);
  }

  /** `Counter(emojis).most_common(...)[:51]`: at most 51 rows, not 50. */
  function TopEmojis(emojis: string): (t: seq<(char, nat)>)
    ensures |t| <= 51
    ensures |t| == Min(51, |ValueCounts(emojis)|)
    ensures forall i :: 0 <= i < |t| ==> t[i] == ValueCounts(emojis)[i]
    ensures Distinct(Keys(t))
    ensures forall i :: 0 <= i < |t| ==> t[i].1 == Count(emojis, t[i].0) && t[i].1 > 0
    ensures forall i, j :: 0 <= i < j < |t| ==> t[i].1 >= t[j].1
    ensures forall i, j :: 0 <= i < j < |t| && t[i].1 == t[j].1 ==> FirstIndex(emojis, t[i].0) < FirstIndex(emojis, t[j].0)
  {
    TopRows(emojis, 51)
  }

  /** The loop of lines 150-153. */
  method CollectEmojis(rows: seq<Message>) returns (emojis: string)
    ensures emojis == AllEmojis(rows)
  {
    emojis := [];
    var i := 0;
    while i < |rows|
      invariant 0 <= i <= |rows|
      invariant emojis == AllEmojis(rows[..i])
    {
      assert rows[..i + 1][..i] == rows[..i];
      var e := rows[i].emoji;
      if e != "" {
        emojis := emojis + e;
      }
      i := i + 1;
    }
    assert rows[..i] == rows;
  }

  /** The loop of lines 184-187. */
  method CountSentiments(emojis: string) returns (sentimentCount: map<Sentiment, nat>)
    ensures sentimentCount == Tally(emojis)
  {
    sentimentCount := map[Positive := 0, Neutral := 0, Negative := 0];
    var i := 0;
    while i < |emojis|
      invariant 0 <= i <= |emojis|
      invariant sentimentCount == Tally(emojis[..i])
    {
      assert emojis[..i + 1][..i] == emojis[..i];
      var sentiment := Lookup(SentimentPairs, [emojis[i]], Neutral);
      assert sentiment == SentimentOf(emojis[i]);
      EverySentimentIn(sentimentCount);
      sentimentCount := sentimentCount[sentiment := sentimentCount[sentiment] + 1];
      i := i + 1;
    }
    assert emojis[..i] == emojis;
  }

  /** `emoji_helper`: the emoji frequency table, the number of rows with and without
      emojis, and the sentiment tally. */
  method EmojiHelper(selectedUser: string, df: seq<Message>)
    returns (emojiTable: seq<(char, nat)>, sizes: seq<nat>, sentimentCount: map<Sentiment, nat>)
    ensures var rows := Scope(selectedUser, df);
            && emojiTable == TopEmojis(AllEmojis(rows))
            && |sizes| == 2 && sizes[0] == |Filter(rows, HasEmoji)| && sizes[0] + sizes[1] == |rows|
            && sentimentCount == Tally(AllEmojis(rows))
  {
    var rows := Scope(selectedUser, df);
    var emojis := CollectEmojis(rows);
    var messagesWithEmoji := |Filter(rows, HasEmoji)|;
    var messagesWithoutEmoji := |rows| - messagesWithEmoji;
    sizes := [messagesWithEmoji, messagesWithoutEmoji];
    sentimentCount := CountSentiments(emojis);
    emojiTable := TopEmojis(emojis);
  }

  /** Every row with an emoji contributes at least one emoji character. */
  lemma {:induction false} EmojiRowsBound(rows: seq<Message>)
    ensures |Filter(rows, HasEmoji)| <= |AllEmojis(rows)|
  {
    if rows != [] {
      var init := rows[..|rows| - 1];
      var last := rows[|rows| - 1];
      EmojiRowsBound(init);
      assert rows == init + [last];
      FilterAppend(init, [last], HasEmoji);
    }
  }

  predicate EmojiChars(e: string, emojiData: set<string>) {
    forall k :: 0 <= k < |e| ==> IsEmojiChar(e[k], emojiData)
  }

  /** Rows whose emoji columns hold emoji characters only list emoji characters. */
  lemma {:induction false} EmojiCharsValid(rows: seq<Message>, emojiData: set<string>)
    requires forall j :: 0 <= j < |rows| ==> EmojiChars(rows[j].emoji, emojiData)
    ensures EmojiChars(AllEmojis(rows), emojiData)
  {
    if rows != [] {
      var init := rows[..|rows| - 1];
      var last := rows[|rows| - 1];
      assert EmojiChars(last.emoji, emojiData);
      assert forall j :: 0 <= j < |init| ==> init[j] == rows[j];
      EmojiCharsValid(init, emojiData);
      var a := AllEmojis(rows);
      var ai := AllEmojis(init);
      assert a == ai + last.emoji;
      forall k | 0 <= k < |a| ensures IsEmojiChar(a[k], emojiData) {
        if k >= |ai| {
          assert a[k] == last.emoji[k - |ai|];
        } else {
          assert a[k] == ai[k];
        }
      }
    }
  }

  /** On a table built by `preprocess`, the rows with emojis are at most as many as the
      emoji characters, and every listed emoji is an emoji character. */
  lemma {:induction false} EmojiSizes(rows: seq<Message>, emojiData: set<string>)
    requires forall m :: m in rows ==> WellFormed(m, emojiData)
    ensures |Filter(rows, HasEmoji)| <= |AllEmojis(rows)|
    ensures forall k :: 0 <= k < |AllEmojis(rows)| ==> IsEmojiChar(AllEmojis(rows)[k], emojiData)
  {
    EmojiRowsBound(rows);
    forall j | 0 <= j < |rows| ensures EmojiChars(rows[j].emoji, emojiData) {
      assert rows[j] in rows;
    }
    EmojiCharsValid(rows, emojiData);
  }

  // ---------------------------------------------------------------------------
  // create_wordcloud's input (line 64)

  /** `''.join(df['clean_message'])` over the selection. */
  function WordCloudText(rows: seq<Message>): string {
    if rows == [] then [] else WordCloudText(rows[..|rows| - 1]) + rows[|rows| - 1].cleanMessage
  }

  /** A character the word cloud may show for `rows`: a space, or a character of one of
      the messages that is neither a blank nor an emoji. */
  predicate CloudChar(c: char, rows: seq<Message>, emojiData: set<string>) {
    c == ' ' || (!IsSpace(c) && !IsEmojiChar(c, emojiData) && exists m :: m in rows && c in m.message)
  }

  /** On a table built by `preprocess`, the word-cloud text holds only spaces and
      characters of the messages that are neither blanks nor emojis. */
  lemma {:induction false} WordCloudChars(rows: seq<Message>, emojiData: set<string>)
    requires forall m :: m in rows ==> WellFormed(m, emojiData)
    ensures forall k :: 0 <= k < |WordCloudText(rows)| ==> CloudChar(WordCloudText(rows)[k], rows, emojiData)
  {
    if rows != [] {
      var init := rows[..|rows| - 1];
      var last := rows[|rows| - 1];
      assert last in rows;
      assert forall m :: m in init ==> m in rows;
      WordCloudChars(init, emojiData);
      CloudCharsWiden(WordCloudText(init), init, rows, emojiData);
      CleanCloudChars(last, rows, emojiData);
      CloudCharsAppend(WordCloudText(init), last.cleanMessage, rows, emojiData);
    }
  }

  /** The text of a message once emojis, system markers and links are deleted, before
      its whitespace is normalised. */
  function Stripped(m: Message, emojiData: set<string>): string {
    RemoveUrls(RemoveMarkers(RemoveEmoji(m.message, emojiData)))
  }

  /** Those texts of all the rows, one after the other. */
  function AllStripped(rows: seq<Message>, emojiData: set<string>): string {
    if rows == [] then [] else AllStripped(rows[..|rows| - 1], emojiData) + Stripped(rows[|rows| - 1], emojiData)
  }

  /** On a table built by `preprocess`, the word-cloud text loses only whitespace: its
      non-space characters are those of the messages with emojis, markers and links
      deleted, in order. */
  lemma {:induction false} WordCloudKeepsText(rows: seq<Message>, emojiData: set<string>)
    requires forall m :: m in rows ==> WellFormed(m, emojiData)
    ensures NonSpace(WordCloudText(rows)) == NonSpace(AllStripped(rows, emojiData))
  {
    if rows != [] {
      var init := rows[..|rows| - 1];
      var last := rows[|rows| - 1];
      assert last in rows;
      assert forall m :: m in init ==> m in rows;
      WordCloudKeepsText(init, emojiData);
      NonSpaceAppend(WordCloudText(init), last.cleanMessage);
      NonSpaceAppend(AllStripped(init, emojiData), Stripped(last, emojiData));
    }
  }

  lemma {:induction false} CloudCharsWiden(cs: string, init: seq<Message>, rows: seq<Message>, emojiData: set<string>)
    requires forall m :: m in init ==> m in rows
    requires forall k :: 0 <= k < |cs| ==> CloudChar(cs[k], init, emojiData)
    ensures forall k :: 0 <= k < |cs| ==> CloudChar(cs[k], rows, emojiData)
  {
    forall k | 0 <= k < |cs| ensures CloudChar(cs[k], rows, emojiData) {
      if cs[k] != ' ' {
        var m :| m in init && cs[k] in m.message;
        assert m in rows;
      }
    }
  }

  lemma {:induction false} CleanCloudChars(m: Message, rows: seq<Message>, emojiData: set<string>)
    requires m in rows && WellFormed(m, emojiData)
    ensures forall k :: 0 <= k < |m.cleanMessage| ==> CloudChar(m.cleanMessage[k], rows, emojiData)
  {
  }

  lemma {:induction false} CloudCharsAppend(a: string, b: string, rows: seq<Message>, emojiData: set<string>)
    requires forall k :: 0 <= k < |a| ==> CloudChar(a[k], rows, emojiData)
    requires forall k :: 0 <= k < |b| ==> CloudChar(b[k], rows, emojiData)
    ensures forall k :: 0 <= k < |a + b| ==> CloudChar((a + b)[k], rows, emojiData)
  {
    forall k | 0 <= k < |a + b| ensures CloudChar((a + b)[k], rows, emojiData) {
      if k < |a| {
        assert (a + b)[k] == a[k];
      } else {
        assert (a + b)[k] == b[k - |a|];
      }
    }
  }
}
