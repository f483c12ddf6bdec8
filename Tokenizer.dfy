/** Splitting an exported chat into message blocks (preprocessor.py, lines 15-36):
    newline removal, the timestamp-boundary pattern, `re.findall` and `re.split`
    over it, and the split of each block into sender and message. */
module Tokenizer {
  import opened Text
  import opened Results

  /** Sender recorded for blocks without a `name: ` prefix (joins, leaves, ...). */
  const GroupNotifications: string := "group_notifications"

  /** `data.replace("\n", "")`. */
  function RemoveNewlines(s: string): (r: string)
    ensures '\n' !in r
    ensures |r| == |s| - multiset(s)['\n']
    ensures forall c :: c != '\n' ==> multiset(r)[c] == multiset(s)[c]
    ensures Subsequence(r, s)
  {
    if s == [] then []
    else
      assert s == [s[0]] + s[1..];
      var rest := RemoveNewlines(s[1..]);
      if s[0] == '\n' then
        assert [] + rest == rest;
        rest
      else
        SubsequenceCons(s[0], rest, s[1..]);
        [s[0]] + rest
  }

  // ---------------------------------------------------------------------------
  // The boundary pattern
  //   \d{2}\/\d{2}\/(?:\d{2}|\d{4}),\s\d{1,2}:\d{2}(?:\u202f(?:am|pm))?\s\-

  predicate DigitsAt(s: string, i: nat, n: nat) {
    i + n <= |s| && forall k {:trigger IsDigit(s[k])} :: i <= k < i + n ==> IsDigit(s[k])
  }

  /** Digits inside a prefix are digits of the prefix. */
  lemma {:induction false} DigitsInPrefix(s: string, n: nat, i: nat, m: nat)
    requires DigitsAt(s, i, m) && i + m <= n <= |s|
    ensures DigitsAt(s[..n], i, m)
  {
    forall k | i <= k < i + m ensures IsDigit(s[..n][k]) {
      assert s[..n][k] == s[k];
    }
  }

  /** Digits inside a slice are digits of the slice, `a` places earlier. */
  lemma {:induction false} DigitsInSlice(s: string, a: nat, b: nat, off: nat, m: nat)
    requires a <= b <= |s| && off + m <= b - a && DigitsAt(s, a + off, m)
    ensures DigitsAt(s[a..b], off, m)
  {
    forall k | off <= k < off + m ensures IsDigit(s[a..b][k]) {
      assert s[a..b][k] == s[a + k];
      assert IsDigit(s[a + off + (k - off)]);
    }
  }

  predicate CharAt(s: string, i: nat, c: char) { i < |s| && s[i] == c }

  predicate SpaceAt(s: string, i: nat) { i < |s| && IsSpace(s[i]) }

  /** Digits matched by `(?:\d{2}|\d{4}),` at `i` (the comma excluded), or 0. */
  function YearDigits(s: string, i: nat): (n: nat)
    ensures n == 0 || n == 2 || n == 4
    ensures n > 0 ==> DigitsAt(s, i, n) && CharAt(s, i + n, ',')
  {
    if DigitsAt(s, i, 2) && CharAt(s, i + 2, ',') then 2
    else if DigitsAt(s, i, 4) && CharAt(s, i + 4, ',') then 4
    else 0
  }

  /** Digits matched by `\d{1,2}:` at `i` (the colon excluded), or 0. */
  function HourDigits(s: string, i: nat): (n: nat)
    ensures n <= 2
    ensures n > 0 ==> DigitsAt(s, i, n) && CharAt(s, i + n, ':')
    ensures n == 0 ==> !(DigitsAt(s, i, 1) && CharAt(s, i + 1, ':'))
  {
    if DigitsAt(s, i, 2) && CharAt(s, i + 2, ':') then 2
    else if DigitsAt(s, i, 1) && CharAt(s, i + 1, ':') then 1
    else 0
  }

  /** Length matched by `(?:\u202f(?:am|pm))?\s\-` at `i`, or 0. */
  function TailLength(s: string, i: nat): (n: nat)
    ensures n == 0 || n == 2 || n == 5
    ensures n > 0 ==> i + n <= |s| && IsSpace(s[i + n - 2]) && s[i + n - 1] == '-'
  {
    if CharAt(s, i, '\U{202F}') && (StartsAt(s, i + 1, "am") || StartsAt(s, i + 1, "pm"))
       && SpaceAt(s, i + 3) && CharAt(s, i + 4, '-')
    then 5
    else if SpaceAt(s, i) && CharAt(s, i + 1, '-') then 2
    else 0
  }

  /** Length of the boundary match starting at `i`, if the pattern matches there. */
  function MatchAt(s: string, i: nat): (r: Option<nat>)
    ensures r.Some? ==> 16 <= r.value && i + r.value <= |s|
  {
    if !(DigitsAt(s, i, 2) && CharAt(s, i + 2, '/') && DigitsAt(s, i + 3, 2) && CharAt(s, i + 5, '/')) then None
    else
      var y := YearDigits(s, i + 6);
      if y == 0 || !SpaceAt(s, i + 7 + y) then None
      else
        var h := HourDigits(s, i + 8 + y);
        if h == 0 || !DigitsAt(s, i + 9 + y + h, 2) then None
        else
          var t := TailLength(s, i + 11 + y + h);
          if t == 0 then None else Some(11 + y + h + t)
  }

  // ---------------------------------------------------------------------------
  // re.findall and re.split: leftmost, non-overlapping, left to right

  /** `re.findall(pattern, s[i..])`. */
  function FindAllFrom(s: string, i: nat): seq<string>
    decreases |s| - i
  {
    if i >= |s| then []
    else
      match MatchAt(s, i)
      case Some(n) => [s[i..i + n]] + FindAllFrom(s, i + n)
      case None => FindAllFrom(s, i + 1)
  }

  /** `re.split(pattern, ...)` of the text from `start`, where the scan has reached `i`. */
  function SplitFrom(s: string, start: nat, i: nat): (pieces: seq<string>)
    requires start <= i <= |s|
    ensures |pieces| >= 1
    decreases |s| - i
  {
    if i == |s| then [s[start..]]
    else
      match MatchAt(s, i)
      case Some(n) => [s[start..i]] + SplitFrom(s, i + n, i + n)
      case None => SplitFrom(s, start, i + 1)
  }

  /** `re.findall(pattern, s)`: the timestamps. */
  function FindAll(s: string): seq<string> { FindAllFrom(s, 0) }

  /** `re.split(pattern, s)`: the text before the first timestamp, then one body per timestamp. */
  function ReSplit(s: string): (pieces: seq<string>)
    ensures |pieces| >= 1
  {
    SplitFrom(s, 0, 0)
  }

  lemma {:induction false} SplitMatchStep(s: string, start: nat, i: nat, n: nat)
    requires start <= i < |s| && MatchAt(s, i) == Some(n)
    ensures SplitFrom(s, start, i) == [s[start..i]] + SplitFrom(s, i + n, i + n)
  {
  }

  lemma {:induction false} FindMatchStep(s: string, i: nat, n: nat)
    requires i < |s| && MatchAt(s, i) == Some(n)
    ensures FindAllFrom(s, i) == [s[i..i + n]] + FindAllFrom(s, i + n)
  {
  }

  /** One step of the scan at a position where a timestamp starts. */
  lemma {:induction false} ScanMatch(s: string, start: nat, i: nat, n: nat)
    requires start <= i < |s| && MatchAt(s, i) == Some(n)
    ensures SplitFrom(s, start, i) == [s[start..i]] + SplitFrom(s, i + n, i + n)
    ensures FindAllFrom(s, i) == [s[i..i + n]] + FindAllFrom(s, i + n)
  {
    SplitMatchStep(s, start, i, n);
    FindMatchStep(s, i, n);
  }

  /** One step of the scan at a position where no timestamp starts. */
  lemma {:induction false} ScanNoMatch(s: string, start: nat, i: nat)
    requires start <= i < |s| && MatchAt(s, i).None?
    ensures SplitFrom(s, start, i) == SplitFrom(s, start, i + 1)
    ensures FindAllFrom(s, i) == FindAllFrom(s, i + 1)
  {
  }

  lemma {:induction false} SplitFromCount(s: string, start: nat, i: nat)
    requires start <= i <= |s|
    ensures |SplitFrom(s, start, i)| == |FindAllFrom(s, i)| + 1
    decreases |s| - i
  {
    if i < |s| {
      var m := MatchAt(s, i);
      if m.Some? {
        ScanMatch(s, start, i, m.value);
        SplitFromCount(s, i + m.value, i + m.value);
      } else {
        ScanNoMatch(s, start, i);
        SplitFromCount(s, start, i + 1);
      }
    } else {
      ScanEnd(s, start);
    }
  }

  /** The scan ends with the rest of the text as the last piece. */
  lemma {:induction false} ScanEnd(s: string, start: nat)
    requires start <= |s|
    ensures SplitFrom(s, start, |s|) == [s[start..]] && FindAllFrom(s, |s|) == []
  {
  }

  /** There is one message body per timestamp. */
  lemma {:induction false} SplitCount(s: string)
    ensures |ReSplit(s)| == |FindAll(s)| + 1
  {
    SplitFromCount(s, 0, 0);
  }

  /** Each timestamp followed by its body, in order. */
  function Interleave(stamps: seq<string>, bodies: seq<string>): string
    requires |stamps| == |bodies|
  {
    if stamps == [] then [] else stamps[0] + bodies[0] + Interleave(stamps[1..], bodies[1..])
  }

  lemma {:induction false} InterleaveCons(t: string, f: seq<string>, p: seq<string>)
    requires |p| == |f| + 1
    ensures Interleave([t] + f, p) == t + (p[0] + Interleave(f, p[1..]))
  {
    assert ([t] + f)[0] == t && ([t] + f)[1..] == f;
  }

  lemma {:induction false} SliceThree(s: string, start: nat, i: nat, j: nat)
    requires start <= i <= j <= |s|
    ensures s[start..] == s[start..i] + (s[i..j] + s[j..])
  {
    assert s[i..] == s[i..j] + s[j..];
    assert s[start..] == s[start..i] + s[i..];
  }

  /** A timestamp at `i` and the round trip of the text after it give the round trip
      of the text from `start`. */
  lemma {:induction false} RoundTripStep(s: string, start: nat, i: nat, n: nat, p: seq<string>, f: seq<string>)
    requires start <= i <= i + n <= |s| && |p| == |f| + 1
    requires s[i + n..] == p[0] + Interleave(f, p[1..])
    ensures s[start..] == ([s[start..i]] + p)[0] + Interleave([s[i..i + n]] + f, ([s[start..i]] + p)[1..])
  {
    InterleaveCons(s[i..i + n], f, p);
    SliceThree(s, start, i, i + n);
    assert ([s[start..i]] + p)[1..] == p;
  }

  /** The round trip of the text from `start`, the scan having reached `i`. */
  predicate RoundTrips(s: string, start: nat, i: nat)
    requires start <= i <= |s|
  {
    |SplitFrom(s, start, i)| == |FindAllFrom(s, i)| + 1
    && s[start..] == SplitFrom(s, start, i)[0] + Interleave(FindAllFrom(s, i), SplitFrom(s, start, i)[1..])
  }

  lemma {:induction false} RoundTripMatch(s: string, start: nat, i: nat, n: nat)
    requires start <= i < |s| && MatchAt(s, i) == Some(n)
    requires RoundTrips(s, i + n, i + n)
    ensures RoundTrips(s, start, i)
  {
    ScanMatch(s, start, i, n);
    RoundTripStep(s, start, i, n, SplitFrom(s, i + n, i + n), FindAllFrom(s, i + n));
  }

  lemma {:induction false} RoundTripNoMatch(s: string, start: nat, i: nat)
    requires start <= i < |s| && MatchAt(s, i).None?
    requires RoundTrips(s, start, i + 1)
    ensures RoundTrips(s, start, i)
  {
    ScanNoMatch(s, start, i);
  }

  lemma {:induction false} SplitFromRoundTrip(s: string, start: nat, i: nat)
    requires start <= i <= |s|
    ensures |SplitFrom(s, start, i)| == |FindAllFrom(s, i)| + 1
    ensures s[start..] == SplitFrom(s, start, i)[0] + Interleave(FindAllFrom(s, i), SplitFrom(s, start, i)[1..])
    decreases |s| - i
  {
    if i == |s| {
      assert SplitFrom(s, start, i) == [s[start..]] && FindAllFrom(s, i) == [];
    } else if MatchAt(s, i).Some? {
      var n := MatchAt(s, i).value;
      SplitFromRoundTrip(s, i + n, i + n);
      RoundTripMatch(s, start, i, n);
    } else {
      SplitFromRoundTrip(s, start, i + 1);
      RoundTripNoMatch(s, start, i);
    }
  }

  /** Nothing is lost by the split: the discarded prefix, then every timestamp
      followed by its body, give back the (newline-free) text. */
  lemma {:induction false} SplitRoundTrip(s: string)
    ensures |ReSplit(s)| == |FindAll(s)| + 1
    ensures s == ReSplit(s)[0] + Interleave(FindAll(s), ReSplit(s)[1..])
  {
    SplitFromRoundTrip(s, 0, 0);
  }

  lemma {:induction false} SplitFromPrefixUnmatched(s: string, start: nat, i: nat)
    requires start <= i <= |s|
    requires forall k :: start <= k < i ==> MatchAt(s, k).None?
    ensures start + |SplitFrom(s, start, i)[0]| <= |s|
    ensures forall k :: start <= k < start + |SplitFrom(s, start, i)[0]| ==> MatchAt(s, k).None?
    decreases |s| - i
  {
    if i == |s| {
      assert SplitFrom(s, start, i)[0] == s[start..];
    } else {
      FirstPieceStep(s, start, i);
      if MatchAt(s, i).None? {
        SplitFromPrefixUnmatched(s, start, i + 1);
      }
    }
  }

  /** How the first piece of a split is found: cut at a match, or carried past a position
      where the pattern fails. */
  lemma {:induction false} FirstPieceStep(s: string, start: nat, i: nat)
    requires start <= i < |s|
    ensures MatchAt(s, i).Some? ==> SplitFrom(s, start, i)[0] == s[start..i]
    ensures MatchAt(s, i).None? ==> SplitFrom(s, start, i)[0] == SplitFrom(s, start, i + 1)[0]
  {
  }

  /** The text that is discarded, before the first timestamp, contains no boundary. */
  lemma {:induction false} PrefixHasNoBoundary(s: string)
    ensures forall k :: 0 <= k < |ReSplit(s)[0]| ==> MatchAt(s, k).None?
  {
    SplitFromPrefixUnmatched(s, 0, 0);
  }

  // ---------------------------------------------------------------------------
  // The sender split: re.split(r"([\w\W]+?):\s", message, maxsplit=1)

  predicate ColonSpaceAt(s: string, k: nat) {
    k + 1 < |s| && s[k] == ':' && IsSpace(s[k + 1])
  }

  /** The first position `k >= from` holding a colon followed by whitespace. */
  function FirstColonSpace(s: string, from: nat): (r: Option<nat>)
    ensures r.Some? ==> from <= r.value && ColonSpaceAt(s, r.value)
    ensures r.Some? ==> forall k :: from <= k < r.value ==> !ColonSpaceAt(s, k)
    ensures r.None? ==> forall k :: from <= k ==> !ColonSpaceAt(s, k)
    decreases |s| - from
  {
    if from + 1 >= |s| then None
    else if ColonSpaceAt(s, from) then Some(from)
    else FirstColonSpace(s, from + 1)
  }

  /** The sender of one block (`re.split(r"([\w\W]+?):\s", body, maxsplit=1)`, lines
      28-32): the stripped, title-cased text before the first colon-and-whitespace, or
      the sentinel when there is none. The lazy group needs at least one character, so
      the colon is searched from position 1. */
  function SenderOf(body: string): string {
    match FirstColonSpace(body, 1)
    case Some(k) => Title(Strip(body[..k]))
    case None => GroupNotifications
  }

  /** The message of one block (lines 30 and 33): everything after the first
      colon-and-whitespace, or the whole block. */
  function MessageOf(body: string): string {
    match FirstColonSpace(body, 1)
    case Some(k) => body[k + 2..]
    case None => body
  }

  /** A block without a colon-and-whitespace is a group notification and keeps its
      whole text; otherwise the sender is the title-cased, stripped text before the
      first colon-and-whitespace and the message is all after it. A real sender is
      title-cased and so can never equal the sentinel. */
  lemma {:induction false} SplitSenderCases(body: string)
    ensures SenderOf(body) == GroupNotifications <==> forall k :: 1 <= k ==> !ColonSpaceAt(body, k)
    ensures SenderOf(body) == GroupNotifications ==> MessageOf(body) == body
    ensures SenderOf(body) != GroupNotifications ==>
              exists k :: 1 <= k && ColonSpaceAt(body, k) && (forall j :: 1 <= j < k ==> !ColonSpaceAt(body, j))
                          && SenderOf(body) == Title(Strip(body[..k])) && MessageOf(body) == body[k + 2..]
  {
    if FirstColonSpace(body, 1).Some? {
      TitleFirstNotLower(Strip(body[..FirstColonSpace(body, 1).value]));
    }
  }

  /** The `users` list of lines 24-33, one sender per block. */
  function Senders(bodies: seq<string>): (users: seq<string>)
    ensures |users| == |bodies|
  {
    if bodies == [] then [] else Senders(bodies[..|bodies| - 1]) + [SenderOf(bodies[|bodies| - 1])]
  }

  /** The `messages_list` list of lines 24-33, one message per block. */
  function Messages(bodies: seq<string>): (messages: seq<string>)
    ensures |messages| == |bodies|
  {
    if bodies == [] then [] else Messages(bodies[..|bodies| - 1]) + [MessageOf(bodies[|bodies| - 1])]
  }

  /** The two lists are filled in step: entry `k` of each comes from block `k`. */
  lemma {:induction false} SendersAt(bodies: seq<string>)
    ensures forall k :: 0 <= k < |bodies| ==> Senders(bodies)[k] == SenderOf(bodies[k])
    ensures forall k :: 0 <= k < |bodies| ==> Messages(bodies)[k] == MessageOf(bodies[k])
  {
    if bodies != [] {
      var init := bodies[..|bodies| - 1];
      SendersAt(init);
      forall k | 0 <= k < |bodies| - 1
        ensures Senders(bodies)[k] == SenderOf(bodies[k]) && Messages(bodies)[k] == MessageOf(bodies[k])
      {
        assert init[k] == bodies[k];
      }
    }
  }

  /** One row of the table built at line 36, before any parsing. */
  datatype Entry = Entry(msgDate: string, user: string, message: string)

  /** Lines 17-36: one entry per timestamp, pairing it with the sender and message of the
      body that follows it. */
  function Entries(data: string): (es: seq<Entry>)
    ensures |es| == |FindAll(RemoveNewlines(data))|
  {
    var text := RemoveNewlines(data);
    var dates := FindAll(text);
    var bodies := ReSplit(text)[1..];
    SplitCount(text);
    var users := Senders(bodies);
    var messages := Messages(bodies);
    seq(|dates|, i requires 0 <= i < |dates| => Entry(dates[i], users[i], messages[i]))
  }
}
