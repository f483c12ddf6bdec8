/** The per-message text features of preprocessor.py, lines 79-94: the emojis of a
    message and the message cleaned of emojis, system markers, links and extra
    whitespace. The emoji table of the `emoji` package is a parameter: the set of
    emoji sequences it knows (`EMOJI_DATA`'s keys). */
module TextFeatures {
  import opened Text

  // ---------------------------------------------------------------------------
  // re.sub(pattern, "", s): scan left to right, delete each match, resume after it

  /** Length of the match of a pattern at each position of a text (0: no match). */
  type Matcher = (string, nat) -> nat

  /** The match at `i`, cut to the end of the text. */
  function MatchLen(s: string, i: nat, m: Matcher): (n: nat)
    requires i <= |s|
    ensures i + n <= |s|
  {
    if m(s, i) <= |s| - i then m(s, i) else |s| - i
  }

  /** What is left of `s[i..]` once every match the scan meets is deleted. */
  function DeleteFrom(s: string, i: nat, m: Matcher): (r: string)
    requires i <= |s|
    ensures |r| <= |s| - i
    decreases |s| - i
  {
    if i == |s| then []
    else
      var n := MatchLen(s, i, m);
      if n > 0 then DeleteFrom(s, i + n, m)
      else [s[i]] + DeleteFrom(s, i + 1, m)
  }

  lemma {:induction false} SliceMultiset(s: string, i: nat, j: nat)
    requires i <= j <= |s|
    ensures multiset(s[i..]) == multiset(s[i..j]) + multiset(s[j..])
  {
    assert s[i..] == s[i..j] + s[j..];
  }

  /** Keeping one character on both sides keeps the multiset inclusion. */
  lemma {:induction false} KeepMultiset(r: string, c: char, rest: string, whole: string, tail: string)
    requires r == [c] + rest && whole == [c] + tail && multiset(rest) <= multiset(tail)
    ensures multiset(r) <= multiset(whole)
  {
    assert multiset(r) == multiset{c} + multiset(rest);
    assert multiset(whole) == multiset{c} + multiset(tail);
  }

  /** Dropping a part of the text keeps the multiset inclusion. */
  lemma {:induction false} DropMultiset(r: string, whole: string, d: string, tail: string)
    requires whole == d + tail && multiset(r) <= multiset(tail)
    ensures multiset(r) <= multiset(whole)
  {
    assert multiset(whole) == multiset(d) + multiset(tail);
  }

  lemma {:induction false} DeleteFromSubset(s: string, i: nat, m: Matcher)
    requires i <= |s|
    ensures multiset(DeleteFrom(s, i, m)) <= multiset(s[i..])
    decreases |s| - i
  {
    if i < |s| {
      var n := MatchLen(s, i, m);
      if n > 0 {
        DeleteFromSubset(s, i + n, m);
        SubsetDropStep(s, i, n, m);
      } else {
        DeleteFromSubset(s, i + 1, m);
        SubsetKeepStep(s, i, m);
      }
    } else {
      assert DeleteFrom(s, i, m) == [];
    }
  }

  lemma {:induction false} SubsetDropStep(s: string, i: nat, n: nat, m: Matcher)
    requires i < |s| && n == MatchLen(s, i, m) && n > 0
    requires multiset(DeleteFrom(s, i + n, m)) <= multiset(s[i + n..])
    ensures multiset(DeleteFrom(s, i, m)) <= multiset(s[i..])
  {
    assert s[i..] == s[i..i + n] + s[i + n..];
    assert DeleteFrom(s, i, m) == DeleteFrom(s, i + n, m);
    DropMultiset(DeleteFrom(s, i, m), s[i..], s[i..i + n], s[i + n..]);
  }

  lemma {:induction false} SubsetKeepStep(s: string, i: nat, m: Matcher)
    requires i < |s| && MatchLen(s, i, m) == 0
    requires multiset(DeleteFrom(s, i + 1, m)) <= multiset(s[i + 1..])
    ensures multiset(DeleteFrom(s, i, m)) <= multiset(s[i..])
  {
    assert s[i..] == [s[i]] + s[i + 1..];
    assert DeleteFrom(s, i, m) == [s[i]] + DeleteFrom(s, i + 1, m);
    KeepMultiset(DeleteFrom(s, i, m), s[i], DeleteFrom(s, i + 1, m), s[i..], s[i + 1..]);
  }

  /** `re.sub(pattern, "", s)`: nothing is added, and what is left keeps its order. */
  function Delete(s: string, m: Matcher): (r: string)
    ensures |r| <= |s| && multiset(r) <= multiset(s)
    ensures Subsequence(r, s)
  {
    DeleteFromSubset(s, 0, m);
    DeleteFromInOrder(s, 0, m);
    assert s[0..] == s;
    DeleteFrom(s, 0, m)
  }

  lemma {:induction false} DeleteFromNoMatch(s: string, i: nat, m: Matcher)
    requires i <= |s|
    requires forall p :: i <= p < |s| ==> MatchLen(s, p, m) == 0
    ensures DeleteFrom(s, i, m) == s[i..]
    decreases |s| - i
  {
    if i < |s| {
      DeleteFromNoMatch(s, i + 1, m);
      assert s[i..] == [s[i]] + s[i + 1..];
    }
  }

  lemma {:induction false} DeleteFromShortens(s: string, i: nat, m: Matcher, p: nat)
    requires i <= p < |s| && MatchLen(s, p, m) > 0
    ensures |DeleteFrom(s, i, m)| < |s| - i
    decreases |s| - i
  {
    var n := MatchLen(s, i, m);
    if n == 0 {
      DeleteFromShortens(s, i + 1, m, p);
    }
  }

  /** The substitution changes nothing exactly when the pattern matches nowhere. */
  lemma {:induction false} DeleteUnchanged(s: string, m: Matcher)
    ensures Delete(s, m) == s <==> forall p :: 0 <= p < |s| ==> MatchLen(s, p, m) == 0
  {
    assert s[0..] == s;
    if forall p :: 0 <= p < |s| ==> MatchLen(s, p, m) == 0 {
      DeleteFromNoMatch(s, 0, m);
    } else {
      var p :| 0 <= p < |s| && MatchLen(s, p, m) > 0;
      DeleteFromShortens(s, 0, m, p);
    }
  }

  lemma {:induction false} DeleteFromKeptChars(s: string, i: nat, m: Matcher, good: char -> bool)
    requires i <= |s|
    requires forall p :: i <= p < |s| && MatchLen(s, p, m) == 0 ==> good(s[p])
    ensures forall k :: 0 <= k < |DeleteFrom(s, i, m)| ==> good(DeleteFrom(s, i, m)[k])
    decreases |s| - i
  {
    if i < |s| {
      var n := MatchLen(s, i, m);
      if n > 0 {
        DeleteFromKeptChars(s, i + n, m, good);
      } else {
        DeleteFromKeptChars(s, i + 1, m, good);
        var rest := DeleteFrom(s, i + 1, m);
        assert forall k :: 1 <= k < |[s[i]] + rest| ==> ([s[i]] + rest)[k] == rest[k - 1];
      }
    }
  }

  /** Every character left stands at a position where the pattern does not match. */
  lemma {:induction false} DeleteKeptChars(s: string, m: Matcher, good: char -> bool)
    requires forall p :: 0 <= p < |s| && MatchLen(s, p, m) == 0 ==> good(s[p])
    ensures forall k :: 0 <= k < |Delete(s, m)| ==> good(Delete(s, m)[k])
  {
    DeleteFromKeptChars(s, 0, m, good);
  }

  /** No match of the pattern contains the character `c`. */
  predicate MatchesAvoid(s: string, m: Matcher, c: char) {
    forall p :: 0 <= p <= |s| ==> c !in s[p..p + MatchLen(s, p, m)]
  }

  lemma {:induction false} DeleteFromKeeps(s: string, i: nat, m: Matcher, c: char)
    requires i <= |s| && MatchesAvoid(s, m, c)
    ensures multiset(DeleteFrom(s, i, m))[c] == multiset(s[i..])[c]
    decreases |s| - i
  {
    if i < |s| {
      var n := MatchLen(s, i, m);
      if n > 0 {
        DeleteFromKeeps(s, i + n, m, c);
        KeepsAcrossMatch(s, i, m, c);
      } else {
        DeleteFromKeeps(s, i + 1, m, c);
        KeepsAcrossChar(s, i, m, c);
      }
    }
  }

  lemma {:induction false} KeepsAcrossMatch(s: string, i: nat, m: Matcher, c: char)
    requires i < |s| && MatchLen(s, i, m) > 0 && c !in s[i..i + MatchLen(s, i, m)]
    requires multiset(DeleteFrom(s, i + MatchLen(s, i, m), m))[c] == multiset(s[i + MatchLen(s, i, m)..])[c]
    ensures multiset(DeleteFrom(s, i, m))[c] == multiset(s[i..])[c]
  {
    var n := MatchLen(s, i, m);
    assert DeleteFrom(s, i, m) == DeleteFrom(s, i + n, m);
    SliceMultiset(s, i, i + n);
  }

  lemma {:induction false} KeepsAcrossChar(s: string, i: nat, m: Matcher, c: char)
    requires i < |s| && MatchLen(s, i, m) == 0
    requires multiset(DeleteFrom(s, i + 1, m))[c] == multiset(s[i + 1..])[c]
    ensures multiset(DeleteFrom(s, i, m))[c] == multiset(s[i..])[c]
  {
    assert DeleteFrom(s, i, m) == [s[i]] + DeleteFrom(s, i + 1, m);
    SliceMultiset(s, i, i + 1);
    assert s[i..i + 1] == [s[i]];
  }

  /** A character that no match contains is kept every time it occurs. */
  lemma {:induction false} DeleteKeeps(s: string, m: Matcher, c: char)
    requires MatchesAvoid(s, m, c)
    ensures multiset(Delete(s, m))[c] == multiset(s)[c]
  {
    DeleteFromKeeps(s, 0, m, c);
    assert s[0..] == s;
  }

  lemma {:induction false} DeleteFromInOrder(s: string, i: nat, m: Matcher)
    requires i <= |s|
    ensures Subsequence(DeleteFrom(s, i, m), s[i..])
    decreases |s| - i
  {
    if i == |s| {
      assert DeleteFrom(s, i, m) == [];
    } else {
      var n := MatchLen(s, i, m);
      if n > 0 {
        DeleteFromInOrder(s, i + n, m);
        assert s[i..] == s[i..i + n] + s[i + n..];
        SubsequencePrepend(DeleteFrom(s, i + n, m), s[i..i + n], s[i + n..]);
      } else {
        DeleteFromInOrder(s, i + 1, m);
        assert s[i..] == [s[i]] + s[i + 1..];
        SubsequenceCons(s[i], DeleteFrom(s, i + 1, m), s[i + 1..]);
      }
    }
  }

  /** A piece of the text as the scan meets it: one character where the pattern does not
      match, or a whole match. */
  datatype Piece = Kept(c: char) | Dropped(span: string)

  /** The text the pieces come from. */
  function Flatten(ps: seq<Piece>): string {
    if ps == [] then []
    else (match ps[0] case Kept(c) => [c] case Dropped(d) => d) + Flatten(ps[1..])
  }

  /** The characters of the kept pieces, in order. */
  function KeptOf(ps: seq<Piece>): string {
    if ps == [] then [] else (if ps[0].Kept? then [ps[0].c] else []) + KeptOf(ps[1..])
  }

  /** `ps` cuts `s[i..]` from left to right into pieces: a character is kept where no match
      starts, and a match starting there is dropped whole. */
  predicate ScanCut(s: string, i: nat, ps: seq<Piece>, m: Matcher)
    requires i <= |s|
    decreases |ps|
  {
    if ps == [] then i == |s|
    else match ps[0]
      case Kept(c) => i < |s| && s[i] == c && MatchLen(s, i, m) == 0 && ScanCut(s, i + 1, ps[1..], m)
      case Dropped(d) =>
        i < |s| && d != [] && MatchLen(s, i, m) == |d| && s[i..i + |d|] == d && ScanCut(s, i + |d|, ps[1..], m)
  }

  /** The cut of `s[i..]` the scan makes. */
  function Cut(s: string, i: nat, m: Matcher): (ps: seq<Piece>)
    requires i <= |s|
    ensures ScanCut(s, i, ps, m)
    decreases |s| - i
  {
    if i == |s| then []
    else
      var n := MatchLen(s, i, m);
      if n > 0 then [Dropped(s[i..i + n])] + Cut(s, i + n, m)
      else [Kept(s[i])] + Cut(s, i + 1, m)
  }

  /** Any left-to-right cut of the text rebuilds it, and its kept characters are what the
      substitution leaves. */
  lemma {:induction false} ScanCutDeletes(s: string, i: nat, ps: seq<Piece>, m: Matcher)
    requires i <= |s| && ScanCut(s, i, ps, m)
    ensures Flatten(ps) == s[i..] && KeptOf(ps) == DeleteFrom(s, i, m)
    decreases |ps|
  {
    if ps == [] {
      assert s[i..] == [];
    } else {
      match ps[0]
      case Kept(c) =>
        ScanCutDeletes(s, i + 1, ps[1..], m);
        KeptStep(s, i, ps, m);
      case Dropped(d) =>
        ScanCutDeletes(s, i + |d|, ps[1..], m);
        DroppedStep(s, i, ps, m);
    }
  }

  lemma {:induction false} KeptStep(s: string, i: nat, ps: seq<Piece>, m: Matcher)
    requires i < |s| && ps != [] && ps[0] == Kept(s[i]) && MatchLen(s, i, m) == 0
    requires Flatten(ps[1..]) == s[i + 1..] && KeptOf(ps[1..]) == DeleteFrom(s, i + 1, m)
    ensures Flatten(ps) == s[i..] && KeptOf(ps) == DeleteFrom(s, i, m)
  {
    assert s[i..] == [s[i]] + s[i + 1..];
  }

  lemma {:induction false} DroppedStep(s: string, i: nat, ps: seq<Piece>, m: Matcher)
    requires i < |s| && ps != [] && ps[0].Dropped? && MatchLen(s, i, m) == |ps[0].span| > 0
    requires s[i..i + |ps[0].span|] == ps[0].span
    requires Flatten(ps[1..]) == s[i + |ps[0].span|..] && KeptOf(ps[1..]) == DeleteFrom(s, i + |ps[0].span|, m)
    ensures Flatten(ps) == s[i..] && KeptOf(ps) == DeleteFrom(s, i, m)
  {
    var k := |ps[0].span|;
    DroppedKept(s, i, ps, m);
    SliceOfSlice(s, i, k);
    FlattenDropped(ps, s[i..], k);
  }

  lemma {:induction false} SliceOfSlice(s: string, i: nat, k: nat)
    requires i + k <= |s|
    ensures s[i..][..k] == s[i..i + k] && s[i..][k..] == s[i + k..]
  {
  }

  lemma {:induction false} DroppedKept(s: string, i: nat, ps: seq<Piece>, m: Matcher)
    requires i < |s| && ps != [] && ps[0].Dropped? && MatchLen(s, i, m) == |ps[0].span| > 0
    requires KeptOf(ps[1..]) == DeleteFrom(s, i + |ps[0].span|, m)
    ensures KeptOf(ps) == DeleteFrom(s, i, m)
  {
  }

  lemma {:induction false} FlattenDropped(ps: seq<Piece>, x: string, k: nat)
    requires ps != [] && ps[0].Dropped? && k == |ps[0].span| <= |x|
    requires x[..k] == ps[0].span && Flatten(ps[1..]) == x[k..]
    ensures Flatten(ps) == x
  {
    assert x == x[..k] + x[k..];
  }

  /** `re.sub(pattern, "", s)` is the text with its leftmost non-overlapping matches removed:
      the text has a left-to-right cut into kept characters (where no match starts) and
      whole matches, and for every such cut the result is its kept characters. */
  lemma {:induction false} DeleteIsCut(s: string, m: Matcher)
    ensures ScanCut(s, 0, Cut(s, 0, m), m)
    ensures forall ps :: ScanCut(s, 0, ps, m) ==> Flatten(ps) == s && KeptOf(ps) == Delete(s, m)
  {
    forall ps | ScanCut(s, 0, ps, m) ensures Flatten(ps) == s && KeptOf(ps) == Delete(s, m) {
      ScanCutDeletes(s, 0, ps, m);
      assert s[0..] == s;
    }
  }

  /** Every piece dropped has the property `good`. */
  predicate DropsAll(ps: seq<Piece>, good: string -> bool) {
    forall k :: 0 <= k < |ps| && ps[k].Dropped? ==> good(ps[k].span)
  }

  /** Every match of the pattern in `s` has the property `good`. */
  predicate MatchesAll(s: string, m: Matcher, good: string -> bool) {
    forall p :: 0 <= p < |s| && MatchLen(s, p, m) > 0 ==> good(s[p..p + MatchLen(s, p, m)])
  }

  /** What a cut drops are matches of the pattern. */
  lemma {:induction false} CutDropsMatches(s: string, i: nat, ps: seq<Piece>, m: Matcher, good: string -> bool)
    requires i <= |s| && ScanCut(s, i, ps, m) && MatchesAll(s, m, good)
    ensures DropsAll(ps, good)
    decreases |ps|
  {
    if ps != [] {
      var rest := ps[1..];
      assert forall k :: 1 <= k < |ps| ==> ps[k] == rest[k - 1];
      match ps[0]
      case Kept(c) =>
        CutDropsMatches(s, i + 1, rest, m, good);
      case Dropped(d) =>
        CutDropsMatches(s, i + |d|, rest, m, good);
        assert good(s[i..i + MatchLen(s, i, m)]);
    }
  }

  // ---------------------------------------------------------------------------
  // Emojis

  /** `char in emoji.EMOJI_DATA` for one character. */
  predicate IsEmojiChar(c: char, emojiData: set<string>) { [c] in emojiData }

  /** `extract_emojis`: the characters of the text that are emojis on their own, in order:
      a subsequence of the text holding every emoji character of it as often as the text
      does, and nothing else. */
  function ExtractEmojis(text: string, emojiData: set<string>): (r: string)
    ensures forall k :: 0 <= k < |r| ==> IsEmojiChar(r[k], emojiData)
    ensures forall c :: multiset(r)[c] == if IsEmojiChar(c, emojiData) then multiset(text)[c] else 0
    ensures Subsequence(r, text)
  {
    if text == [] then []
    else
      assert text == [text[0]] + text[1..];
      var rest := ExtractEmojis(text[1..], emojiData);
      if IsEmojiChar(text[0], emojiData) then
        SubsequenceCons(text[0], rest, text[1..]);
        [text[0]] + rest
      else
        assert [] + rest == rest;
        [] + rest
  }

  /** One character gives itself when it is an emoji and nothing otherwise. */
  lemma {:induction false} ExtractEmojisOne(c: char, emojiData: set<string>)
    ensures ExtractEmojis([c], emojiData) == if IsEmojiChar(c, emojiData) then [c] else []
  {
    assert [c][1..] == [];
  }

  /** The emojis of a concatenation are those of the first part followed by those of the
      second. */
  lemma {:induction false} ExtractEmojisAppend(a: string, b: string, emojiData: set<string>)
    ensures ExtractEmojis(a + b, emojiData) == ExtractEmojis(a, emojiData) + ExtractEmojis(b, emojiData)
    decreases |a|
  {
    if a == [] {
      assert a + b == b;
    } else {
      assert (a + b)[0] == a[0] && (a + b)[1..] == a[1..] + b;
      var h := if IsEmojiChar(a[0], emojiData) then [a[0]] else [];
      var x, y := ExtractEmojis(a[1..], emojiData), ExtractEmojis(b, emojiData);
      assert ExtractEmojis(a + b, emojiData) == h + ExtractEmojis(a[1..] + b, emojiData);
      assert ExtractEmojis(a, emojiData) == h + x;
      ExtractEmojisAppend(a[1..], b, emojiData);
      ConcatAssoc(h, x, y);
    }
  }

  /** The `k` characters at `i` form an emoji sequence of the table. */
  predicate EmojiSpan(s: string, i: nat, k: nat, emojiData: set<string>) {
    i + k <= |s| && s[i..i + k] in emojiData
  }

  /** Length of the longest emoji sequence of the table starting at `i` and at most
      `n` long (0 if there is none). */
  function LongestEmoji(s: string, i: nat, n: nat, emojiData: set<string>): (r: nat)
    ensures r <= n
    ensures r > 0 ==> EmojiSpan(s, i, r, emojiData)
    ensures forall k :: r < k <= n ==> !EmojiSpan(s, i, k, emojiData)
  {
    if n == 0 then 0
    else if EmojiSpan(s, i, n, emojiData) then n
    else LongestEmoji(s, i, n - 1, emojiData)
  }

  /** The emoji package's search: the longest known emoji sequence at each position. */
  function EmojiMatcher(emojiData: set<string>): Matcher {
    (s: string, i: nat) => EmojiLength(s, i, emojiData)
  }

  function EmojiLength(s: string, i: nat, emojiData: set<string>): nat {
    if i <= |s| then LongestEmoji(s, i, |s| - i, emojiData) else 0
  }

  /** `emoji.replace_emoji(text, replace="")`: every emoji sequence the table knows is
      deleted, longest first; no character that is an emoji on its own survives, and
      nothing else is added. */
  function RemoveEmoji(text: string, emojiData: set<string>): (r: string)
    ensures multiset(r) <= multiset(text) && Subsequence(r, text)
    ensures forall k :: 0 <= k < |r| ==> !IsEmojiChar(r[k], emojiData)
  {
    var m := EmojiMatcher(emojiData);
    forall p | 0 <= p < |text| && MatchLen(text, p, m) == 0 ensures !IsEmojiChar(text[p], emojiData) {
      assert text[p..p + 1] == [text[p]];
      assert !EmojiSpan(text, p, 1, emojiData);
    }
    DeleteKeptChars(text, m, c => !IsEmojiChar(c, emojiData));
    Delete(text, m)
  }

  /** The emojis of a message and the message without them never share a character:
      together they use each character of the message at most as often as it occurs. */
  lemma {:induction false} EmojisAndRestSplit(text: string, emojiData: set<string>)
    ensures multiset(ExtractEmojis(text, emojiData)) + multiset(RemoveEmoji(text, emojiData)) <= multiset(text)
  {
  }

  // ---------------------------------------------------------------------------
  // System markers: <media omitted>|<this message was edited>|this message was deleted|null,
  // case-insensitive

  const Markers: seq<string> := ["<media omitted>", "<this message was edited>", "this message was deleted", "null"]

  /** `p` (lower-case) occurs at `i` up to letter case. */
  predicate StartsAtIgnoringCase(s: string, i: nat, p: string) {
    i + |p| <= |s| && LowerString(s[i..i + |p|]) == p
  }

  /** No alternative, from the `j`-th on, matches at `i`. */
  predicate NoMarkerFrom(s: string, i: nat, j: nat) {
    forall q :: j <= q < |Markers| ==> !StartsAtIgnoringCase(s, i, Markers[q])
  }

  /** Length of the first alternative, from the `j`-th on, that matches at `i`. */
  function MarkerFrom(s: string, i: nat, j: nat): (n: nat)
    requires j <= |Markers|
    ensures n > 0 ==> i + n <= |s|
    ensures n == 0 <==> NoMarkerFrom(s, i, j)
    ensures n > 0 ==> exists q :: j <= q < |Markers| && LowerString(s[i..i + n]) == Markers[q]
    decreases |Markers| - j
  {
    if j == |Markers| then 0
    else if StartsAtIgnoringCase(s, i, Markers[j]) then |Markers[j]|
    else MarkerFrom(s, i, j + 1)
  }

  /** Length of the system marker the alternation matches at `i` (0 if there is none). */
  function MarkerAt(s: string, i: nat): (n: nat)
    ensures n > 0 ==> i + n <= |s| && IsMarker(s[i..i + n])
    ensures n == 0 <==> NoMarkerFrom(s, i, 0)
  {
    MarkerFrom(s, i, 0)
  }

  function MarkerMatcher(): Matcher {
    (s: string, i: nat) => MarkerAt(s, i)
  }

  /** Line 88: the system markers are deleted, left to right, whatever their ASCII letter
      case; the rest keeps its order. */
  function RemoveMarkers(text: string): (r: string)
    ensures multiset(r) <= multiset(text) && Subsequence(r, text)
  {
    Delete(text, MarkerMatcher())
  }

  /** A text without system markers is unchanged, and a text with one is changed. */
  lemma {:induction false} RemoveMarkersUnchanged(text: string)
    ensures RemoveMarkers(text) == text <==> forall p :: 0 <= p < |text| ==> NoMarkerFrom(text, p, 0)
  {
    DeleteUnchanged(text, MarkerMatcher());
    forall p | 0 <= p < |text| ensures MatchLen(text, p, MarkerMatcher()) == 0 <==> NoMarkerFrom(text, p, 0) {
      assert MarkerMatcher()(text, p) == MarkerAt(text, p);
    }
  }

  /** One of the markers, up to ASCII letter case. */
  predicate IsMarker(d: string) { exists q :: 0 <= q < |Markers| && LowerString(d) == Markers[q] }

  /** Every match of the alternation is a marker. */
  lemma {:induction false} MarkerMatchesAreMarkers(s: string)
    ensures MatchesAll(s, MarkerMatcher(), IsMarker)
  {
    forall p | 0 <= p < |s| && MatchLen(s, p, MarkerMatcher()) > 0
      ensures IsMarker(s[p..p + MatchLen(s, p, MarkerMatcher())])
    {
      MarkerMatchIsMarker(s, p);
    }
  }

  lemma {:induction false} MarkerMatchIsMarker(s: string, p: nat)
    requires p < |s| && MatchLen(s, p, MarkerMatcher()) > 0
    ensures IsMarker(s[p..p + MatchLen(s, p, MarkerMatcher())])
  {
    var n := MarkerAt(s, p);
    assert MarkerMatcher()(s, p) == n;
    assert MatchLen(s, p, MarkerMatcher()) == n;
    assert IsMarker(s[p..p + n]);
  }

  /** Line 88 removes the leftmost non-overlapping markers: cut the text from left to right
      into single characters where no marker starts and whole markers; the result is the
      characters kept, in order. */
  lemma {:induction false} RemoveMarkersCut(text: string)
    ensures ScanCut(text, 0, Cut(text, 0, MarkerMatcher()), MarkerMatcher())
    ensures forall ps: seq<Piece> :: ScanCut(text, 0, ps, MarkerMatcher()) ==>
              Flatten(ps) == text && KeptOf(ps) == RemoveMarkers(text) && DropsAll(ps, IsMarker)
  {
    DeleteIsCut(text, MarkerMatcher());
    MarkerMatchesAreMarkers(text);
    forall ps: seq<Piece> | ScanCut(text, 0, ps, MarkerMatcher()) ensures DropsAll(ps, IsMarker) {
      CutDropsMatches(text, 0, ps, MarkerMatcher(), IsMarker);
    }
  }

  /** The substitution does not look again at what a deletion brings together: removing
      the `null` inside `nunullll` leaves `null`. */
  lemma {:induction false} RemoveMarkersNoRescan()
    ensures RemoveMarkers("nunullll") == "null"
  {
    var t := "nunullll";
    var m := MarkerMatcher();
    NoMarkerAt(t, 0);
    NoMarkerAt(t, 1);
    NullAt(t, 2);
    NoMarkerAt(t, 6);
    NoMarkerAt(t, 7);
    var ps := CutAroundNull(t, m);
    RemoveMarkersCut(t);
  }

  /** The cut of `nunullll` by any matcher that matches only the `null` at 2. */
  lemma {:induction false} CutAroundNull(t: string, m: Matcher) returns (ps: seq<Piece>)
    requires t == "nunullll"
    requires MatchLen(t, 0, m) == 0 && MatchLen(t, 1, m) == 0 && MatchLen(t, 6, m) == 0 && MatchLen(t, 7, m) == 0
    requires MatchLen(t, 2, m) == 4 && t[2..6] == "null"
    ensures ScanCut(t, 0, ps, m) && KeptOf(ps) == "null"
  {
    var p4 := [Kept('l')];
    assert ScanCut(t, 8, p4[1..], m);
    var p3 := [Kept('l')] + p4;
    assert p3[1..] == p4;
    assert ScanCut(t, 7, p4, m);
    assert ScanCut(t, 6, p3, m);
    var p2 := [Dropped("null")] + p3;
    assert p2[1..] == p3;
    assert ScanCut(t, 2, p2, m);
    var p1 := [Kept('u')] + p2;
    assert p1[1..] == p2;
    assert ScanCut(t, 1, p1, m);
    ps := [Kept('n')] + p1;
    assert ps[1..] == p1;
    assert KeptOf(p4) == "l";
    assert KeptOf(p3) == "ll";
    assert KeptOf(p2) == "ll";
    assert KeptOf(p1) == "ull";
  }

  /** No marker starts at `p` of `nunullll` except at 2. */
  lemma {:induction false} NoMarkerAt(t: string, p: nat)
    requires t == "nunullll" && p in {0, 1, 6, 7}
    ensures MatchLen(t, p, MarkerMatcher()) == 0
  {
    NoMarkerFromAt(t, p);
    assert MarkerMatcher()(t, p) == MarkerAt(t, p);
  }

  lemma {:induction false} NoMarkerFromAt(t: string, p: nat)
    requires t == "nunullll" && p in {0, 1, 6, 7}
    ensures NoMarkerFrom(t, p, 0)
  {
    forall q | 0 <= q < |Markers| ensures !StartsAtIgnoringCase(t, p, Markers[q]) {
      if q == 3 {
        NoNullAt(t, p);
      }
    }
  }

  lemma {:induction false} NoNullAt(t: string, p: nat)
    requires t == "nunullll" && p in {0, 1, 6, 7}
    ensures !StartsAtIgnoringCase(t, p, "null")
  {
    if p + 4 <= |t| {
      var k := if p == 0 then 2 else 0;
      assert LowerString(t[p..p + 4])[k] == Lower(t[p + k]) != "null"[k];
    }
  }

  lemma {:induction false} NullAt(t: string, p: nat)
    requires t == "nunullll" && p == 2
    ensures MatchLen(t, p, MarkerMatcher()) == 4 && t[p..p + 4] == "null"
  {
    NullMatchesAt(t);
    assert |Markers[0]| > 6 && |Markers[1]| > 6 && |Markers[2]| > 6 && Markers[3] == "null";
    assert MarkerFrom(t, 2, 3) == 4;
    assert MarkerFrom(t, 2, 0) == MarkerFrom(t, 2, 3);
    assert MarkerMatcher()(t, p) == MarkerAt(t, p);
  }

  lemma {:induction false} NullMatchesAt(t: string)
    requires t == "nunullll"
    ensures StartsAtIgnoringCase(t, 2, "null") && t[2..6] == "null"
  {
    assert t[2..6] == "null";
    assert LowerString("null") == "null";
  }

  // ---------------------------------------------------------------------------
  // Links: http\S+|www\S+

  /** The link starting at `i`: `http` or `www` and at least one more non-space
      character; it runs to the next whitespace. */
  function UrlLength(s: string, i: nat): (n: nat)
    ensures n > 0 ==> i + n <= |s| && NoSpace(s[i..i + n]) && (StartsAt(s, i, "http") || StartsAt(s, i, "www"))
    ensures n > 0 ==> i + n == |s| || IsSpace(s[i + n])
  {
    if i > |s| then 0
    else
      var w := WordLength(s[i..]);
      assert s[i..][..w] == s[i..i + w];
      if (StartsAt(s, i, "http") && w >= 5) || (StartsAt(s, i, "www") && w >= 4) then w else 0
  }

  function UrlMatcher(): Matcher {
    (s: string, i: nat) => UrlLength(s, i)
  }

  /** Line 89: the links are deleted and the rest keeps its order. A link holds no
      whitespace, so every whitespace character of the text is kept. */
  function RemoveUrls(text: string): (r: string)
    ensures multiset(r) <= multiset(text) && Subsequence(r, text)
    ensures forall c :: IsSpace(c) ==> multiset(r)[c] == multiset(text)[c]
    ensures forall p :: 0 <= p < |r| ==> UrlLength(r, p) == 0
  {
    var r := Delete(text, UrlMatcher());
    DeleteUrlsFromNoLinks(text, 0);
    forall c | IsSpace(c) ensures multiset(r)[c] == multiset(text)[c] {
      UrlsKeepSpace(text, c);
    }
    r
  }

  /** No link holds the whitespace character `c`, so deleting links keeps every `c`. */
  lemma {:induction false} UrlsKeepSpace(text: string, c: char)
    requires IsSpace(c)
    ensures multiset(Delete(text, UrlMatcher()))[c] == multiset(text)[c]
  {
    UrlsAvoid(text, c);
    DeleteKeeps(text, UrlMatcher(), c);
  }

  lemma {:induction false} UrlsAvoid(text: string, c: char)
    requires IsSpace(c)
    ensures MatchesAvoid(text, UrlMatcher(), c)
  {
    forall p | 0 <= p <= |text| ensures c !in text[p..p + MatchLen(text, p, UrlMatcher())] {
      UrlAvoids(text, p, c);
    }
  }

  lemma {:induction false} UrlAvoids(text: string, p: nat, c: char)
    requires IsSpace(c) && p <= |text|
    ensures c !in text[p..p + MatchLen(text, p, UrlMatcher())]
  {
    var n := UrlLength(text, p);
    assert MatchLen(text, p, UrlMatcher()) == n;
    if n > 0 {
      assert NoSpace(text[p..p + n]);
    }
  }

  /** A text without links is unchanged, and a text with one is changed. */
  lemma {:induction false} RemoveUrlsUnchanged(text: string)
    ensures RemoveUrls(text) == text <==> forall p :: 0 <= p < |text| ==> UrlLength(text, p) == 0
  {
    DeleteUnchanged(text, UrlMatcher());
    forall p | 0 <= p < |text| ensures MatchLen(text, p, UrlMatcher()) == UrlLength(text, p) {
    }
  }

  /** Nothing the deletion leaves is a link, even where a deletion brings two pieces
      together. */
  lemma {:induction false} DeleteUrlsFromNoLinks(s: string, i: nat)
    requires i <= |s|
    ensures forall p :: 0 <= p < |DeleteFrom(s, i, UrlMatcher())| ==> UrlLength(DeleteFrom(s, i, UrlMatcher()), p) == 0
    decreases |s| - i
  {
    var r := DeleteFrom(s, i, UrlMatcher());
    if i < |s| {
      var n := MatchLen(s, i, UrlMatcher());
      assert n == UrlLength(s, i);
      if n > 0 {
        DeleteUrlsFromNoLinks(s, i + n);
      } else {
        var rest := DeleteFrom(s, i + 1, UrlMatcher());
        assert r == [s[i]] + rest;
        DeleteUrlsFromNoLinks(s, i + 1);
        NoLinkAtFront(s, i);
        NoLinksCons(s[i], rest);
      }
    }
  }

  /** A character in front of a text without links adds none, unless one starts at it. */
  lemma {:induction false} NoLinksCons(c: char, rest: string)
    requires forall p :: 0 <= p < |rest| ==> UrlLength(rest, p) == 0
    requires UrlLength([c] + rest, 0) == 0
    ensures forall p :: 0 <= p < |[c] + rest| ==> UrlLength([c] + rest, p) == 0
  {
    var r := [c] + rest;
    forall p | 0 < p < |r| ensures UrlLength(r, p) == 0 {
      UrlLengthSuffix(r, p);
      UrlLengthSuffix(rest, p - 1);
      assert r[p..] == rest[p - 1..];
    }
  }

  /** Where no link starts at `i`, none starts at the front of what is left of `s[i..]`:
      the first word left is a prefix of the first word of `s[i..]`. */
  lemma {:induction false} NoLinkAtFront(s: string, i: nat)
    requires i < |s| && UrlLength(s, i) == 0
    ensures UrlLength(DeleteFrom(s, i, UrlMatcher()), 0) == 0
  {
    UrlWordPrefix(s, i);
    UrlLengthSuffix(s, i);
    PrefixWordLink(DeleteFrom(s, i, UrlMatcher()), s[i..]);
  }

  /** The first word of `r` is a prefix of the first word of `x`. */
  predicate WordPrefixOf(r: string, x: string) {
    WordLength(r) <= WordLength(x) && r[..WordLength(r)] == x[..WordLength(r)]
  }

  /** A link at the front of `r` is the front of a link in `x` when the first word of `r`
      begins the first word of `x`. */
  lemma {:induction false} PrefixWordLink(r: string, x: string)
    requires WordPrefixOf(r, x)
    ensures UrlLength(r, 0) > 0 ==> UrlLength(x, 0) > 0
  {
    var v := WordLength(r);
    if UrlLength(r, 0) > 0 {
      assert r[..v][..3] == r[..3] && x[..v][..3] == x[..3];
      if StartsAt(r, 0, "http") {
        assert r[..v][..4] == r[..4] && x[..v][..4] == x[..4];
      }
    }
  }

  lemma {:induction false} WordPrefixCons(c: char, r: string, x: string)
    requires !IsSpace(c) && WordPrefixOf(r, x)
    ensures WordPrefixOf([c] + r, [c] + x)
  {
    assert ([c] + r)[1..] == r && ([c] + x)[1..] == x;
    var v := WordLength(r);
    assert ([c] + r)[..v + 1] == [c] + r[..v];
    assert ([c] + x)[..v + 1] == [c] + x[..v];
  }

  /** The first word of what is left of `s[i..]` is a prefix of the first word of `s[i..]`. */
  lemma {:induction false} UrlWordPrefix(s: string, i: nat)
    requires i <= |s|
    ensures WordPrefixOf(DeleteFrom(s, i, UrlMatcher()), s[i..])
    decreases |s| - i
  {
    var r := DeleteFrom(s, i, UrlMatcher());
    if i < |s| {
      var n := MatchLen(s, i, UrlMatcher());
      assert n == UrlLength(s, i);
      if n > 0 {
        AfterLink(s, i);
      } else if IsSpace(s[i]) {
        assert r[0] == s[i];
      } else {
        var rest := DeleteFrom(s, i + 1, UrlMatcher());
        assert r == [s[i]] + rest;
        UrlWordPrefix(s, i + 1);
        assert s[i..] == [s[i]] + s[i + 1..];
        WordPrefixCons(s[i], rest, s[i + 1..]);
      }
    }
  }

  /** What is left after a link starts with no word. */
  lemma {:induction false} AfterLink(s: string, i: nat)
    requires i < |s| && UrlLength(s, i) > 0
    ensures WordLength(DeleteFrom(s, i, UrlMatcher())) == 0
  {
    var n := UrlLength(s, i);
    assert MatchLen(s, i, UrlMatcher()) == n;
    assert DeleteFrom(s, i, UrlMatcher()) == DeleteFrom(s, i + n, UrlMatcher());
    if i + n < |s| {
      AfterLinkKept(s, i + n);
    }
  }

  /** No link starts right after a link: the whitespace that ends it is kept, so what is
      left from there starts with no word. */
  lemma {:induction false} AfterLinkKept(s: string, j: nat)
    requires j < |s| && IsSpace(s[j])
    ensures WordLength(DeleteFrom(s, j, UrlMatcher())) == 0
  {
    assert MatchLen(s, j, UrlMatcher()) == UrlLength(s, j);
    if j + 3 <= |s| {
      assert s[j..j + 3][0] == s[j];
    }
    assert DeleteFrom(s, j, UrlMatcher())[0] == s[j];
  }

  /** Whether a link starts at `i` depends only on `s[i..]`. */
  lemma {:induction false} UrlLengthSuffix(s: string, i: nat)
    requires i <= |s|
    ensures UrlLength(s, i) == UrlLength(s[i..], 0)
  {
    var x := s[i..];
    assert x[0..] == x;
    assert StartsAt(s, i, "http") <==> StartsAt(x, 0, "http");
    assert StartsAt(s, i, "www") <==> StartsAt(x, 0, "www");
  }

  // ---------------------------------------------------------------------------
  // Whitespace: re.sub(r"\s+", " ", s).strip()

  /** Every maximal run of whitespace becomes one space. */
  function CollapseSpaces(s: string): (r: string)
    ensures CollapsedOf(r, s)
    decreases |s|
  {
    if s == [] then []
    else if IsSpace(s[0]) then
      var t := TrimStart(s);
      assert |t| < |s|;
      var rest := CollapseSpaces(t);
      CollapseSpaceStep(s, t, rest);
      [' '] + rest
    else
      var rest := CollapseSpaces(s[1..]);
      CollapseWordStep(s, rest);
      [s[0]] + rest
  }

  /** `r` is `s` with every run of whitespace replaced by one space: its only
      whitespace is single spaces, it begins and ends with whitespace exactly where `s`
      does, and it has the non-space characters and the words of `s`. */
  predicate CollapsedOf(r: string, s: string) {
    && (forall k :: 0 <= k < |r| && IsSpace(r[k]) ==> r[k] == ' ')
    && (forall k :: 0 <= k < |r| - 1 ==> !(IsSpace(r[k]) && IsSpace(r[k + 1])))
    && (r != [] ==> s != [] && (IsSpace(r[0]) <==> IsSpace(s[0])))
    && (r == [] <==> s == [])
    && NonSpace(r) == NonSpace(s)
    && Words(r) == Words(s)
    && (r != [] ==> (IsSpace(r[|r| - 1]) <==> IsSpace(s[|s| - 1])))
  }

  /** A run of whitespace in front becomes one space. */
  lemma {:induction false} CollapseSpaceStep(s: string, t: string, rest: string)
    requires s != [] && IsSpace(s[0]) && t == TrimStart(s)
    requires CollapsedOf(rest, t)
    ensures CollapsedOf([' '] + rest, s)
  {
    var r := [' '] + rest;
    NonSpaceTrimStart(s);
    ConsSpaced(' ', rest);
    assert r[0] == ' ' && r[1..] == rest;
    WordsSpaceHead(r);
    WordsTrimStart(s);
    LastOfTrimStart(s, t);
    assert r[|r| - 1] == if rest == [] then ' ' else rest[|rest| - 1];
  }

  /** A non-space character in front is kept. */
  lemma {:induction false} CollapseWordStep(s: string, rest: string)
    requires s != [] && !IsSpace(s[0])
    requires CollapsedOf(rest, s[1..])
    ensures CollapsedOf([s[0]] + rest, s)
  {
    var c, x := s[0], s[1..];
    HeadTail(s);
    ConsSpaced(c, rest);
    assert NonSpace(s) == [c] + NonSpace(x);
    WordsConsChar(c, x);
    WordsConsChar(c, rest);
    if rest != [] {
      assert ([c] + rest)[|rest|] == rest[|rest| - 1];
      assert ([c] + x)[|x|] == x[|x| - 1];
    }
  }

  /** The last character of `s` is whitespace when nothing is left after the leading
      whitespace, and otherwise it is the last character of what is left. */
  lemma {:induction false} LastOfTrimStart(s: string, t: string)
    requires s != [] && t == TrimStart(s)
    ensures t == [] ==> IsSpace(s[|s| - 1])
    ensures t != [] ==> t[|t| - 1] == s[|s| - 1]
  {
    if t == [] {
      assert s[..|s| - |t|][|s| - 1] == s[|s| - 1];
    }
  }

  /** One more character in front of a single-spaced text: a space only before a
      non-space. */
  lemma {:induction false} ConsSpaced(c: char, rest: string)
    requires !IsSpace(c) || c == ' '
    requires forall k :: 0 <= k < |rest| && IsSpace(rest[k]) ==> rest[k] == ' '
    requires forall k :: 0 <= k < |rest| - 1 ==> !(IsSpace(rest[k]) && IsSpace(rest[k + 1]))
    requires IsSpace(c) ==> rest == [] || !IsSpace(rest[0])
    ensures forall k :: 0 <= k < |[c] + rest| && IsSpace(([c] + rest)[k]) ==> ([c] + rest)[k] == ' '
    ensures forall k :: 0 <= k < |[c] + rest| - 1 ==> !(IsSpace(([c] + rest)[k]) && IsSpace(([c] + rest)[k + 1]))
    ensures NonSpace([c] + rest) == (if IsSpace(c) then [] else [c]) + NonSpace(rest)
  {
    var r := [c] + rest;
    assert forall k :: 1 <= k < |r| ==> r[k] == rest[k - 1];
    assert r[1..] == rest;
  }

  lemma {:induction false} NonSpaceSlice(s: string, a: nat, b: nat)
    requires a <= b <= |s| && AllSpace(s[..a]) && AllSpace(s[b..])
    ensures NonSpace(s[a..b]) == NonSpace(s)
  {
    assert s == s[..a] + (s[a..b] + s[b..]);
    NonSpaceAppend(s[..a], s[a..b] + s[b..]);
    NonSpaceAppend(s[a..b], s[b..]);
    AllSpaceNonSpace(s[..a]);
    AllSpaceNonSpace(s[b..]);
  }

  lemma {:induction false} AllSpaceNonSpace(s: string)
    ensures AllSpace(s) <==> NonSpace(s) == []
  {
    if s != [] {
      AllSpaceNonSpace(s[1..]);
      assert AllSpace(s) <==> IsSpace(s[0]) && AllSpace(s[1..]) by {
        assert forall k :: 1 <= k < |s| ==> s[k] == s[1..][k - 1];
      }
    }
  }

  /** Spacing facts of a collapsed text carry over to any slice of it. */
  lemma {:induction false} SliceOfCollapsed(c: string, a: nat, b: nat, r: string)
    requires a <= b <= |c| && r == c[a..b]
    requires forall k :: 0 <= k < |c| && IsSpace(c[k]) ==> c[k] == ' '
    requires forall k :: 0 <= k < |c| - 1 ==> !(IsSpace(c[k]) && IsSpace(c[k + 1]))
    ensures forall k :: 0 <= k < |r| && IsSpace(r[k]) ==> r[k] == ' '
    ensures forall k :: 0 <= k < |r| - 1 ==> !(r[k] == ' ' && r[k + 1] == ' ')
  {
    assert forall k :: 0 <= k < |r| ==> r[k] == c[a + k];
  }

  /** A text whose whitespace is single spaces only keeps that shape when stripped,
      and keeps its non-space characters. */
  lemma {:induction false} StripCollapsed(c: string)
    requires forall k :: 0 <= k < |c| && IsSpace(c[k]) ==> c[k] == ' '
    requires forall k :: 0 <= k < |c| - 1 ==> !(IsSpace(c[k]) && IsSpace(c[k + 1]))
    ensures SingleSpaced(Strip(c))
    ensures NonSpace(Strip(c)) == NonSpace(c)
  {
    var r := Strip(c);
    var a, b := StripBounds(c);
    NonSpaceSlice(c, a, b);
    SliceOfCollapsed(c, a, b, r);
  }

  /** `re.sub(r"\s+", " ", s).strip()`: single spaces between the words of `s` and
      none at either end, which is `" ".join(s.split())`. */
  function NormalizeSpaces(s: string): (r: string)
    ensures r == [] || (r[0] != ' ' && r[|r| - 1] != ' ')
    ensures forall k :: 0 <= k < |r| && IsSpace(r[k]) ==> r[k] == ' '
    ensures forall k :: 0 <= k < |r| - 1 ==> !(r[k] == ' ' && r[k + 1] == ' ')
    ensures NonSpace(r) == NonSpace(s)
    ensures r == Join(Words(s), " ")
  {
    var c := CollapseSpaces(s);
    StripCollapsed(c);
    var r := Strip(c);
    WordsStrip(c);
    SingleSpacedIsJoin(r);
    r
  }

  /** No space at either end, whitespace only as single spaces. */
  predicate SingleSpaced(r: string) {
    && (r == [] || (r[0] != ' ' && r[|r| - 1] != ' '))
    && (forall k :: 0 <= k < |r| && IsSpace(r[k]) ==> r[k] == ' ')
    && (forall k :: 0 <= k < |r| - 1 ==> !(r[k] == ' ' && r[k + 1] == ' '))
  }

  /** A single-spaced text is its words joined by single spaces. */
  lemma {:induction false} SingleSpacedIsJoin(r: string)
    requires SingleSpaced(r)
    ensures r == Join(Words(r), " ")
    decreases |r|
  {
    if r == [] {
      WordsEmpty();
    } else {
      var n := WordLength(r);
      assert !IsSpace(r[0]);
      if n == |r| {
        assert r[..n] == r;
        WordsOfWord(r);
      } else {
        SingleSpacedAfterWord(r, n);
        var x := r[n + 1..];
        SingleSpacedIsJoin(x);
        WordSpaceJoin(r, n, x);
      }
    }
  }

  /** After the first word of a single-spaced text come one space and another
      single-spaced text that starts with a word. */
  lemma {:induction false} SingleSpacedAfterWord(r: string, n: nat)
    requires SingleSpaced(r) && r != [] && n == WordLength(r) && n < |r|
    ensures n + 1 < |r| && r[n] == ' '
    ensures SingleSpaced(r[n + 1..]) && !IsSpace(r[n + 1])
  {
    assert IsSpace(r[n]);
    var x := r[n + 1..];
    assert forall k :: 0 <= k < |x| ==> x[k] == r[n + 1 + k];
  }

  lemma {:induction false} SplitAround(r: string, n: nat)
    requires n < |r| && r[n] == ' '
    ensures r == r[..n] + " " + r[n + 1..]
  {
  }

  lemma {:induction false} WordSpaceJoin(r: string, n: nat, x: string)
    requires 0 < n < |r| && n == WordLength(r) && r[n] == ' ' && x == r[n + 1..]
    requires x != [] && !IsSpace(x[0]) && x == Join(Words(x), " ")
    ensures r == Join(Words(r), " ")
  {
    var w := r[..n];
    SplitAround(r, n);
    WordThenSpace(w, x, Words(x));
    WordsAllSpace(x);
    var ws := [w] + Words(x);
    assert ws[1..] == Words(x) && ws[0] == w;
    JoinCons(ws, " ");
  }

  // ---------------------------------------------------------------------------
  // clean_message (lines 86-91) and is_empty_after_cleaning (line 94)

  /** The message with emojis, system markers and links deleted and its whitespace
      normalised. Only characters of the message, or spaces, are left, none of them an
      emoji on its own. */
  function CleanMessage(text: string, emojiData: set<string>): (r: string)
    ensures r == [] || (r[0] != ' ' && r[|r| - 1] != ' ')
    ensures forall k :: 0 <= k < |r| - 1 ==> !(r[k] == ' ' && r[k + 1] == ' ')
    ensures forall k :: 0 <= k < |r| ==> r[k] == ' ' || (r[k] in text && !IsSpace(r[k]) && !IsEmojiChar(r[k], emojiData))
    ensures NonSpace(r) == NonSpace(RemoveUrls(RemoveMarkers(RemoveEmoji(text, emojiData))))
    ensures r == Join(Words(RemoveUrls(RemoveMarkers(RemoveEmoji(text, emojiData)))), " ")
  {
    var e := RemoveEmoji(text, emojiData);
    var u := RemoveUrls(RemoveMarkers(e));
    var r := NormalizeSpaces(u);
    forall k | 0 <= k < |r| && r[k] != ' '
      ensures r[k] in text && !IsSpace(r[k]) && !IsEmojiChar(r[k], emojiData)
    {
      assert !IsSpace(r[k]);
      NonSpaceMember(r, k);
      NonSpaceSubset(u);
      assert r[k] in multiset(u);
      assert r[k] in multiset(e);
      assert r[k] in multiset(text);
      var j :| 0 <= j < |e| && e[j] == r[k];
    }
    r
  }

  lemma {:induction false} NonSpaceMember(s: string, k: nat)
    requires k < |s| && !IsSpace(s[k])
    ensures s[k] in NonSpace(s)
  {
    if k > 0 {
      NonSpaceMember(s[1..], k - 1);
    }
  }

  lemma {:induction false} NonSpaceSubset(s: string)
    ensures forall c :: c in NonSpace(s) ==> c in s
  {
    if s != [] {
      NonSpaceSubset(s[1..]);
    }
  }

  /** Cleaning keeps exactly the words of the message once emojis, markers and links
      are deleted. */
  lemma {:induction false} CleanMessageWords(text: string, emojiData: set<string>)
    ensures Words(CleanMessage(text, emojiData)) == Words(RemoveUrls(RemoveMarkers(RemoveEmoji(text, emojiData))))
  {
    WordsOfJoin(Words(RemoveUrls(RemoveMarkers(RemoveEmoji(text, emojiData)))));
  }

  /** Line 94: a message is empty after cleaning exactly when nothing but whitespace
      is left of it once emojis, markers and links are gone. */
  lemma {:induction false} EmptyAfterCleaning(text: string, emojiData: set<string>)
    ensures CleanMessage(text, emojiData) == [] <==> AllSpace(RemoveUrls(RemoveMarkers(RemoveEmoji(text, emojiData))))
  {
    var u := RemoveUrls(RemoveMarkers(RemoveEmoji(text, emojiData)));
    var r := CleanMessage(text, emojiData);
    AllSpaceNonSpace(u);
    assert NonSpace(r) == NonSpace(u);
    if r != [] {
      assert !IsSpace(r[0]);
      NonSpaceMember(r, 0);
    }
  }
}
