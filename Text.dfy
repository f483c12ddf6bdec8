/** Python's `str` operations that the chat parser and the statistics rely on:
    whitespace (`str.isspace`, the `\s` class of `re`), `strip`, `split()`,
    `split(c)[0]`, `split(c)[-1]`, substring search, `title` and `str(n)`. */
module Text {

  /** Python's `str.isspace()`; the `\s` class of `re` on `str` patterns is the same set. */
  predicate IsSpace(c: char) {
    ('\t' <= c <= '\r') || ('\U{1C}' <= c <= ' ') || c == '\U{85}' || c == '\U{A0}'
    || c == '\U{1680}' || ('\U{2000}' <= c <= '\U{200A}') || c == '\U{2028}' || c == '\U{2029}'
    || c == '\U{202F}' || c == '\U{205F}' || c == '\U{3000}'
  }

  predicate IsDigit(c: char) { '0' <= c <= '9' }

  predicate AllDigits(s: string) { forall k :: 0 <= k < |s| ==> IsDigit(s[k]) }

  predicate AllSpace(s: string) { forall k :: 0 <= k < |s| ==> IsSpace(s[k]) }

  predicate NoSpace(s: string) { forall k :: 0 <= k < |s| ==> !IsSpace(s[k]) }

  predicate IsLetter(c: char) { 'a' <= c <= 'z' || 'A' <= c <= 'Z' }

  function Upper(c: char): char { if 'a' <= c <= 'z' then (c as int - 32) as char else c }

  function Lower(c: char): char { if 'A' <= c <= 'Z' then (c as int + 32) as char else c }

  function LowerString(s: string): (r: string)
    ensures |r| == |s| && forall k :: 0 <= k < |s| ==> r[k] == Lower(s[k])
  {
    if s == [] then [] else [Lower(s[0])] + LowerString(s[1..])
  }

  /** `s[i..]` starts with `p`. */
  predicate StartsAt(s: string, i: nat, p: string) {
    i + |p| <= |s| && s[i..i + |p|] == p
  }

  /** Python's `p in s` for strings. */
  predicate Contains(s: string, p: string) {
    exists i :: 0 <= i <= |s| && StartsAt(s, i, p)
  }

  // ---------------------------------------------------------------------------
  // strip()

  function TrimStart(s: string): (r: string)
    ensures |r| <= |s| && r == s[|s| - |r|..]
    ensures r == [] || !IsSpace(r[0])
    ensures AllSpace(s[..|s| - |r|])
  {
    if s != [] && IsSpace(s[0]) then
      var r := TrimStart(s[1..]);
      assert s[..|s| - |r|] == [s[0]] + s[1..][..|s[1..]| - |r|];
      r
    else s
  }

  function TrimEnd(s: string): (r: string)
    ensures |r| <= |s| && r == s[..|r|]
    ensures r == [] || !IsSpace(r[|r| - 1])
    ensures AllSpace(s[|r|..])
  {
    if s != [] && IsSpace(s[|s| - 1]) then
      var r := TrimEnd(s[..|s| - 1]);
      assert s[|r|..] == s[..|s| - 1][|r|..] + [s[|s| - 1]];
      r
    else s
  }

  /** `str.strip()` with no argument. */
  function Strip(s: string): (r: string)
    ensures r == [] || (!IsSpace(r[0]) && !IsSpace(r[|r| - 1]))
  {
    TrimEnd(TrimStart(s))
  }

  /** What `Strip` removes is whitespace at either end, and nothing else. */
  lemma {:induction false} StripSlice(s: string)
    ensures exists a, b :: 0 <= a <= b <= |s| && Strip(s) == s[a..b] && AllSpace(s[..a]) && AllSpace(s[b..])
  {
    var a, b := StripBounds(s);
  }

  /** Where the slice kept by `Strip` begins and ends. */
  lemma {:induction false} StripBounds(s: string) returns (a: nat, b: nat)
    ensures a <= b <= |s| && Strip(s) == s[a..b] && AllSpace(s[..a]) && AllSpace(s[b..])
  {
    var t := TrimStart(s);
    var r := TrimEnd(t);
    a, b := |s| - |t|, |s| - |t| + |r|;
    assert r == s[a..b];
    assert s[b..] == t[|r|..];
  }

  lemma {:induction false} StripUnchanged(s: string)
    requires s == [] || (!IsSpace(s[0]) && !IsSpace(s[|s| - 1]))
    ensures Strip(s) == s
  {
    StripSlice(s);
  }

  // ---------------------------------------------------------------------------
  // split(c)[0] and split(c)[-1]

  /** `s.split(c)[0]`: the text before the first `c`, or all of `s`. */
  function BeforeFirst(s: string, c: char): (r: string)
    ensures |r| <= |s| && r == s[..|r|] && c !in r
    ensures |r| < |s| ==> s[|r|] == c
  {
    if s == [] || s[0] == c then [] else [s[0]] + BeforeFirst(s[1..], c)
  }

  /** `s.split(c)[-1]`: the text after the last `c`, or all of `s`. */
  function AfterLast(s: string, c: char): (r: string)
    ensures |r| <= |s| && r == s[|s| - |r|..] && c !in r
    ensures |r| < |s| ==> s[|s| - |r| - 1] == c
  {
    if s == [] || s[|s| - 1] == c then [] else AfterLast(s[..|s| - 1], c) + [s[|s| - 1]]
  }

  lemma {:induction false} BeforeFirstAt(s: string, c: char, k: nat)
    requires k < |s| && s[k] == c && c !in s[..k]
    ensures BeforeFirst(s, c) == s[..k]
  {
  }

  lemma {:induction false} AfterLastAt(s: string, c: char, k: nat)
    requires k < |s| && s[k] == c && c !in s[k + 1..]
    ensures AfterLast(s, c) == s[k + 1..]
  {
  }

  // ---------------------------------------------------------------------------
  // split() with no argument

  /** Length of the run of non-space characters at the start of `s`. */
  function WordLength(s: string): (n: nat)
    ensures n <= |s| && NoSpace(s[..n]) && (n == |s| || IsSpace(s[n]))
  {
    if s == [] || IsSpace(s[0]) then 0 else 1 + WordLength(s[1..])
  }

  lemma {:induction false} WordsCons(w: string, rest: seq<string>)
    requires w != [] && NoSpace(w)
    requires forall k :: 0 <= k < |rest| ==> rest[k] != [] && NoSpace(rest[k])
    ensures forall k :: 0 <= k < |[w] + rest| ==> ([w] + rest)[k] != [] && NoSpace(([w] + rest)[k])
  {
    forall k | 0 < k < |[w] + rest| ensures ([w] + rest)[k] == rest[k - 1] { }
  }

  /** `s.split()`: the maximal runs of non-space characters, in order. */
  function Words(s: string): (ws: seq<string>)
    ensures forall k :: 0 <= k < |ws| ==> ws[k] != [] && NoSpace(ws[k])
    decreases |s|
  {
    var t := TrimStart(s);
    if t == [] then []
    else
      var n := WordLength(t);
      assert n > 0 && NoSpace(t[..n]);
      var rest := Words(t[n..]);
      WordsCons(t[..n], rest);
      [t[..n]] + rest
  }

  function Concat(ws: seq<string>): string {
    if ws == [] then [] else ws[0] + Concat(ws[1..])
  }

  /** The characters of `s` that are not whitespace, in order. */
  function NonSpace(s: string): string {
    if s == [] then [] else (if IsSpace(s[0]) then [] else [s[0]]) + NonSpace(s[1..])
  }

  lemma {:induction false} NonSpaceAppend(a: string, b: string)
    ensures NonSpace(a + b) == NonSpace(a) + NonSpace(b)
  {
    if a == [] {
      assert a + b == b;
    } else {
      var h := if IsSpace(a[0]) then [] else [a[0]];
      assert (a + b)[0] == a[0] && (a + b)[1..] == a[1..] + b;
      NonSpaceAppend(a[1..], b);
      assert NonSpace(a + b) == h + (NonSpace(a[1..]) + NonSpace(b));
      assert NonSpace(a) == h + NonSpace(a[1..]);
    }
  }

  lemma {:induction false} NonSpaceTrimStart(s: string)
    ensures NonSpace(TrimStart(s)) == NonSpace(s)
  {
    if s != [] && IsSpace(s[0]) { NonSpaceTrimStart(s[1..]); }
  }

  lemma {:induction false} NonSpaceWord(t: string)
    ensures NonSpace(t) == t[..WordLength(t)] + NonSpace(t[WordLength(t)..])
  {
    if t != [] && !IsSpace(t[0]) {
      NonSpaceWord(t[1..]);
      assert t[1..][..WordLength(t[1..])] == t[1..WordLength(t)];
    }
  }

  /** `split()` loses exactly the whitespace: gluing the words back together
      gives the non-space characters of the input. */
  lemma {:induction false} WordsKeepNonSpace(s: string)
    ensures Concat(Words(s)) == NonSpace(s)
    decreases |s|
  {
    var t := TrimStart(s);
    NonSpaceTrimStart(s);
    if t != [] {
      var n := WordLength(t);
      NonSpaceWord(t);
      WordsKeepNonSpace(t[n..]);
    }
  }

  /** Leading whitespace is skipped before the first word. */
  lemma {:induction false} WordsSpaceHead(s: string)
    requires s != [] && IsSpace(s[0])
    ensures Words(s) == Words(s[1..])
  {
    assert TrimStart(s) == TrimStart(s[1..]);
  }

  /** A word starting at the head of `s` runs up to the first whitespace. */
  lemma {:induction false} WordsWordHead(s: string)
    requires s != [] && !IsSpace(s[0])
    ensures Words(s) == [s[..WordLength(s)]] + Words(s[WordLength(s)..])
  {
    assert TrimStart(s) == s;
  }

  lemma {:induction false} WordsTrimStart(s: string)
    ensures Words(TrimStart(s)) == Words(s)
  {
    var t := TrimStart(s);
    assert TrimStart(t) == t;
  }

  lemma {:induction false} WordLengthBeforeSpace(a: string, c: char, b: string)
    requires IsSpace(c)
    ensures WordLength(a + [c] + b) == WordLength(a)
  {
    var u := a + [c] + b;
    if a == [] {
      assert u[0] == c;
    } else if !IsSpace(a[0]) {
      assert u[0] == a[0] && u[1..] == a[1..] + [c] + b;
      WordLengthBeforeSpace(a[1..], c, b);
    } else {
      assert u[0] == a[0];
    }
  }

  /** A whitespace character always separates words: `split()` of `a + c + b` is the
      words of `a` followed by the words of `b`. With `WordsOfWord` and `WordsAllSpace`
      this fixes `Words` as the maximal runs of non-space characters. */
  lemma {:induction false} WordsSplit(a: string, c: char, b: string)
    requires IsSpace(c)
    ensures Words(a + [c] + b) == Words(a) + Words(b)
    decreases |a|
  {
    if a == [] {
      WordsSplitEmpty(c, b);
    } else if IsSpace(a[0]) {
      WordsSplit(a[1..], c, b);
      WordsSplitSpaceStep(a, c, b);
    } else {
      var n := WordLength(a);
      WordsSplit(a[n..], c, b);
      WordsSplitWordStep(a, c, b);
    }
  }

  lemma {:induction false} WordsSplitEmpty(c: char, b: string)
    requires IsSpace(c)
    ensures Words([] + [c] + b) == Words([]) + Words(b)
  {
    var u := [] + [c] + b;
    assert u[0] == c && u[1..] == b;
    WordsSpaceHead(u);
    WordsEmpty();
    assert Words([]) + Words(b) == Words(b);
  }

  lemma {:induction false} WordsSplitSpaceStep(a: string, c: char, b: string)
    requires IsSpace(c) && a != [] && IsSpace(a[0])
    requires Words(a[1..] + [c] + b) == Words(a[1..]) + Words(b)
    ensures Words(a + [c] + b) == Words(a) + Words(b)
  {
    var u := a + [c] + b;
    SplitSlices(a, [c] + b, 1);
    ConcatAssoc(a, [c], b);
    ConcatAssoc(a[1..], [c], b);
    WordsSpaceHead(u);
    WordsSpaceHead(a);
  }

  lemma {:induction false} WordsSplitWordStep(a: string, c: char, b: string)
    requires IsSpace(c) && a != [] && !IsSpace(a[0])
    requires Words(a[WordLength(a)..] + [c] + b) == Words(a[WordLength(a)..]) + Words(b)
    ensures Words(a + [c] + b) == Words(a) + Words(b)
  {
    var u := a + [c] + b;
    var n := WordLength(a);
    SplitSlices(a, [c] + b, n);
    ConcatAssoc(a, [c], b);
    ConcatAssoc(a[n..], [c], b);
    WordLengthBeforeSpace(a, c, b);
    WordsWordHead(u);
    WordsWordHead(a);
    assert Words(u) == [a[..n]] + Words(a[n..] + [c] + b);
    ConcatAssoc([a[..n]], Words(a[n..]), Words(b));
  }

  lemma {:induction false} SplitSlices(a: string, b: string, n: nat)
    requires 0 < n <= |a|
    ensures (a + b)[0] == a[0] && (a + b)[..n] == a[..n] && (a + b)[n..] == a[n..] + b
  {
  }

  lemma {:induction false} ConcatAssoc<T>(h: seq<T>, x: seq<T>, y: seq<T>)
    ensures h + (x + y) == (h + x) + y
  {
  }

  lemma {:induction false} WordsEmpty()
    ensures Words([]) == []
  {
    assert TrimStart([]) == [];
  }

  /** A non-space character in front of `x` starts a new word when `x` starts with
      whitespace or is empty, and otherwise joins the first word of `x`. */
  lemma {:induction false} WordsConsChar(c: char, x: string)
    requires !IsSpace(c)
    ensures x == [] || IsSpace(x[0]) ==> Words([c] + x) == [[c]] + Words(x)
    ensures x != [] && !IsSpace(x[0]) ==> Words(x) != [] && Words([c] + x) == [[c] + Words(x)[0]] + Words(x)[1..]
  {
    var u := [c] + x;
    var n := WordLength(x);
    ConsSlices(c, x, n);
    assert WordLength(u) == 1 + n;
    WordsWordHead(u);
    if n > 0 {
      WordsWordHead(x);
    }
  }

  lemma {:induction false} ConsSlices(c: char, x: string, n: nat)
    requires n <= |x|
    ensures ([c] + x)[0] == c && ([c] + x)[1..] == x
    ensures ([c] + x)[..n + 1] == [c] + x[..n] && ([c] + x)[n + 1..] == x[n..]
  {
  }

  /** A non-empty run without whitespace is one word. */
  lemma {:induction false} WordsOfWord(w: string)
    requires w != [] && NoSpace(w)
    ensures Words(w) == [w]
  {
    assert WordLength(w) == |w|;
    assert w[..|w|] == w && w[|w|..] == [];
    WordsWordHead(w);
    WordsEmpty();
  }

  /** `split()` gives no word exactly when there is only whitespace. */
  lemma {:induction false} WordsAllSpace(s: string)
    ensures Words(s) == [] <==> AllSpace(s)
  {
    var t := TrimStart(s);
    assert s[..|s| - |t|] + t == s;
    if t != [] {
      assert s[|s| - |t|] == t[0];
    }
  }

  /** Whitespace around a text adds no words. */
  lemma {:induction false} WordsPadded(p: string, m: string, q: string)
    requires AllSpace(p) && AllSpace(q)
    ensures Words(p + m + q) == Words(m)
    decreases |p|
  {
    if p != [] {
      var u := p + m + q;
      assert u[0] == p[0] && u[1..] == p[1..] + m + q;
      WordsSpaceHead(u);
      WordsPadded(p[1..], m, q);
    } else if q != [] {
      assert p + m + q == m + [q[0]] + q[1..];
      WordsSplit(m, q[0], q[1..]);
      WordsAllSpace(q[1..]);
    } else {
      assert p + m + q == m;
    }
  }

  /** `strip()` does not change `split()`. */
  lemma {:induction false} WordsStrip(s: string)
    ensures Words(Strip(s)) == Words(s)
  {
    var t := TrimStart(s);
    var r := TrimEnd(t);
    WordsTrimStart(s);
    WordsTrimEnd(t, r);
  }

  lemma {:induction false} WordsTrimEnd(t: string, r: string)
    requires r == TrimEnd(t)
    ensures Words(r) == Words(t)
  {
    var q := t[|r|..];
    assert t == [] + r + q;
    WordsPadded([], r, q);
  }

  /** The number of positions of `s` where a word starts: a non-space character at the
      start, or right after whitespace (`prevSpace` says whether the character before
      `s` was whitespace or absent). */
  function StartsFrom(s: string, prevSpace: bool): nat {
    if s == [] then 0
    else (if prevSpace && !IsSpace(s[0]) then 1 else 0) + StartsFrom(s[1..], IsSpace(s[0]))
  }

  /** `len(s.split())` is the number of places where a run of non-space characters
      begins. */
  lemma {:induction false} WordsCount(s: string)
    ensures |Words(s)| == StartsFrom(s, true)
    decreases |s|
  {
    if s == [] {
      WordsEmpty();
    } else if IsSpace(s[0]) {
      WordsSpaceHead(s);
      WordsCount(s[1..]);
    } else {
      var n := WordLength(s);
      WordsWordHead(s);
      StartsInsideWord(s[1..]);
      assert s[1..][WordLength(s[1..])..] == s[n..];
      WordsCount(s[n..]);
    }
  }

  /** Inside a word no new word starts before the next whitespace. */
  lemma {:induction false} StartsInsideWord(t: string)
    ensures StartsFrom(t, false) == StartsFrom(t[WordLength(t)..], true)
  {
    if t != [] && !IsSpace(t[0]) {
      StartsInsideWord(t[1..]);
      assert t[1..][WordLength(t[1..])..] == t[WordLength(t)..];
    }
  }

  // ---------------------------------------------------------------------------
  // sep.join(ws)

  /** `sep.join(ws)`. */
  function Join(ws: seq<string>, sep: string): (r: string)
    ensures ws == [] ==> r == []
    ensures |ws| == 1 ==> r == ws[0]
  {
    if ws == [] then []
    else if |ws| == 1 then ws[0]
    else ws[0] + sep + Join(ws[1..], sep)
  }

  /** `" ".join` and `split()` are inverse on words: joining words with single spaces
      and splitting again gives the words back. */
  lemma {:induction false} WordsOfJoin(ws: seq<string>)
    requires forall k :: 0 <= k < |ws| ==> ws[k] != [] && NoSpace(ws[k])
    ensures Words(Join(ws, " ")) == ws
  {
    if ws == [] {
      assert TrimStart([]) == [];
    } else if |ws| == 1 {
      WordsOfWord(ws[0]);
    } else {
      WordsOfJoin(ws[1..]);
      WordsOfJoinStep(ws);
    }
  }

  lemma {:induction false} WordsOfJoinStep(ws: seq<string>)
    requires |ws| > 1 && ws[0] != [] && NoSpace(ws[0])
    requires Words(Join(ws[1..], " ")) == ws[1..]
    ensures Words(Join(ws, " ")) == ws
  {
    HeadTail(ws);
    JoinCons(ws, " ");
    WordThenSpace(ws[0], Join(ws[1..], " "), ws[1..]);
  }

  lemma {:induction false} HeadTail<T>(xs: seq<T>)
    requires xs != []
    ensures xs == [xs[0]] + xs[1..]
  {
  }

  lemma {:induction false} JoinCons(ws: seq<string>, sep: string)
    requires |ws| > 1
    ensures Join(ws, sep) == ws[0] + sep + Join(ws[1..], sep)
  {
  }

  lemma {:induction false} WordThenSpace(w: string, rest: string, tail: seq<string>)
    requires w != [] && NoSpace(w) && Words(rest) == tail
    ensures Words(w + " " + rest) == [w] + tail
  {
    WordsOfWord(w);
    WordsSplit(w, ' ', rest);
  }

  // ---------------------------------------------------------------------------
  // title()

  function TitleFrom(s: string, prevCased: bool): (r: string)
    ensures |r| == |s|
    ensures forall k :: 0 <= k < |s| && !IsLetter(s[k]) ==> r[k] == s[k]
    ensures forall k {:trigger r[k]} :: 1 <= k < |s| && IsLetter(s[k]) ==>
              r[k] == (if IsLetter(s[k - 1]) then Lower(s[k]) else Upper(s[k]))
    ensures |s| > 0 && IsLetter(s[0]) ==> r[0] == (if prevCased then Lower(s[0]) else Upper(s[0]))
  {
    if s == [] then []
    else
      var c := if prevCased then Lower(s[0]) else Upper(s[0]);
      [c] + TitleFrom(s[1..], IsLetter(s[0]))
  }

  /** `str.title()`: a letter is upper-cased when it does not follow a letter and
      lower-cased when it does; other characters are kept. Only ASCII letters are cased here. */
  function Title(s: string): (r: string)
    ensures |r| == |s|
  {
    TitleFrom(s, false)
  }

  lemma {:induction false} TitleFromIdempotent(s: string, b: bool)
    ensures TitleFrom(TitleFrom(s, b), b) == TitleFrom(s, b)
  {
    if s != [] {
      var c := if b then Lower(s[0]) else Upper(s[0]);
      assert IsLetter(c) == IsLetter(s[0]);
      assert TitleFrom(s, b)[1..] == TitleFrom(s[1..], IsLetter(s[0]));
      TitleFromIdempotent(s[1..], IsLetter(s[0]));
    }
  }

  /** Title-casing a title-cased name changes nothing. */
  lemma {:induction false} TitleIdempotent(s: string)
    ensures Title(Title(s)) == Title(s)
  {
    TitleFromIdempotent(s, false);
  }

  /** No title-cased string starts with a lower-case letter. */
  lemma {:induction false} TitleFirstNotLower(s: string)
    ensures Title(s) == [] || !('a' <= Title(s)[0] <= 'z')
  {
  }

  // ---------------------------------------------------------------------------
  // str(n) for a natural number

  function DigitChar(d: nat): char
    requires d < 10
  {
    ('0' as int + d) as char
  }

  /** `str(n)`: decimal digits, no leading zero. */
  function NatToString(n: nat): (r: string)
    ensures |r| >= 1 && AllDigits(r)
    ensures r[0] == '0' ==> n == 0
  {
    if n < 10 then [DigitChar(n)] else NatToString(n / 10) + [DigitChar(n % 10)]
  }

  /** The value of a string of decimal digits, as `int(s)` reads it. */
  function DigitsValue(s: string): nat
    requires AllDigits(s)
  {
    if s == [] then 0 else DigitsValue(s[..|s| - 1]) * 10 + (s[|s| - 1] as int - '0' as int)
  }

  lemma {:induction false} NatToStringRoundTrip(n: nat)
    ensures DigitsValue(NatToString(n)) == n
  {
    if n >= 10 {
      var r := NatToString(n);
      assert r[..|r| - 1] == NatToString(n / 10);
      NatToStringRoundTrip(n / 10);
    }
  }

  /** Distinct numbers print differently. */
  lemma {:induction false} NatToStringInjective(m: nat, n: nat)
    requires NatToString(m) == NatToString(n)
    ensures m == n
  {
    NatToStringRoundTrip(m);
    NatToStringRoundTrip(n);
  }

  // ---------------------------------------------------------------------------
  // Subsequences: what is left when some elements are dropped and the rest keep their order

  /** `r` is `s` with some elements dropped, the others in their original order. */
  predicate Subsequence<T(==)>(r: seq<T>, s: seq<T>)
    decreases |s|
  {
    r == [] || (s != [] && ((r[0] == s[0] && Subsequence(r[1..], s[1..])) || Subsequence(r, s[1..])))
  }

  /** Elements in front of `s` may all be dropped. */
  lemma {:induction false} SubsequencePrepend<T>(r: seq<T>, d: seq<T>, s: seq<T>)
    requires Subsequence(r, s)
    ensures Subsequence(r, d + s)
    decreases |d|
  {
    if d != [] {
      SubsequencePrepend(r, d[1..], s);
      assert (d + s)[1..] == d[1..] + s;
    } else {
      assert d + s == s;
    }
  }

  /** A common first element may be kept. */
  lemma {:induction false} SubsequenceCons<T>(x: T, r: seq<T>, s: seq<T>)
    requires Subsequence(r, s)
    ensures Subsequence([x] + r, [x] + s)
  {
    assert ([x] + r)[1..] == r && ([x] + s)[1..] == s;
  }
}
