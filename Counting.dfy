/** Counting over sequences, as pandas' `value_counts`, `unique`, `groupby(...).count()`
    and `collections.Counter.most_common` do it. */
module Counting {

  /** Number of occurrences of `x` in `xs`. */
  function Count<T(==)>(xs: seq<T>, x: T): (n: nat)
    ensures n <= |xs|
    ensures n > 0 <==> x in xs
  {
    if xs == [] then 0 else (if xs[0] == x then 1 else 0) + Count(xs[1..], x)
  }

  lemma {:induction false} CountAppend<T>(a: seq<T>, b: seq<T>, x: T)
    ensures Count(a + b, x) == Count(a, x) + Count(b, x)
  {
    if a == [] {
      assert a + b == b;
    } else {
      assert (a + b)[1..] == a[1..] + b;
      CountAppend(a[1..], b, x);
    }
  }

  predicate Distinct<T(==)>(xs: seq<T>) {
    forall i, j :: 0 <= i < j < |xs| ==> xs[i] != xs[j]
  }

  /** `Series.unique()`: each value once, in order of first appearance. */
  function Unique<T(==,!new)>(xs: seq<T>): (d: seq<T>)
    ensures Distinct(d)
    ensures forall x :: x in d <==> x in xs
  {
    if xs == [] then []
    else
      var d := Unique(xs[..|xs| - 1]);
      assert xs == xs[..|xs| - 1] + [xs[|xs| - 1]];
      if xs[|xs| - 1] in d then d else d + [xs[|xs| - 1]]
  }

  /** The position of the first occurrence of `x` in `xs`, or `|xs|` when there is none. */
  function FirstIndex<T(==)>(xs: seq<T>, x: T): (i: nat)
    ensures i <= |xs|
    ensures i < |xs| <==> x in xs
    ensures i < |xs| ==> xs[i] == x
    ensures forall k :: 0 <= k < i ==> xs[k] != x
  {
    if xs == [] then 0
    else if xs[0] == x then 0
    else
      var i := FirstIndex(xs[1..], x);
      assert forall k :: 1 <= k < 1 + i ==> xs[k] == xs[1..][k - 1];
      1 + i
  }

  /** Appending an element does not move the first occurrence of a value already
      present, and a new value first occurs at the end. */
  lemma {:induction false} FirstIndexSnoc<T>(init: seq<T>, y: T, x: T)
    ensures x in init ==> FirstIndex(init + [y], x) == FirstIndex(init, x)
    ensures x !in init && x == y ==> FirstIndex(init + [y], x) == |init|
  {
    var xs := init + [y];
    var i, i' := FirstIndex(xs, x), FirstIndex(init, x);
    if x in init {
      assert xs[i'] == init[i'];
    } else if x == y {
      assert xs[|init|] == y;
    }
  }

  /** `unique()` lists the values in the order of their first occurrence. */
  lemma {:induction false} UniqueFirstOrder<T(!new)>(xs: seq<T>)
    ensures forall i, j :: 0 <= i < j < |Unique(xs)| ==> FirstIndex(xs, Unique(xs)[i]) < FirstIndex(xs, Unique(xs)[j])
  {
    if xs != [] {
      var init, last := xs[..|xs| - 1], xs[|xs| - 1];
      var d := Unique(init);
      UniqueFirstOrder(init);
      assert xs == init + [last];
      forall y | y in d ensures FirstIndex(xs, y) == FirstIndex(init, y) < |init| {
        FirstIndexSnoc(init, last, y);
      }
      if last !in d {
        FirstIndexSnoc(init, last, last);
        var e := d + [last];
        forall i, j | 0 <= i < j < |e| ensures FirstIndex(xs, e[i]) < FirstIndex(xs, e[j]) {
          assert e[i] == d[i] && e[i] in d;
          if j < |d| {
            assert e[j] == d[j] && e[j] in d;
          }
        }
      }
    }
  }

  /** A sequence without repetitions has as many elements as its set. */
  lemma {:induction false} DistinctCardinality<T>(d: seq<T>)
    requires Distinct(d)
    ensures |set x | x in d| == |d|
  {
    if d != [] {
      var rest := d[1..];
      DistinctCardinality(rest);
      assert (set x | x in d) == (set x | x in rest) + {d[0]};
      assert d[0] !in rest;
    }
  }

  lemma {:induction false} SetOfSeqSize<T>(s: seq<T>)
    ensures |set x | x in s| <= |s|
  {
    if s != [] {
      SetOfSeqSize(s[1..]);
      assert (set x | x in s) == (set x | x in s[1..]) + {s[0]};
    }
  }

  /** A sequence without repetitions drawn from the values of `s` is no longer than `s`. */
  lemma {:induction false} DistinctWithin<T>(d: seq<T>, s: seq<T>)
    requires Distinct(d)
    requires forall x :: x in d ==> x in s
    ensures |d| <= |s|
  {
    DistinctCardinality(d);
    SetOfSeqSize(s);
    var a, b := set x | x in d, set x | x in s;
    assert a <= b;
    assert b == a + (b - a) && a * (b - a) == {};
  }

  // ---------------------------------------------------------------------------
  // Boolean-mask selection, `df[mask]`

  /** The elements satisfying `keep`, in their order, duplicates included. */
  function Filter<T(==,!new)>(xs: seq<T>, keep: T -> bool): (r: seq<T>)
    ensures |r| <= |xs|
    ensures forall x :: x in r <==> x in xs && keep(x)
  {
    if xs == [] then []
    else
      var rest := Filter(xs[1..], keep);
      assert forall x :: x in xs <==> x == xs[0] || x in xs[1..];
      if keep(xs[0]) then [xs[0]] + rest else rest
  }

  /** Selection keeps the order: it distributes over concatenation. */
  lemma {:induction false} FilterAppend<T(!new)>(a: seq<T>, b: seq<T>, keep: T -> bool)
    ensures Filter(a + b, keep) == Filter(a, keep) + Filter(b, keep)
  {
    if a == [] {
      assert a + b == b;
    } else {
      assert (a + b)[0] == a[0] && (a + b)[1..] == a[1..] + b;
      FilterAppend(a[1..], b, keep);
    }
  }

  /** The number of elements satisfying `keep`. */
  lemma {:induction false} FilterCount<T(!new)>(xs: seq<T>, x: T, keep: T -> bool)
    ensures Count(Filter(xs, keep), x) == if keep(x) then Count(xs, x) else 0
  {
    if xs != [] {
      FilterCount(xs[1..], x, keep);
      if keep(xs[0]) {
        assert ([xs[0]] + Filter(xs[1..], keep))[1..] == Filter(xs[1..], keep);
      }
    }
  }

  // ---------------------------------------------------------------------------
  // Stable insertion sort by an integer key

  predicate SortedBy<T>(xs: seq<T>, key: T -> int) {
    forall i, j :: 0 <= i < j < |xs| ==> key(xs[i]) <= key(xs[j])
  }

  function InsertBy<T(==,!new)>(x: T, ys: seq<T>, key: T -> int): (r: seq<T>)
    ensures |r| == |ys| + 1
    ensures multiset(r) == multiset(ys) + multiset{x}
    ensures forall z :: z in r <==> z == x || z in ys
  {
    if ys == [] || key(x) <= key(ys[0]) then [x] + ys
    else
      assert ys == [ys[0]] + ys[1..];
      [ys[0]] + InsertBy(x, ys[1..], key)
  }

  /** Sorts by non-decreasing `key`; elements with equal keys keep their order. */
  function SortBy<T(==,!new)>(xs: seq<T>, key: T -> int): (r: seq<T>)
    ensures |r| == |xs| && multiset(r) == multiset(xs)
  {
    if xs == [] then []
    else
      assert xs == [xs[0]] + xs[1..];
      assert multiset(xs) == multiset{xs[0]} + multiset(xs[1..]);
      var rest := SortBy(xs[1..], key);
      var r := InsertBy(xs[0], rest, key);
      assert multiset(r) == multiset(rest) + multiset{xs[0]};
      r
  }

  lemma {:induction false} DistinctCons<T>(x: T, ys: seq<T>)
    requires Distinct(ys) && x !in ys
    ensures Distinct([x] + ys)
  {
    forall i, j | 0 <= i < j < |[x] + ys| ensures ([x] + ys)[i] != ([x] + ys)[j] {
      if i > 0 { assert ([x] + ys)[i] == ys[i - 1]; }
      assert ([x] + ys)[j] == ys[j - 1];
    }
  }

  lemma {:induction false} InsertBySorted<T(!new)>(x: T, ys: seq<T>, key: T -> int)
    requires SortedBy(ys, key)
    ensures SortedBy(InsertBy(x, ys, key), key)
  {
    if ys == [] || key(x) <= key(ys[0]) {
      SortedHeadBound(ys, key);
      SortedCons(x, ys, key);
    } else {
      var tail := InsertBy(x, ys[1..], key);
      SortedTail(ys, key);
      InsertBySorted(x, ys[1..], key);
      SortedHeadBound(ys, key);
      forall z | z in tail ensures key(ys[0]) <= key(z) {
        assert z == x || z in ys[1..];
      }
      SortedCons(ys[0], tail, key);
    }
  }

  lemma {:induction false} SortedTail<T>(ys: seq<T>, key: T -> int)
    requires ys != [] && SortedBy(ys, key)
    ensures SortedBy(ys[1..], key)
  {
    forall i, j | 0 <= i < j < |ys[1..]| ensures key(ys[1..][i]) <= key(ys[1..][j]) {
      assert ys[1..][i] == ys[i + 1] && ys[1..][j] == ys[j + 1];
    }
  }

  /** In a sorted sequence nothing after the head has a smaller key. */
  lemma {:induction false} SortedHeadBound<T>(ys: seq<T>, key: T -> int)
    requires SortedBy(ys, key)
    ensures ys != [] ==> forall z :: z in ys[1..] ==> key(ys[0]) <= key(z)
  {
    if ys != [] {
      forall z | z in ys[1..] ensures key(ys[0]) <= key(z) {
        var k :| 0 <= k < |ys[1..]| && ys[1..][k] == z;
        assert ys[k + 1] == z;
      }
    }
  }

  lemma {:induction false} SortedCons<T>(h: T, tail: seq<T>, key: T -> int)
    requires SortedBy(tail, key) && forall z :: z in tail ==> key(h) <= key(z)
    ensures SortedBy([h] + tail, key)
  {
    var r := [h] + tail;
    forall i, j | 0 <= i < j < |r| ensures key(r[i]) <= key(r[j]) {
      assert r[j] == tail[j - 1] && r[j] in tail;
      if i > 0 { assert r[i] == tail[i - 1]; }
    }
  }

  lemma {:induction false} InsertByDistinct<T(!new)>(x: T, ys: seq<T>, key: T -> int)
    requires Distinct(ys) && x !in ys
    ensures Distinct(InsertBy(x, ys, key))
  {
    if ys == [] || key(x) <= key(ys[0]) {
      DistinctCons(x, ys);
    } else {
      assert ys == [ys[0]] + ys[1..];
      InsertByDistinct(x, ys[1..], key);
      DistinctCons(ys[0], InsertBy(x, ys[1..], key));
    }
  }

  /** The result of `SortBy` is in non-decreasing `key` order. */
  lemma {:induction false} SortBySorted<T(!new)>(xs: seq<T>, key: T -> int)
    ensures SortedBy(SortBy(xs, key), key)
  {
    if xs != [] {
      SortBySorted(xs[1..], key);
      InsertBySorted(xs[0], SortBy(xs[1..], key), key);
    }
  }

  /** Sorting a sequence without repetitions gives one without repetitions. */
  lemma {:induction false} SortByDistinct<T(!new)>(xs: seq<T>, key: T -> int)
    requires Distinct(xs)
    ensures Distinct(SortBy(xs, key))
  {
    if xs != [] {
      var s := SortBy(xs[1..], key);
      assert Distinct(xs[1..]) by {
        forall i, j | 0 <= i < j < |xs[1..]| ensures xs[1..][i] != xs[1..][j] {
          assert xs[1..][i] == xs[i + 1] && xs[1..][j] == xs[j + 1];
        }
      }
      SortByDistinct(xs[1..], key);
      assert xs[0] !in xs[1..];
      assert xs[0] !in s by {
        assert xs[0] in s <==> xs[0] in multiset(s);
      }
      InsertByDistinct(xs[0], s, key);
    }
  }

  /** `rank` strictly increases along `xs`. */
  predicate RankOrdered<T>(xs: seq<T>, rank: T -> int) {
    forall i, j :: 0 <= i < j < |xs| ==> rank(xs[i]) < rank(xs[j])
  }

  /** Elements with equal keys appear in increasing `rank`. */
  predicate StableBy<T>(r: seq<T>, key: T -> int, rank: T -> int) {
    forall i, j :: 0 <= i < j < |r| && key(r[i]) == key(r[j]) ==> rank(r[i]) < rank(r[j])
  }

  /** Inserting an element of smaller rank than all others keeps equal keys in rank
      order: it goes in front of the elements with its key. */
  lemma {:induction false} InsertByStable<T(!new)>(x: T, ys: seq<T>, key: T -> int, rank: T -> int)
    requires StableBy(ys, key, rank)
    requires forall z :: z in ys ==> rank(x) < rank(z)
    ensures StableBy(InsertBy(x, ys, key), key, rank)
  {
    if ys == [] || key(x) <= key(ys[0]) {
      StableFront(x, ys, key, rank);
    } else {
      StableTail(ys, key, rank);
      InsertByStable(x, ys[1..], key, rank);
      StableAfterHead(ys, InsertBy(x, ys[1..], key), x, key, rank);
    }
  }

  /** An element of smallest rank may go in front. */
  lemma {:induction false} StableFront<T>(x: T, ys: seq<T>, key: T -> int, rank: T -> int)
    requires StableBy(ys, key, rank)
    requires forall z :: z in ys ==> rank(x) < rank(z)
    ensures StableBy([x] + ys, key, rank)
  {
    var r := [x] + ys;
    forall i, j | 0 <= i < j < |r| && key(r[i]) == key(r[j]) ensures rank(r[i]) < rank(r[j]) {
      assert r[j] == ys[j - 1] && r[j] in ys;
      if i > 0 { assert r[i] == ys[i - 1]; }
    }
  }

  /** The head of `ys` stays in front of `tail`, which holds the rest of `ys` and an
      element whose key differs from the head's. */
  lemma {:induction false} StableAfterHead<T>(ys: seq<T>, tail: seq<T>, x: T, key: T -> int, rank: T -> int)
    requires ys != [] && StableBy(ys, key, rank) && StableBy(tail, key, rank)
    requires key(x) != key(ys[0])
    requires forall z :: z in tail ==> z == x || z in ys[1..]
    ensures StableBy([ys[0]] + tail, key, rank)
  {
    var r := [ys[0]] + tail;
    forall i, j | 0 <= i < j < |r| && key(r[i]) == key(r[j]) ensures rank(r[i]) < rank(r[j]) {
      assert r[j] == tail[j - 1] && r[j] in tail;
      if i > 0 {
        assert r[i] == tail[i - 1];
      } else {
        var k :| 0 <= k < |ys[1..]| && ys[1..][k] == r[j];
        assert ys[k + 1] == r[j];
      }
    }
  }

  lemma {:induction false} StableTail<T>(ys: seq<T>, key: T -> int, rank: T -> int)
    requires ys != [] && StableBy(ys, key, rank)
    ensures StableBy(ys[1..], key, rank)
  {
    forall i, j | 0 <= i < j < |ys[1..]| ensures ys[1..][i] == ys[i + 1] && ys[1..][j] == ys[j + 1] { }
  }

  /** `SortBy` is stable: elements with equal keys keep their order. */
  lemma {:induction false} SortByStable<T(!new)>(xs: seq<T>, key: T -> int, rank: T -> int)
    requires RankOrdered(xs, rank)
    ensures StableBy(SortBy(xs, key), key, rank)
  {
    if xs != [] {
      var rest := SortBy(xs[1..], key);
      assert RankOrdered(xs[1..], rank) by {
        forall i, j | 0 <= i < j < |xs[1..]| ensures xs[1..][i] == xs[i + 1] && xs[1..][j] == xs[j + 1] { }
      }
      SortByStable(xs[1..], key, rank);
      forall z | z in rest ensures rank(xs[0]) < rank(z) {
        assert z in multiset(rest);
        var k :| 0 <= k < |xs[1..]| && xs[1..][k] == z;
        assert xs[k + 1] == z;
      }
      InsertByStable(xs[0], rest, key, rank);
    }
  }

  // ---------------------------------------------------------------------------
  // Count tables

  /** One `(value, count)` entry per key, in the order of `keys`. */
  function CountTable<T(==)>(keys: seq<T>, xs: seq<T>): (t: seq<(T, nat)>)
    ensures |t| == |keys|
    ensures forall i :: 0 <= i < |t| ==> t[i] == (keys[i], Count(xs, keys[i]))
  {
    if keys == [] then [] else [(keys[0], Count(xs, keys[0]))] + CountTable(keys[1..], xs)
  }

  /** Sum of the counts of a table. */
  function Total<T>(t: seq<(T, nat)>): nat {
    if t == [] then 0 else t[0].1 + Total(t[1..])
  }

  /** The keys of a table, in order. */
  function Keys<T>(t: seq<(T, nat)>): (ks: seq<T>)
    ensures |ks| == |t| && forall i :: 0 <= i < |t| ==> ks[i] == t[i].0
  {
    seq(|t|, i requires 0 <= i < |t| => t[i].0)
  }

  lemma {:induction false} DistinctCountOne<T>(keys: seq<T>, x: T)
    requires Distinct(keys) && x in keys
    ensures Count(keys, x) == 1
  {
    if keys[0] != x {
      assert x in keys[1..];
      DistinctCountOne(keys[1..], x);
    } else {
      assert x !in keys[1..];
    }
  }

  lemma {:induction false} TotalCons<T>(keys: seq<T>, x: T, rest: seq<T>)
    ensures Total(CountTable(keys, [x] + rest)) == Total(CountTable(keys, rest)) + Count(keys, x)
  {
    if keys != [] {
      assert ([x] + rest)[1..] == rest;
      TotalCons(keys[1..], x, rest);
    }
  }

  lemma {:induction false} TotalOfEmpty<T>(keys: seq<T>)
    ensures Total(CountTable(keys, [])) == 0
  {
    if keys != [] { TotalOfEmpty(keys[1..]); }
  }

  /** Counting every value of `xs` once under a set of distinct keys that covers
      all of them accounts for each element exactly once. */
  lemma {:induction false} TotalCovers<T>(keys: seq<T>, xs: seq<T>)
    requires Distinct(keys)
    requires forall x :: x in xs ==> x in keys
    ensures Total(CountTable(keys, xs)) == |xs|
  {
    if xs == [] {
      TotalOfEmpty(keys);
    } else {
      assert xs == [xs[0]] + xs[1..];
      TotalCons(keys, xs[0], xs[1..]);
      DistinctCountOne(keys, xs[0]);
      TotalCovers(keys, xs[1..]);
    }
  }

  /** The distinct values of `xs` in increasing `key` order; values with equal keys in
      the order of their first occurrence. */
  function SortedUnique<T(==,!new)>(xs: seq<T>, key: T -> int): (keys: seq<T>)
    ensures Distinct(keys) && SortedBy(keys, key)
    ensures forall x :: x in keys <==> x in xs
    ensures forall i, j :: 0 <= i < j < |keys| && key(keys[i]) == key(keys[j]) ==> FirstIndex(xs, keys[i]) < FirstIndex(xs, keys[j])
  {
    var keys := SortBy(Unique(xs), key);
    SortBySorted(Unique(xs), key);
    SortByDistinct(Unique(xs), key);
    var rank := (y: T) => FirstIndex(xs, y) as int;
    UniqueFirstOrder(xs);
    SortByStable(Unique(xs), key, rank);
    assert forall x :: x in keys <==> x in xs by {
      forall x ensures x in keys <==> x in xs {
        assert x in keys <==> x in multiset(keys);
        assert x in Unique(xs) <==> x in multiset(Unique(xs));
      }
    }
    keys
  }

  /** `groupby(key, sort=True)` followed by `.count()`: one row per distinct value,
      in increasing `key` order, with its number of occurrences. */
  function GroupCounts<T(==,!new)>(xs: seq<T>, key: T -> int): (t: seq<(T, nat)>)
    ensures Distinct(Keys(t))
    ensures forall x :: x in xs <==> x in Keys(t)
    ensures forall i :: 0 <= i < |t| ==> t[i].1 == Count(xs, t[i].0) && t[i].1 > 0
    ensures forall i, j :: 0 <= i < j < |t| ==> key(t[i].0) <= key(t[j].0)
    ensures forall i, j :: 0 <= i < j < |t| && key(t[i].0) == key(t[j].0) ==> FirstIndex(xs, t[i].0) < FirstIndex(xs, t[j].0)
    ensures Total(t) == |xs|
  {
    var keys := SortedUnique(xs, key);
    CountTableOfKeys(keys, xs, key);
    CountTable(keys, xs)
  }

  /** The count table over the sorted distinct values of `xs`. */
  lemma {:induction false} CountTableOfKeys<T(!new)>(keys: seq<T>, xs: seq<T>, key: T -> int)
    requires Distinct(keys) && SortedBy(keys, key)
    requires forall x :: x in keys <==> x in xs
    ensures var t := CountTable(keys, xs);
      && Distinct(Keys(t))
      && (forall x :: x in xs <==> x in Keys(t))
      && (forall i :: 0 <= i < |t| ==> t[i].1 == Count(xs, t[i].0) && t[i].1 > 0)
      && (forall i, j :: 0 <= i < j < |t| ==> key(t[i].0) <= key(t[j].0))
      && Keys(t) == keys
      && Total(t) == |xs|
  {
    var t := CountTable(keys, xs);
    assert Keys(t) == keys;
    TotalCovers(keys, xs);
  }

  /** `value_counts()` and `Counter.most_common()`: one row per distinct value with
      its number of occurrences, by non-increasing count; equal counts keep the
      order of first appearance. */
  function ValueCounts<T(==,!new)>(xs: seq<T>): (t: seq<(T, nat)>)
    ensures Distinct(Keys(t))
    ensures forall x :: x in xs <==> x in Keys(t)
    ensures forall i :: 0 <= i < |t| ==> t[i].1 == Count(xs, t[i].0) && t[i].1 > 0
    ensures forall i, j :: 0 <= i < j < |t| ==> t[i].1 >= t[j].1
    ensures forall i, j :: 0 <= i < j < |t| && t[i].1 == t[j].1 ==> FirstIndex(xs, t[i].0) < FirstIndex(xs, t[j].0)
    ensures Total(t) == |xs|
  {
    var key := (x: T) => -(Count(xs, x) as int);
    var t := GroupCounts(xs, key);
    TiesByCount(xs, t, key);
    t
  }

  /** When the key is minus the count, equal counts are equal keys. */
  lemma {:induction false} TiesByCount<T>(xs: seq<T>, t: seq<(T, nat)>, key: T -> int)
    requires forall x :: key(x) == -(Count(xs, x) as int)
    requires forall i :: 0 <= i < |t| ==> t[i].1 == Count(xs, t[i].0)
    requires forall i, j :: 0 <= i < j < |t| && key(t[i].0) == key(t[j].0) ==> FirstIndex(xs, t[i].0) < FirstIndex(xs, t[j].0)
    ensures forall i, j :: 0 <= i < j < |t| && t[i].1 == t[j].1 ==> FirstIndex(xs, t[i].0) < FirstIndex(xs, t[j].0)
  {
    forall i, j | 0 <= i < j < |t| && t[i].1 == t[j].1 ensures FirstIndex(xs, t[i].0) < FirstIndex(xs, t[j].0) {
      assert key(t[i].0) == key(t[j].0);
    }
  }

  /** A count table over values drawn from `u` has at most one row per distinct value of
      `u`, and every key is one of them. */
  lemma {:induction false} ValueCountsWithin<T(!new)>(xs: seq<T>, u: seq<T>)
    requires forall x :: x in xs ==> x in u
    ensures |ValueCounts(xs)| <= |u|
    ensures forall i :: 0 <= i < |ValueCounts(xs)| ==> ValueCounts(xs)[i].0 in u
  {
    var t := ValueCounts(xs);
    assert forall i :: 0 <= i < |t| ==> t[i].0 == Keys(t)[i];
    DistinctWithin(Keys(t), u);
  }

  function Min(a: nat, b: nat): nat { if a < b then a else b }

  /** `value_counts().head(n)` and `most_common()[:n]`: the first `n` rows of the count
      table, most frequent first. */
  function TopRows<T(==,!new)>(xs: seq<T>, n: nat): (t: seq<(T, nat)>)
    ensures |t| == Min(n, |ValueCounts(xs)|)
    ensures forall i :: 0 <= i < |t| ==> t[i] == ValueCounts(xs)[i]
    ensures Distinct(Keys(t))
    ensures forall i :: 0 <= i < |t| ==> t[i].1 == Count(xs, t[i].0) && t[i].1 > 0
    ensures forall i, j :: 0 <= i < j < |t| ==> t[i].1 >= t[j].1
    ensures forall i, j :: 0 <= i < j < |t| && t[i].1 == t[j].1 ==> FirstIndex(xs, t[i].0) < FirstIndex(xs, t[j].0)
  {
    var all := ValueCounts(xs);
    var t := all[..Min(n, |all|)];
    PrefixKeysDistinct(all, Min(n, |all|));
    t
  }

  lemma {:induction false} PrefixKeysDistinct<T>(t: seq<(T, nat)>, m: nat)
    requires m <= |t| && Distinct(Keys(t))
    ensures Distinct(Keys(t[..m]))
  {
    var kt := Keys(t);
    var kp := Keys(t[..m]);
    assert forall i :: 0 <= i < m ==> kp[i] == t[i].0 == kt[i];
    assert kp == kt[..m];
    DistinctPrefix(kt, m);
  }

  lemma {:induction false} DistinctPrefix<T>(xs: seq<T>, m: nat)
    requires m <= |xs| && Distinct(xs)
    ensures Distinct(xs[..m])
  {
    var p := xs[..m];
    forall i, j | 0 <= i < j < m ensures p[i] != p[j] {
      assert p[i] == xs[i] && p[j] == xs[j];
    }
  }

  /** A value left out of the top rows occurs at most as often as every value listed. */
  lemma {:induction false} TopRowsAreMostFrequent<T(!new)>(xs: seq<T>, n: nat, x: T)
    requires x in xs && x !in Keys(TopRows(xs, n))
    ensures forall i :: 0 <= i < |TopRows(xs, n)| ==> Count(xs, x) <= TopRows(xs, n)[i].1
  {
    var all := ValueCounts(xs);
    assert x in Keys(all);
    RowsBeforeMissingKey(all, TopRows(xs, n), x, Count(xs, x));
  }

  /** In rows by non-increasing count, a key missing from a prefix has a count no larger
      than any row of the prefix. */
  lemma {:induction false} RowsBeforeMissingKey<T>(all: seq<(T, nat)>, t: seq<(T, nat)>, x: T, c: nat)
    requires |t| <= |all| && forall i :: 0 <= i < |t| ==> t[i] == all[i]
    requires x in Keys(all) && x !in Keys(t)
    requires forall i :: 0 <= i < |all| && all[i].0 == x ==> all[i].1 == c
    requires forall i, j :: 0 <= i < j < |all| ==> all[i].1 >= all[j].1
    ensures forall i :: 0 <= i < |t| ==> c <= t[i].1
  {
    var j := KeyIndexAfter(all, t, x);
    forall i | 0 <= i < |t| ensures c <= t[i].1 {
      assert t[i] == all[i];
    }
  }

  /** A key of `all` missing from `t`, a prefix of `all`, sits in a row after `t`. */
  lemma {:induction false} KeyIndexAfter<T>(all: seq<(T, nat)>, t: seq<(T, nat)>, x: T) returns (j: nat)
    requires |t| <= |all| && forall i :: 0 <= i < |t| ==> t[i] == all[i]
    requires x in Keys(all) && x !in Keys(t)
    ensures |t| <= j < |all| && all[j].0 == x
  {
    var k :| 0 <= k < |all| && Keys(all)[k] == x;
    if k < |t| {
      assert false;
    }
    j := k;
  }
}
