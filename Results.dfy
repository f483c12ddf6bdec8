/** Optional values and results with an error message, for the source's `None`
    checks, `errors='coerce'` and raised exceptions. */
module Results {

  datatype Option<T> = None | Some(value: T) {
    predicate IsFailure() { None? }

    function PropagateFailure<U>(): Option<U>
      requires None?
    {
      None
    }

    function Extract(): T
      requires Some?
    {
      value
    }
  }

  datatype Result<T> = Ok(value: T) | Err(error: string)

  /** The present values, in order: `dropna` on one column. */
  function Somes<T(!new)>(xs: seq<Option<T>>): (r: seq<T>)
    ensures |r| <= |xs|
    ensures forall x :: x in r <==> Some(x) in xs
  {
    if xs == [] then []
    else
      var rest := Somes(xs[1..]);
      assert forall o :: o in xs <==> o == xs[0] || o in xs[1..];
      if xs[0].Some? then [xs[0].value] + rest else rest
  }

  /** Dropping the missing values keeps the order: it distributes over concatenation. */
  lemma {:induction false} SomesAppend<T(!new)>(a: seq<Option<T>>, b: seq<Option<T>>)
    ensures Somes(a + b) == Somes(a) + Somes(b)
  {
    if a == [] {
      assert a + b == b;
    } else {
      assert (a + b)[0] == a[0] && (a + b)[1..] == a[1..] + b;
      SomesAppend(a[1..], b);
    }
  }

  /** A property of every element of `a` and of every element of `b` holds of every
      element of `a + b`. */
  lemma {:induction false} EveryAppend<A>(a: seq<A>, b: seq<A>, p: A -> bool)
    requires forall k :: 0 <= k < |a| ==> p(a[k])
    requires forall k :: 0 <= k < |b| ==> p(b[k])
    ensures forall k :: 0 <= k < |a + b| ==> p((a + b)[k])
  {
    forall k | 0 <= k < |a + b| ensures p((a + b)[k]) {
      if k < |a| {
        assert (a + b)[k] == a[k];
      } else {
        assert (a + b)[k] == b[k - |a|];
      }
    }
  }

  /** A sequence computed element by element from `a + b` is the one computed from `a`
      followed by the one computed from `b`. */
  lemma {:induction false} PointwiseAppend<A, B>(a: seq<A>, b: seq<A>, l: seq<B>, la: seq<B>, lb: seq<B>, f: A -> B)
    requires |l| == |a| + |b| && |la| == |a| && |lb| == |b|
    requires forall k :: 0 <= k < |a| + |b| ==> l[k] == f((a + b)[k])
    requires forall k :: 0 <= k < |a| ==> la[k] == f(a[k])
    requires forall k :: 0 <= k < |b| ==> lb[k] == f(b[k])
    ensures l == la + lb
  {
    forall k | 0 <= k < |l| ensures l[k] == (la + lb)[k] {
      if k < |a| {
        assert (a + b)[k] == a[k];
      } else {
        assert (a + b)[k] == b[k - |a|];
      }
    }
  }
}
