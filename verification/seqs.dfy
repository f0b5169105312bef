/** Sequence operations behind the store queries: filtering by a predicate,
    reversing, the skip/limit window of a paginated query, and the ceiling
    division of a page count. */
module Seqs {

  /** The elements of `s` that satisfy `keep`, in their original order. */
  function Filter<T(!new)>(s: seq<T>, keep: T -> bool): (r: seq<T>)
    ensures |r| <= |s|
  {
    if s == [] then []
    else if keep(s[0]) then [s[0]] + Filter(s[1..], keep)
    else Filter(s[1..], keep)
  }

  /** The kept elements are exactly the elements that satisfy `keep`. */
  lemma {:induction false} FilterMembers<T(!new)>(s: seq<T>, keep: T -> bool)
    ensures forall x :: x in Filter(s, keep) <==> x in s && keep(x)
  {
    if s != [] {
      FilterMembers(s[1..], keep);
      assert s == [s[0]] + s[1..];
    }
  }

  /** Two predicates that agree on the elements select the same subsequence. */
  lemma {:induction false} FilterCongruent<T(!new)>(s: seq<T>, f: T -> bool, g: T -> bool)
    requires forall x :: x in s ==> f(x) == g(x)
    ensures Filter(s, f) == Filter(s, g)
  {
    if s != [] {
      assert forall x :: x in s[1..] ==> x in s;
      FilterCongruent(s[1..], f, g);
    }
  }

  /** Filtering distributes over concatenation. */
  lemma {:induction false} FilterAppend<T(!new)>(a: seq<T>, b: seq<T>, keep: T -> bool)
    ensures Filter(a + b, keep) == Filter(a, keep) + Filter(b, keep)
  {
    if a == [] {
      assert a + b == b;
    } else {
      assert (a + b)[0] == a[0] && (a + b)[1..] == a[1..] + b;
      FilterAppend(a[1..], b, keep);
    }
  }

  /** Filtering keeps a sequence whole when every element qualifies. */
  lemma {:induction false} FilterAll<T(!new)>(s: seq<T>, keep: T -> bool)
    requires forall x :: x in s ==> keep(x)
    ensures Filter(s, keep) == s
  {
    if s != [] {
      assert forall x :: x in s[1..] ==> x in s;
      FilterAll(s[1..], keep);
      assert s == [s[0]] + s[1..];
    }
  }

  /** Filtering drops a sequence whole when no element qualifies. */
  lemma {:induction false} FilterNone<T(!new)>(s: seq<T>, keep: T -> bool)
    requires forall x :: x in s ==> !keep(x)
    ensures Filter(s, keep) == []
  {
    if s != [] {
      assert forall x :: x in s[1..] ==> x in s;
      FilterNone(s[1..], keep);
    }
  }

  /** An element kept and an element dropped account for every element. */
  lemma {:induction false} FilterComplement<T(!new)>(s: seq<T>, f: T -> bool, g: T -> bool)
    requires forall x :: x in s ==> (f(x) <==> !g(x))
    ensures |Filter(s, f)| + |Filter(s, g)| == |s|
  {
    if s != [] {
      assert forall x :: x in s[1..] ==> x in s;
      FilterComplement(s[1..], f, g);
    }
  }

  /** Filtering out exactly the element at position `k` removes it. */
  lemma {:induction false} FilterRemovesOne<T(!new)>(s: seq<T>, k: nat, keep: T -> bool)
    requires k < |s| && !keep(s[k])
    requires forall i :: 0 <= i < |s| && i != k ==> keep(s[i])
    ensures Filter(s, keep) == s[..k] + s[k + 1..]
  {
    if k == 0 {
      forall x | x in s[1..] ensures keep(x) {
        var i :| 0 <= i < |s| - 1 && s[1..][i] == x;
        assert x == s[i + 1];
      }
      FilterAll(s[1..], keep);
    } else {
      var tail := s[1..];
      assert keep(s[0]);
      assert Filter(s, keep) == [s[0]] + Filter(tail, keep);
      forall i | 0 <= i < |tail| && i != k - 1 ensures keep(tail[i]) {
        assert tail[i] == s[i + 1];
      }
      FilterRemovesOne(tail, k - 1, keep);
      assert tail[..k - 1] == s[1..k];
      assert tail[k..] == s[k + 1..];
      assert s[..k] == [s[0]] + s[1..k];
    }
  }

  /** Every element of `s` stands in relation `before` to every later one. */
  predicate Ordered<T>(s: seq<T>, before: (T, T) -> bool) {
    forall i, j :: 0 <= i < j < |s| ==> before(s[i], s[j])
  }

  /** An ordered sequence is its first element, ahead of all the others,
      followed by an ordered rest. */
  lemma OrderedSplit<T>(s: seq<T>, before: (T, T) -> bool)
    requires s != [] && Ordered(s, before)
    ensures Ordered(s[1..], before)
    ensures forall y :: y in s[1..] ==> before(s[0], y)
  {
    var tail := s[1..];
    forall i, j | 0 <= i < j < |tail| ensures before(tail[i], tail[j]) {
      assert tail[i] == s[i + 1] && tail[j] == s[j + 1];
    }
    forall y | y in tail ensures before(s[0], y) {
      var k :| 0 <= k < |tail| && tail[k] == y;
      assert s[k + 1] == y;
    }
  }

  /** An element ahead of all the elements of an ordered sequence can be put in front. */
  lemma OrderedCons<T>(x: T, t: seq<T>, before: (T, T) -> bool)
    requires Ordered(t, before)
    requires forall y :: y in t ==> before(x, y)
    ensures Ordered([x] + t, before)
  {
    var r := [x] + t;
    forall i, j | 0 <= i < j < |r| ensures before(r[i], r[j]) {
      assert r[j] == t[j - 1];
      if i > 0 {
        assert r[i] == t[i - 1];
      }
    }
  }

  /** Filtering keeps any relation that holds between earlier and later elements. */
  lemma {:induction false} FilterKeepsOrder<T(!new)>(s: seq<T>, keep: T -> bool, before: (T, T) -> bool)
    requires Ordered(s, before)
    ensures Ordered(Filter(s, keep), before)
  {
    if s != [] {
      OrderedSplit(s, before);
      FilterKeepsOrder(s[1..], keep, before);
      if keep(s[0]) {
        FilterMembers(s[1..], keep);
        OrderedCons(s[0], Filter(s[1..], keep), before);
      }
    }
  }

  /** `s` in reverse order. */
  function Reverse<T>(s: seq<T>): (r: seq<T>)
    ensures |r| == |s|
    ensures forall i :: 0 <= i < |s| ==> r[i] == s[|s| - 1 - i]
  {
    if s == [] then [] else Reverse(s[1..]) + [s[0]]
  }

  /** Reversing keeps every element with its multiplicity. */
  lemma {:induction false} ReversePermutes<T>(s: seq<T>)
    ensures multiset(Reverse(s)) == multiset(s)
  {
    if s != [] {
      ReversePermutes(s[1..]);
      assert s == [s[0]] + s[1..];
    }
  }

  function Min(a: nat, b: nat): nat { if a <= b then a else b }

  /** What a query with `.skip(skip).limit(limit)` returns of the ordered
      matches `s`: at most `limit` elements, starting at position `skip`. */
  function Window<T>(s: seq<T>, skip: nat, limit: nat): (r: seq<T>)
    ensures |r| == if skip >= |s| then 0 else Min(limit, |s| - skip)
    ensures forall i :: 0 <= i < |r| ==> r[i] == s[skip + i]
  {
    if skip >= |s| then [] else s[skip..skip + Min(limit, |s| - skip)]
  }

  /** A window keeps the order of the sequence it is cut from and holds
      only its elements. */
  lemma WindowKeepsOrder<T>(s: seq<T>, skip: nat, limit: nat, before: (T, T) -> bool)
    requires Ordered(s, before)
    ensures Ordered(Window(s, skip, limit), before)
    ensures multiset(Window(s, skip, limit)) <= multiset(s)
  {
    var r := Window(s, skip, limit);
    forall i, j | 0 <= i < j < |r| ensures before(r[i], r[j]) {
      assert r[i] == s[skip + i] && r[j] == s[skip + j];
    }
    if skip < |s| {
      var end := skip + Min(limit, |s| - skip);
      assert s == s[..skip] + r + s[end..];
    }
  }

  /** A window of the reversed kept elements holds only kept elements of
      the original sequence. */
  lemma WindowOfReversedFilter<T(!new)>(s: seq<T>, keep: T -> bool, skip: nat, limit: nat)
    ensures forall x :: x in Window(Reverse(Filter(s, keep)), skip, limit) ==> x in s && keep(x)
  {
    var kept := Filter(s, keep);
    FilterMembers(s, keep);
    var w := Window(Reverse(kept), skip, limit);
    forall x | x in w ensures x in kept {
      var i :| 0 <= i < |w| && w[i] == x;
      assert x == Reverse(kept)[skip + i] == kept[|kept| - 1 - (skip + i)];
    }
  }

  /** `Math.ceil(n / d)` for natural numbers. */
  function CeilDiv(n: nat, d: nat): (q: nat)
    requires d > 0
    ensures q * d >= n
    ensures q > 0 ==> (q - 1) * d < n
  {
    (n + d - 1) / d
  }
}
