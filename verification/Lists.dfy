/** Selections from sequences, as a query's WHERE, LIMIT and ORDER BY make them. */
module Lists {

  /** The elements that satisfy `p`, in their order. */
  function Filter<T>(p: T -> bool, s: seq<T>): (r: seq<T>)
    ensures |r| <= |s|
    ensures forall x :: x in r ==> x in s && p(x)
    ensures forall x :: x in s && p(x) ==> x in r
  {
    if s == [] then []
    else if p(s[0]) then [s[0]] + Filter(p, s[1..])
    else Filter(p, s[1..])
  }

  /** The first `n` elements, or all if there are fewer. */
  function Take<T>(n: nat, s: seq<T>): seq<T> {
    if n <= |s| then s[..n] else s
  }

  /** What is left after the first `n` elements. */
  function Drop<T>(n: nat, s: seq<T>): seq<T> {
    if n <= |s| then s[n..] else []
  }

  lemma {:induction false} FilterAppend<T>(p: T -> bool, a: seq<T>, b: seq<T>)
    ensures Filter(p, a + b) == Filter(p, a) + Filter(p, b)
  {
    FilterEmpty(p);
    hide *;
    if a == [] {
      assert a + b == b;
    } else {
      FilterAppend(p, a[1..], b);
      FilterOne(p, a[0], a[1..]);
      FilterOne(p, a[0], a[1..] + b);
      assert [a[0]] + a[1..] == a && [a[0]] + (a[1..] + b) == a + b;
    }
  }

  lemma FilterEmpty<T>(p: T -> bool)
    ensures Filter(p, []) == []
  {
  }

  lemma {:induction false} FilterAll<T>(p: T -> bool, s: seq<T>)
    requires forall i :: 0 <= i < |s| ==> p(s[i])
    ensures Filter(p, s) == s
  {
    if s != [] {
      FilterAll(p, s[1..]);
    }
  }

  lemma {:induction false} FilterNone<T>(p: T -> bool, s: seq<T>)
    requires forall i :: 0 <= i < |s| ==> !p(s[i])
    ensures Filter(p, s) == []
  {
    if s != [] {
      FilterNone(p, s[1..]);
    }
  }

  /** A selection that rejects a head and accepts the rest is a suffix. */
  lemma FilterCut<T>(p: T -> bool, s: seq<T>, k: nat)
    requires k <= |s|
    requires forall i :: 0 <= i < k ==> !p(s[i])
    requires forall i :: k <= i < |s| ==> p(s[i])
    ensures Filter(p, s) == s[k..]
  {
    hide Filter;
    assert s == s[..k] + s[k..];
    FilterAppend(p, s[..k], s[k..]);
    FilterNone(p, s[..k]);
    FilterAll(p, s[k..]);
  }

  /** How often an element survives a selection. */
  lemma {:induction false} CountFilter<T>(p: T -> bool, s: seq<T>, x: T)
    ensures multiset(Filter(p, s))[x] == if p(x) then multiset(s)[x] else 0
  {
    if s != [] {
      CountFilter(p, s[1..], x);
      assert s == [s[0]] + s[1..];
    }
  }

  /** Two selections commute. */
  lemma {:induction false} FilterBoth<T>(p: T -> bool, q: T -> bool, s: seq<T>)
    ensures Filter(p, Filter(q, s)) == Filter(q, Filter(p, s))
  {
    if s != [] {
      FilterBoth(p, q, s[1..]);
      FilterOne(p, s[0], Filter(q, s[1..]));
      FilterOne(q, s[0], Filter(p, s[1..]));
    }
  }

  lemma FilterOne<T>(p: T -> bool, x: T, rest: seq<T>)
    ensures Filter(p, [x] + rest) == (if p(x) then [x] else []) + Filter(p, rest)
  {
    assert ([x] + rest)[1..] == rest;
  }

  lemma Associative<T>(a: seq<T>, b: seq<T>, c: seq<T>)
    ensures a + (b + c) == a + b + c
  {
  }
}
