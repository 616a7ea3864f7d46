/** Sorting by a total order, as Python's `sorted` with an injective key: the result depends on the multiset only. */
module Sorting {
  ghost predicate TotalOrder<T(!new)>(leq: (T, T) -> bool) {
    && (forall a, b :: leq(a, b) || leq(b, a))
    && (forall a, b :: leq(a, b) && leq(b, a) ==> a == b)
    && (forall a, b, c :: leq(a, b) && leq(b, c) ==> leq(a, c))
  }

  predicate Ordered<T>(s: seq<T>, leq: (T, T) -> bool) {
    forall i, j :: 0 <= i < j < |s| ==> leq(s[i], s[j])
  }

  function Insert<T>(x: T, s: seq<T>, leq: (T, T) -> bool): seq<T> {
    if s == [] || leq(x, s[0]) then [x] + s else [s[0]] + Insert(x, s[1..], leq)
  }

  function Sort<T>(s: seq<T>, leq: (T, T) -> bool): seq<T> {
    if s == [] then [] else Insert(s[0], Sort(s[1..], leq), leq)
  }

  lemma Transitive<T(!new)>(a: T, b: T, c: T, leq: (T, T) -> bool)
    requires TotalOrder(leq) && leq(a, b) && leq(b, c)
    ensures leq(a, c)
  {}

  lemma Total<T(!new)>(a: T, b: T, leq: (T, T) -> bool)
    requires TotalOrder(leq)
    ensures (leq(a, b) || leq(b, a)) && (leq(a, b) && leq(b, a) ==> a == b)
  {}

  /** `x` may stand before everything in `s`. */
  predicate Below<T(==)>(x: T, s: seq<T>, leq: (T, T) -> bool) {
    forall y <- s :: leq(x, y)
  }

  lemma OrderedCons<T>(x: T, s: seq<T>, leq: (T, T) -> bool)
    ensures Ordered([x] + s, leq) <==> Below(x, s, leq) && Ordered(s, leq)
  {
    var r := [x] + s;
    assert forall i :: 0 <= i < |s| ==> r[i + 1] == s[i];
    if Ordered(r, leq) {
      forall y <- s
        ensures leq(x, y)
      {
        var k :| 0 <= k < |s| && s[k] == y;
        assert leq(r[0], r[k + 1]);
      }
      forall i, j | 0 <= i < j < |s|
        ensures leq(s[i], s[j])
      {
        assert leq(r[i + 1], r[j + 1]);
      }
    }
    if Below(x, s, leq) && Ordered(s, leq) {
      forall i, j | 0 <= i < j < |r|
        ensures leq(r[i], r[j])
      {
        assert r[j] == s[j - 1] && s[j - 1] in s;
        assert i > 0 ==> r[i] == s[i - 1];
      }
    }
  }

  lemma {:induction false} InsertKeeps<T(!new)>(x: T, s: seq<T>, leq: (T, T) -> bool)
    requires TotalOrder(leq) && Ordered(s, leq)
    ensures multiset(Insert(x, s, leq)) == multiset(s) + multiset{x} && Ordered(Insert(x, s, leq), leq)
  {
    hide TotalOrder, Ordered;
    if s == [] {
      assert [x] + s == [x];
      OrderedCons(x, s, leq);
    } else {
      var rest := s[1..];
      assert s == [s[0]] + rest;
      OrderedCons(s[0], rest, leq);
      Total(x, s[0], leq);
      if leq(x, s[0]) {
        forall y <- s
          ensures leq(x, y)
        {
          if y != s[0] {
            Transitive(x, s[0], y, leq);
          }
        }
        OrderedCons(x, s, leq);
      } else {
        InsertKeeps(x, rest, leq);
        var more := Insert(x, rest, leq);
        BelowMore(s[0], more, x, rest, leq);
        OrderedCons(s[0], more, leq);
      }
    }
  }

  /** What is known of the rest when `more` is that rest with `x` put in. */
  lemma BelowMore<T(!new)>(y: T, more: seq<T>, x: T, rest: seq<T>, leq: (T, T) -> bool)
    requires multiset(more) == multiset(rest) + multiset{x} && leq(y, x) && Below(y, rest, leq)
    ensures Below(y, more, leq)
  {
    forall z <- more
      ensures leq(y, z)
    {
      assert z in multiset(more);
      assert z != x ==> z in rest;
    }
  }

  lemma SumCancels<T>(v: multiset<T>, a: multiset<T>, b: multiset<T>)
    ensures v + a == v + b <==> a == b
  {
    assert (v + a) - v == a && (v + b) - v == b;
  }

  lemma {:induction false} SortKeeps<T(!new)>(s: seq<T>, leq: (T, T) -> bool)
    requires TotalOrder(leq)
    ensures multiset(Sort(s, leq)) == multiset(s) && Ordered(Sort(s, leq), leq)
  {
    if s != [] {
      SortKeeps(s[1..], leq);
      InsertKeeps(s[0], Sort(s[1..], leq), leq);
      assert s == [s[0]] + s[1..];
    }
  }

  /** Two ordered sequences of the same elements start with the same element. */
  lemma SameHead<T(!new)>(x: T, s: seq<T>, y: T, t: seq<T>, leq: (T, T) -> bool)
    requires TotalOrder(leq) && Below(x, s, leq) && Below(y, t, leq)
    requires multiset([x] + s) == multiset([y] + t)
    ensures x == y && multiset(s) == multiset(t)
  {
    hide TotalOrder;
    if x != y {
      assert x in multiset([y] + t) && y in multiset([x] + s);
      assert x in t && y in s;
      Total(x, y, leq);
    }
    assert multiset([x] + s) == multiset{x} + multiset(s);
    assert multiset([y] + t) == multiset{y} + multiset(t);
    assert multiset(s) == multiset([x] + s) - multiset{x} == multiset(t);
  }

  lemma {:induction false} OrderedUnique<T(!new)>(a: seq<T>, b: seq<T>, leq: (T, T) -> bool)
    requires TotalOrder(leq) && Ordered(a, leq) && Ordered(b, leq) && multiset(a) == multiset(b)
    ensures a == b
  {
    hide TotalOrder, Ordered, Below;
    assert |multiset(a)| == |a| && |multiset(b)| == |b|;
    if a != [] {
      var x, y, s, t := a[0], b[0], a[1..], b[1..];
      assert a == [x] + s && b == [y] + t;
      OrderedCons(x, s, leq);
      OrderedCons(y, t, leq);
      SameHead(x, s, y, t, leq);
      OrderedUnique(s, t, leq);
    }
  }

  /** Two sequences sort alike exactly when they rearrange each other. */
  lemma SortCanonical<T(!new)>(a: seq<T>, b: seq<T>, leq: (T, T) -> bool)
    requires TotalOrder(leq)
    ensures Sort(a, leq) == Sort(b, leq) <==> multiset(a) == multiset(b)
  {
    SortKeeps(a, leq);
    SortKeeps(b, leq);
    if multiset(a) == multiset(b) {
      OrderedUnique(Sort(a, leq), Sort(b, leq), leq);
    }
  }
}
