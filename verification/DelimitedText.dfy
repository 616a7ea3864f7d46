/** Lists joined by a delimiter, and when the text determines the list. */
module DelimitedText {
  import opened Bytes

  function Join(sep: byte, items: seq<bytes>): bytes {
    if items == [] then []
    else if |items| == 1 then items[0]
    else items[0] + ([sep] + Join(sep, items[1..]))
  }

  /** The text up to the first delimiter, and what follows it. */
  function Head(sep: byte, s: bytes): (h: bytes)
    ensures |h| <= |s|
  {
    if s == [] || s[0] == sep then [] else [s[0]] + Head(sep, s[1..])
  }

  predicate Lacks(sep: byte, items: seq<bytes>) {
    forall x <- items :: sep !in x
  }

  lemma {:induction false} HeadOf(sep: byte, x: bytes, rest: bytes)
    requires sep !in x && (rest == [] || rest[0] == sep)
    ensures Head(sep, x + rest) == x
  {
    var s := x + rest;
    if x != [] {
      assert x[0] in x && s[1..] == x[1..] + rest;
      assert forall b <- x[1..] :: b in x;
      HeadOf(sep, x[1..], rest);
    } else {
      assert s == rest;
    }
  }

  /** Two non-empty lists of delimiter-free items with the same text are the same list. */
  lemma {:induction false} JoinUnique(sep: byte, a: seq<bytes>, b: seq<bytes>)
    requires a != [] && b != [] && Lacks(sep, a) && Lacks(sep, b) && Join(sep, a) == Join(sep, b)
    ensures a == b
    decreases |a|
  {
    var restA := if |a| == 1 then [] else [sep] + Join(sep, a[1..]);
    var restB := if |b| == 1 then [] else [sep] + Join(sep, b[1..]);
    var s := Join(sep, a);
    assert s == a[0] + restA && s == b[0] + restB;
    assert a[0] in a && b[0] in b;
    assert restA == [] || restA[0] == sep;
    assert restB == [] || restB[0] == sep;
    hide Join, Head;
    HeadOf(sep, a[0], restA);
    HeadOf(sep, b[0], restB);
    assert restA == s[|a[0]|..] == restB;
    assert a == [a[0]] + a[1..] && b == [b[0]] + b[1..];
    if |a| > 1 {
      assert Join(sep, a[1..]) == restA[1..] == Join(sep, b[1..]);
      assert (forall x <- a[1..] :: x in a) && (forall x <- b[1..] :: x in b);
      JoinUnique(sep, a[1..], b[1..]);
    }
  }

  /** With non-empty items the empty list is told apart as well. */
  lemma JoinInjective(sep: byte, a: seq<bytes>, b: seq<bytes>)
    requires Lacks(sep, a) && Lacks(sep, b) && [] !in a && [] !in b
    ensures Join(sep, a) == Join(sep, b) <==> a == b
  {
    if Join(sep, a) == Join(sep, b) {
      JoinNonEmpty(sep, a);
      JoinNonEmpty(sep, b);
      if a != [] && b != [] {
        JoinUnique(sep, a, b);
      }
    }
  }

  lemma JoinNonEmpty(sep: byte, a: seq<bytes>)
    requires [] !in a
    ensures Join(sep, a) == [] <==> a == []
  {
    if a != [] {
      assert a[0] in a;
    }
  }

  lemma {:induction false} JoinLacks(sep: byte, items: seq<bytes>, b: byte)
    requires b != sep && Lacks(b, items)
    ensures b !in Join(sep, items)
  {
    if |items| > 1 {
      assert forall x <- items[1..] :: x in items;
      JoinLacks(sep, items[1..], b);
    }
    if items != [] {
      assert items[0] in items;
    }
  }
}
