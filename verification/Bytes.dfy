/** Option and Result, the shapes in which the model states the repository's error returns. */
module Wrappers {
  datatype Option<+T> = None | Some(value: T)

  datatype Result<+T, +E> = Success(value: T) | Failure(error: E) {
    predicate IsFailure() {
      Failure?
    }

    function PropagateFailure<U>(): Result<U, E>
      requires Failure?
    {
      Failure(error)
    }

    function Extract(): T
      requires Success?
    {
      value
    }
  }
}

/** Octets, the bounded machine word, and the character classes shared by the HTTP/1.1 code. */
module Bytes {
  import opened Wrappers

  type byte = x: int | 0 <= x < 256
  type bytes = seq<byte>

  /** The number of values of a 64-bit `usize`. */
  const USIZE: int := 0x1_0000_0000_0000_0000
  type usize = x: int | 0 <= x < USIZE

  const HTAB: byte := 9
  const LF: byte := 10
  const CR: byte := 13
  const SP: byte := 32
  const DQUOTE: byte := 34
  const COMMA: byte := 44
  const COLON: byte := 58
  const SEMICOLON: byte := 59
  const EQUALS: byte := 61
  const BACKSLASH: byte := 92
  const CRLF: bytes := [13, 10]

  predicate IsDigit(b: byte) {
    48 <= b <= 57
  }

  predicate IsAlpha(b: byte) {
    65 <= b <= 90 || 97 <= b <= 122
  }

  /** `tchar` of section 5.6.2 of RFC 9110. */
  predicate IsTchar(b: byte) {
    IsDigit(b) || IsAlpha(b) ||
    b == 33 || 35 <= b <= 39 || 42 <= b <= 43 || 45 <= b <= 46 || 94 <= b <= 96 || b == 124 || b == 126
  }

  predicate IsToken(s: bytes) {
    s != [] && forall i :: 0 <= i < |s| ==> IsTchar(s[i])
  }

  predicate IsOws(b: byte) {
    b == SP || b == HTAB
  }

  predicate AllOws(s: bytes) {
    forall i :: 0 <= i < |s| ==> IsOws(s[i])
  }

  /** Every octet a field value or reason phrase may hold: no control except HTAB, no DEL. */
  predicate IsFieldBytes(s: bytes) {
    forall i :: 0 <= i < |s| ==> !(s[i] <= 8 || 10 <= s[i] <= 31 || s[i] == 127)
  }

  function Lower(b: byte): byte {
    if 65 <= b <= 90 then b + 32 else b
  }

  predicate EqIgnoreCase(a: bytes, b: bytes) {
    |a| == |b| && forall i :: 0 <= i < |a| ==> Lower(a[i]) == Lower(b[i])
  }

  /** The first position of `b` at or after `from`. */
  function Find(s: bytes, b: byte, from: nat): (r: Option<nat>)
    requires from <= |s|
    ensures r.Some? ==> from <= r.value < |s| && s[r.value] == b
    ensures r.Some? ==> forall i :: from <= i < r.value ==> s[i] != b
    ensures r.None? ==> forall i :: from <= i < |s| ==> s[i] != b
    decreases |s| - from
  {
    if from == |s| then None
    else if s[from] == b then Some(from)
    else Find(s, b, from + 1)
  }

  lemma FindIs(s: bytes, b: byte, from: nat, k: nat)
    requires from <= k < |s| && s[k] == b && b !in s[from..k]
    ensures Find(s, b, from) == Some(k)
  {
    hide Find;
    var slice := s[from..k];
    assert forall i :: from <= i < k ==> s[i] == slice[i - from];
  }

  function TrimStart(s: bytes): bytes {
    if s != [] && IsOws(s[0]) then TrimStart(s[1..]) else s
  }

  function TrimEnd(s: bytes): bytes {
    if s != [] && IsOws(s[|s| - 1]) then TrimEnd(s[..|s| - 1]) else s
  }

  lemma {:induction false} TrimStartIs(s: bytes)
    ensures var r := TrimStart(s); |r| <= |s| && r == s[|s| - |r|..] && AllOws(s[..|s| - |r|]) && (r != [] ==> !IsOws(r[0]))
  {
    if s != [] && IsOws(s[0]) {
      TrimStartIs(s[1..]);
      var r := TrimStart(s);
      assert s[..|s| - |r|] == [s[0]] + s[1..][..|s| - 1 - |r|];
    }
  }

  lemma {:induction false} TrimEndIs(s: bytes)
    ensures var r := TrimEnd(s); |r| <= |s| && r == s[..|r|] && AllOws(s[|r|..]) && (r != [] ==> !IsOws(r[|r| - 1]))
  {
    if s != [] && IsOws(s[|s| - 1]) {
      var shorter := s[..|s| - 1];
      TrimEndIs(shorter);
      var r := TrimEnd(s);
      assert s[|r|..] == shorter[|r|..] + [s[|s| - 1]];
      assert r == shorter[..|r|] == s[..|r|];
    }
  }

  /** A value without its surrounding optional whitespace. */
  function Trim(s: bytes): bytes {
    TrimEnd(TrimStart(s))
  }

  predicate IsTrimmed(s: bytes) {
    s != [] ==> !IsOws(s[0]) && !IsOws(s[|s| - 1])
  }

  lemma TrimIsTrimmed(s: bytes)
    ensures IsTrimmed(Trim(s))
  {
    var t := TrimStart(s);
    var v := TrimEnd(t);
    TrimStartIs(s);
    TrimEndIs(t);
    assert v != [] ==> v[0] == t[0];
  }

  /** `Trim` finds the one trimmed value between two runs of whitespace. */
  lemma TrimMeaning(s: bytes) returns (before: bytes, after: bytes)
    ensures s == before + Trim(s) + after && AllOws(before) && AllOws(after) && IsTrimmed(Trim(s))
  {
    TrimIsTrimmed(s);
    var t := TrimStart(s);
    var v := TrimEnd(t);
    TrimStartIs(s);
    TrimEndIs(t);
    before, after := s[..|s| - |t|], t[|v|..];
    Rejoined(s, |s| - |t|, |v|);
  }

  lemma Rejoined(s: bytes, i: nat, n: nat)
    requires i + n <= |s|
    ensures s == s[..i] + s[i..][..n] + s[i..][n..]
  {}

  lemma {:induction false} TrimUnique(before: bytes, v: bytes, after: bytes)
    requires AllOws(before) && AllOws(after) && IsTrimmed(v)
    ensures Trim(before + v + after) == v
  {
    var s := before + v + after;
    if before != [] {
      assert s[0] == before[0];
      assert s[1..] == before[1..] + v + after;
      TrimUnique(before[1..], v, after);
    } else {
      assert s == v + after;
      if v == [] {
        TrimStartAll(after);
        assert s == after && TrimEnd([]) == [];
      } else {
        assert TrimStart(s) == s;
        TrimEndUnique(v, after);
      }
    }
  }

  lemma {:induction false} TrimStartAll(s: bytes)
    requires AllOws(s)
    ensures TrimStart(s) == []
  {
    if s != [] {
      TrimStartAll(s[1..]);
    }
  }

  lemma {:induction false} TrimEndUnique(v: bytes, after: bytes)
    requires AllOws(after) && v != [] && !IsOws(v[|v| - 1])
    ensures TrimEnd(v + after) == v
  {
    var s := v + after;
    if after != [] {
      assert s[|s| - 1] == after[|after| - 1];
      assert s[..|s| - 1] == v + after[..|after| - 1];
      TrimEndUnique(v, after[..|after| - 1]);
    } else {
      assert s == v;
    }
  }

  /** The in-place slicing loops of `trim_ows` compute `Trim`. */
  method TrimOws(s: bytes) returns (value: bytes)
    ensures value == Trim(s)
  {
    value := s;
    while value != [] && IsOws(value[0])
      invariant TrimStart(value) == TrimStart(s)
      decreases |value|
    {
      value := value[1..];
    }
    while value != [] && IsOws(value[|value| - 1])
      invariant TrimEnd(value) == TrimEnd(TrimStart(s))
      decreases |value|
    {
      value := value[..|value| - 1];
    }
  }

  lemma Associative<T>(a: seq<T>, b: seq<T>, c: seq<T>)
    ensures a + (b + c) == a + b + c
  {}

  function Concat(pieces: seq<bytes>): bytes {
    if pieces == [] then [] else pieces[0] + Concat(pieces[1..])
  }

  lemma {:induction false} ConcatAppend(xs: seq<bytes>, ys: seq<bytes>)
    ensures Concat(xs + ys) == Concat(xs) + Concat(ys)
  {
    if xs == [] {
      assert xs + ys == ys;
    } else {
      assert (xs + ys)[1..] == xs[1..] + ys;
      ConcatAppend(xs[1..], ys);
    }
  }

  lemma ConcatOne(x: bytes)
    ensures Concat([x]) == x
  {
    assert [x][1..] == [];
  }

  /** `w` stands in `s` at position `p`. */
  predicate At(s: bytes, p: nat, w: bytes) {
    p + |w| <= |s| && forall i :: 0 <= i < |w| ==> s[p + i] == w[i]
  }

  lemma AtSlice(s: bytes, p: nat, w: bytes)
    ensures At(s, p, w) <==> p + |w| <= |s| && s[p..p + |w|] == w
  {
    if p + |w| <= |s| {
      var slice := s[p..p + |w|];
      assert forall i :: 0 <= i < |w| ==> slice[i] == s[p + i];
    }
  }

  lemma AtSplit(s: bytes, p: nat, u: bytes, v: bytes)
    ensures At(s, p, u + v) <==> At(s, p, u) && At(s, p + |u|, v)
  {
    var w := u + v;
    if At(s, p, w) {
      assert forall i :: 0 <= i < |u| ==> u[i] == w[i];
      assert forall i :: 0 <= i < |v| ==> v[i] == w[|u| + i];
    }
  }

  lemma AtSplit3(s: bytes, p: nat, u: bytes, v: bytes, w: bytes)
    ensures At(s, p, u + v + w) <==> At(s, p, u) && At(s, p + |u|, v) && At(s, p + |u| + |v|, w)
  {
    AtSplit(s, p, u + v, w);
    AtSplit(s, p, u, v);
  }

  lemma AtWhole(s: bytes)
    ensures At(s, 0, s)
  {}

  lemma AtFirst(s: bytes, rest: bytes)
    ensures At(s + rest, 0, s)
  {}

  lemma AtLonger(s: bytes, w: bytes, p: nat, x: bytes)
    requires At(s, p, x)
    ensures At(s + w, p, x) && p + |x| <= |s|
  {}

  lemma ConcatSnoc(xs: seq<bytes>, x: bytes)
    ensures Concat(xs + [x]) == Concat(xs) + x
  {
    ConcatAppend(xs, [x]);
    ConcatOne(x);
  }
}
