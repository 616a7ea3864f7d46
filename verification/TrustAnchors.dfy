/** Trust anchors on their way from the caller to NSS: the parent's frame body, the child's decoder, the bundle
    built for the native interface, and the validator of the C side. */
module TrustAnchors {
  import opened Wrappers
  import opened Bytes
  import opened BigEndian

  const MAX_ANCHORS := 4096
  const MAX_BODY := 16 * 1024 * 1024
  const U32 := 0x1_0000_0000

  datatype AnchorError = TooMany | TooLarge | OverLimit | TruncatedFrame | TrailingData | EmptyAnchor

  predicate Sized(anchors: seq<bytes>) {
    forall a <- anchors :: |a| < U32
  }

  predicate NonEmpty(anchors: seq<bytes>) {
    forall a <- anchors :: a != []
  }

  /** Each anchor behind its length, the layout all three codecs share. */
  function Framed(anchors: seq<bytes>): bytes {
    if anchors == [] then [] else Digits(|anchors[0]|, 4) + anchors[0] + Framed(anchors[1..])
  }

  function FrameBody(anchors: seq<bytes>): bytes {
    Digits(|anchors|, 4) + Framed(anchors)
  }

  function LengthAt(s: bytes, p: nat): nat
    requires p + 4 <= |s|
  {
    Value(s[p..p + 4])
  }

  // ----- the layout is uniquely readable -----

  lemma LengthIs(s: bytes, p: nat, n: nat)
    requires n < U32 && At(s, p, Digits(n, 4))
    ensures p + 4 <= |s| && LengthAt(s, p) == n
  {
    PowersOf256();
    ValueOfDigits(n, 4);
    assert s[p..p + 4] == Digits(n, 4);
  }

  lemma LengthFits(s: bytes, p: nat)
    requires p + 4 <= |s|
    ensures LengthAt(s, p) < U32 && At(s, p, Digits(LengthAt(s, p), 4))
  {
    PowersOf256();
    DigitsOfValue(s[p..p + 4]);
  }

  lemma {:induction false} FramedAppend(a: seq<bytes>, b: seq<bytes>)
    ensures Framed(a + b) == Framed(a) + Framed(b)
  {
    if a == [] {
      assert a + b == b;
    } else {
      hide Digits;
      FramedAppend(a[1..], b);
      assert (a + b)[1..] == a[1..] + b;
      var first := Digits(|a[0]|, 4) + a[0];
      Associative(first, Framed(a[1..]), Framed(b));
    }
  }

  lemma FramedSnoc(done: seq<bytes>, a: bytes)
    ensures Framed(done + [a]) == Framed(done) + (Digits(|a|, 4) + a)
  {
    FramedAppend(done, [a]);
    assert Framed([a]) == Digits(|a|, 4) + a;
  }

  lemma FramedEmpty()
    ensures Framed([]) == []
  {}

  lemma FramedNext(anchors: seq<bytes>, i: nat)
    requires i < |anchors|
    ensures anchors[..0] == [] && anchors[..i + 1] == anchors[..i] + [anchors[i]]
    ensures Framed(anchors[..i + 1]) == Framed(anchors[..i]) + (Digits(|anchors[i]|, 4) + anchors[i])
    ensures |Framed(anchors[..i + 1])| <= |Framed(anchors)|
  {
    hide Framed, Digits;
    var done := anchors[..i + 1];
    assert done == anchors[..i] + [anchors[i]];
    FramedSnoc(anchors[..i], anchors[i]);
    FramedAppend(done, anchors[i + 1..]);
    assert anchors == done + anchors[i + 1..];
  }

  /** The first item of a framed list, read off the octets. */
  lemma FirstItem(s: bytes, p: nat, anchors: seq<bytes>)
    requires anchors != [] && Sized(anchors) && At(s, p, Framed(anchors))
    ensures p + 4 <= |s| && LengthAt(s, p) == |anchors[0]|
    ensures At(s, p + 4, anchors[0]) && At(s, p + 4 + |anchors[0]|, Framed(anchors[1..]))
    ensures |Framed(anchors)| == 4 + |anchors[0]| + |Framed(anchors[1..])|
  {
    var first, rest := anchors[0], anchors[1..];
    assert Framed(anchors) == Digits(|first|, 4) + first + Framed(rest);
    hide Framed, Digits, At;
    AtSplit3(s, p, Digits(|first|, 4), first, Framed(rest));
    LengthIs(s, p, |first|);
  }

  /** Two lists framed at the same place agree as far as the shorter one goes. */
  lemma {:induction false} SamePrefix(s: bytes, p: nat, done: seq<bytes>, all: seq<bytes>)
    requires Sized(done) && Sized(all) && |done| <= |all| && At(s, p, Framed(done)) && At(s, p, Framed(all))
    ensures done == all[..|done|] && At(s, p + |Framed(done)|, Framed(all[|done|..]))
    decreases |done|
  {
    hide Digits, LengthAt, Power256, Value, Framed;
    FramedEmpty();
    if done == [] {
      assert all[0..] == all && all[..0] == done;
    } else {
      FirstItem(s, p, done);
      FirstItem(s, p, all);
      var q := p + 4 + |done[0]|;
      assert done[0] == s[p + 4..q] == all[0];
      SamePrefix(s, q, done[1..], all[1..]);
      assert all[1..][|done| - 1..] == all[|done|..];
      assert done == [done[0]] + done[1..] && all[..|done|] == [all[0]] + all[1..][..|done| - 1];
    }
  }

  /** A frame body is the body of one anchor list only. */
  lemma FrameBodyInjective(a: seq<bytes>, b: seq<bytes>)
    requires Sized(a) && Sized(b) && |a| < U32 && |b| < U32 && FrameBody(a) == FrameBody(b)
    ensures a == b
  {
    var s := FrameBody(a);
    AtSplit(s, 0, Digits(|a|, 4), Framed(a));
    AtSplit(s, 0, Digits(|b|, 4), Framed(b));
    LengthIs(s, 0, |a|);
    LengthIs(s, 0, |b|);
    SamePrefix(s, 4, a, b);
  }

  // ----- parent and child -----

  /** `_encode_anchors`: refuses exactly the lists that exceed a limit. */
  method EncodeAnchors(anchors: seq<bytes>) returns (r: Result<bytes, AnchorError>)
    ensures r.Success? <==> |anchors| <= MAX_ANCHORS && Sized(anchors) && |FrameBody(anchors)| <= MAX_BODY
    ensures r.Success? ==> r.value == FrameBody(anchors)
  {
    hide Framed, Digits;
    if |anchors| > MAX_ANCHORS {
      return Failure(TooMany);
    }
    FramedEmpty();
    var encoded := Digits(|anchors|, 4);
    var i := 0;
    while i < |anchors|
      invariant i <= |anchors| && Sized(anchors[..i]) && |encoded| <= MAX_BODY
      invariant encoded == Digits(|anchors|, 4) + Framed(anchors[..i])
    {
      var anchor := anchors[i];
      FramedNext(anchors, i);
      if |anchor| > 0xFFFF_FFFF {
        assert anchor in anchors;
        return Failure(TooLarge);
      }
      encoded := encoded + Digits(|anchor|, 4);
      encoded := encoded + anchor;
      if |encoded| > MAX_BODY {
        return Failure(OverLimit);
      }
      i := i + 1;
    }
    assert anchors[..|anchors|] == anchors;
    return Success(encoded);
  }

  lemma AtEmpty(s: bytes, p: nat)
    requires p <= |s|
    ensures At(s, p, [])
  {}

  lemma AtFits(s: bytes, p: nat, w: bytes)
    ensures At(s, p, w) ==> p + |w| <= |s|
    ensures At(s, p, w) && p == 0 && |w| == |s| ==> w == s
  {
    assert s[0..|s|] == s;
  }

  /** Where the decoder stands: what it has read, and what any list with this frame body still holds. */
  lemma StillToRead(data: bytes, position: nat, done: seq<bytes>, all: seq<bytes>)
    requires Sized(done) && Sized(all) && |all| < U32 && data == FrameBody(all) && |done| <= |all|
    requires At(data, 4, Framed(done)) && position == 4 + |Framed(done)|
    ensures done == all[..|done|] && At(data, position, Framed(all[|done|..]))
    ensures position + |Framed(all[|done|..])| == |data|
    ensures |done| < |all| ==>
              && position + 4 <= |data| && LengthAt(data, position) == |all[|done|]|
              && position + 4 + |all[|done|]| <= |data|
  {
    hide Framed, Digits, At, LengthAt;
    AtSplit(data, 0, Digits(|all|, 4), Framed(all));
    AtWhole(data);
    SamePrefix(data, 4, done, all);
    FramedAppend(done, all[|done|..]);
    assert all == done + all[|done|..];
    if |done| < |all| {
      AtFits(data, position + 4, all[|done|]);
      FirstItem(data, position, all[|done|..]);
    }
  }

  lemma OneMore(data: bytes, position: nat, done: seq<bytes>, anchor: bytes)
    requires At(data, 4, Framed(done)) && position == 4 + |Framed(done)| && position + 4 + |anchor| <= |data|
    requires |anchor| == LengthAt(data, position) && anchor == data[position + 4..position + 4 + |anchor|]
    ensures At(data, 4, Framed(done + [anchor])) && 4 + |Framed(done + [anchor])| == position + 4 + |anchor|
  {
    hide Framed, Digits, At, LengthAt;
    LengthFits(data, position);
    AtSlice(data, position + 4, anchor);
    FramedSnoc(done, anchor);
    AtSplit(data, position, Digits(|anchor|, 4), anchor);
    AtSplit(data, 4, Framed(done), Digits(|anchor|, 4) + anchor);
  }

  /** `data` is the frame body of a list within the count limit. */
  predicate Carries(data: bytes, all: seq<bytes>) {
    Sized(all) && |all| <= MAX_ANCHORS && data == FrameBody(all)
  }

  lemma CountRead(data: bytes)
    ensures forall all | Carries(data, all) :: |data| >= 4 && |all| == LengthAt(data, 0)
  {
    hide Framed, Digits, At, LengthAt;
    forall all | Carries(data, all)
      ensures |data| >= 4 && |all| == LengthAt(data, 0)
    {
      AtWhole(data);
      AtSplit(data, 0, Digits(|all|, 4), Framed(all));
      LengthIs(data, 0, |all|);
    }
  }

  /** While anchors are missing, any list with this frame body has its next item in bounds; then the body ends. */
  lemma ItemsLeft(data: bytes, position: nat, done: seq<bytes>, count: nat)
    requires Sized(done) && |done| <= count && At(data, 4, Framed(done)) && position == 4 + |Framed(done)| <= |data|
    requires forall all | Carries(data, all) :: |all| == count
    ensures |done| < count ==> forall all | Carries(data, all) ::
              position + 4 <= |data| && position + 4 + LengthAt(data, position) <= |data|
    ensures |done| == count ==> forall all | Carries(data, all) :: position == |data|
  {
    hide Framed, Digits, At, LengthAt;
    FramedEmpty();
    forall all | Carries(data, all)
      ensures |done| < count ==> position + 4 <= |data| && position + 4 + LengthAt(data, position) <= |data|
      ensures |done| == count ==> position == |data|
    {
      StillToRead(data, position, done, all);
      assert |done| == count ==> all[|done|..] == [];
    }
  }

  lemma BodyRead(data: bytes, anchors: seq<bytes>)
    requires |data| >= 4 && Sized(anchors) && |anchors| == Value(data[..4]) <= MAX_ANCHORS
    requires At(data, 4, Framed(anchors)) && 4 + |Framed(anchors)| == |data|
    ensures Carries(data, anchors)
  {
    hide Framed, Digits, At, Value;
    assert data[0..4] == data[..4];
    LengthFits(data, 0);
    AtSplit(data, 0, Digits(|anchors|, 4), Framed(anchors));
    AtFits(data, 0, FrameBody(anchors));
  }

  /** `_decode_anchors`: accepts exactly the frame bodies of lists within the count limit. */
  method DecodeAnchors(data: bytes) returns (r: Result<seq<bytes>, AnchorError>)
    ensures r.Success? ==> Carries(data, r.value)
    ensures r.Failure? ==> forall all :: !Carries(data, all)
  {
    hide Framed, Digits, At, Value, Power256, Carries;
    CountRead(data);
    if |data| < 4 {
      return Failure(TruncatedFrame);
    }
    var count := Value(data[..4]);
    assert data[0..4] == data[..4];
    if count > MAX_ANCHORS {
      CountLimit(data);
      return Failure(TooMany);
    }
    FramedEmpty();
    AtEmpty(data, 4);
    var position := 4;
    var anchors := [];
    var i := 0;
    while i < count
      invariant i == |anchors| <= count && Sized(anchors)
      invariant At(data, 4, Framed(anchors)) && position == 4 + |Framed(anchors)| <= |data|
    {
      ItemsLeft(data, position, anchors, count);
      if position + 4 > |data| {
        return Failure(TruncatedFrame);
      }
      var length := Value(data[position..position + 4]);
      LengthFits(data, position);
      var end := position + 4 + length;
      if end > |data| {
        return Failure(TruncatedFrame);
      }
      var anchor := data[position + 4..end];
      OneMore(data, position, anchors, anchor);
      anchors := anchors + [anchor];
      position := end;
      i := i + 1;
    }
    ItemsLeft(data, position, anchors, count);
    if position != |data| {
      return Failure(TrailingData);
    }
    BodyRead(data, anchors);
    return Success(anchors);
  }

  lemma CountLimit(data: bytes)
    ensures forall all | Carries(data, all) :: |all| <= MAX_ANCHORS
  {}

  // ----- the native bundle -----

  /** What the bundle octets from `p` on hold, as the C validator reads them. */
  function AnchorsFrom(s: bytes, p: nat): (r: Option<seq<bytes>>)
    requires p <= |s|
    decreases |s| - p
  {
    if p == |s| then Some([])
    else if |s| - p < 4 then None
    else
      var length := LengthAt(s, p);
      if length == 0 || length > |s| - p - 4 then None
      else
        match AnchorsFrom(s, p + 4 + length)
        case None => None
        case Some(rest) => Some([s[p + 4..p + 4 + length]] + rest)
  }

  /** The validator's reading is exactly the inverse of the framing of non-empty anchors. */
  lemma {:induction false} AnchorsExact(s: bytes, p: nat, anchors: seq<bytes>)
    requires p <= |s|
    ensures AnchorsFrom(s, p) == Some(anchors) <==>
            Sized(anchors) && NonEmpty(anchors) && s[p..] == Framed(anchors)
    decreases |s| - p
  {
    hide Framed, LengthAt;
    FramedEmpty();
    if p == |s| {
      if anchors != [] {
        FramedNext(anchors, 0);
      }
    } else if anchors != [] {
      var rest := anchors[1..];
      if Sized(anchors) && NonEmpty(anchors) && s[p..] == Framed(anchors) {
        SplitFirst(s, p, anchors);
        var q := p + 4 + |anchors[0]|;
        AnchorsExact(s, q, rest);
        assert anchors == [anchors[0]] + rest;
      }
      if AnchorsFrom(s, p) == Some(anchors) {
        var q := p + 4 + LengthAt(s, p);
        assert rest == AnchorsFrom(s, q).value && anchors == [anchors[0]] + rest;
        AnchorsExact(s, q, rest);
        LengthFits(s, p);
        JoinFirst(s, p, anchors);
      }
    }
  }

  lemma SplitFirst(s: bytes, p: nat, anchors: seq<bytes>)
    requires p <= |s| && anchors != [] && Sized(anchors) && NonEmpty(anchors) && s[p..] == Framed(anchors)
    ensures |s| - p >= 4 && LengthAt(s, p) == |anchors[0]| > 0 && p + 4 + |anchors[0]| <= |s|
    ensures s[p + 4..p + 4 + |anchors[0]|] == anchors[0] && s[p + 4 + |anchors[0]|..] == Framed(anchors[1..])
    ensures Sized(anchors[1..]) && NonEmpty(anchors[1..])
  {
    hide Framed;
    assert s[p..p + |Framed(anchors)|] == s[p..];
    FirstItem(s, p, anchors);
    assert anchors[0] in anchors;
    assert anchors == [anchors[0]] + anchors[1..];
    assert forall a <- anchors[1..] :: a in anchors;
  }

  lemma JoinFirst(s: bytes, p: nat, anchors: seq<bytes>)
    requires p + 4 <= |s| && p + 4 + LengthAt(s, p) <= |s| && anchors != []
    requires anchors[0] == s[p + 4..p + 4 + LengthAt(s, p)] && At(s, p, Digits(LengthAt(s, p), 4))
    requires s[p + 4 + LengthAt(s, p)..] == Framed(anchors[1..])
    ensures s[p..] == Framed(anchors)
  {
    hide Digits, LengthAt;
    var n := LengthAt(s, p);
    assert Digits(n, 4) == s[p..p + 4];
    assert s[p..] == s[p..p + 4] + s[p + 4..p + 4 + n] + s[p + 4 + n..];
  }

  /** `encode_trust_anchors`: refuses an empty anchor, one too large for the interface, and a bundle whose length
      does not fit a `usize`. */
  method EncodeBundle(anchors: seq<bytes>) returns (r: Result<bytes, AnchorError>)
    ensures r.Success? <==> NonEmpty(anchors) && Sized(anchors) && |Framed(anchors)| < USIZE
    ensures r.Success? ==> r.value == Framed(anchors)
  {
    hide Framed, Digits;
    FramedEmpty();
    var encoded := [];
    var i := 0;
    while i < |anchors|
      invariant i <= |anchors| && Sized(anchors[..i]) && NonEmpty(anchors[..i])
      invariant encoded == Framed(anchors[..i]) && |encoded| < USIZE
    {
      var anchor := anchors[i];
      FramedNext(anchors, i);
      assert anchor in anchors;
      if anchor == [] {
        return Failure(EmptyAnchor);
      }
      if |anchor| >= U32 {
        return Failure(TooLarge);
      }
      if |encoded| + 4 + |anchor| >= USIZE {
        return Failure(OverLimit);
      }
      encoded := encoded + Digits(|anchor|, 4);
      encoded := encoded + anchor;
      i := i + 1;
    }
    assert anchors[..|anchors|] == anchors;
    return Success(encoded);
  }

  /** `trust_bundle_is_valid`: accepts exactly the framings of non-empty anchors, and counts them. */
  method TrustBundleIsValid(bundle: bytes) returns (valid: bool, count: nat)
    ensures valid <==> AnchorsFrom(bundle, 0).Some?
    ensures valid ==> count == |AnchorsFrom(bundle, 0).value|
  {
    count := 0;
    var offset := 0;
    while offset < |bundle|
      invariant offset <= |bundle|
      invariant AnchorsFrom(bundle, 0).Some? <==> AnchorsFrom(bundle, offset).Some?
      invariant AnchorsFrom(bundle, offset).Some? ==>
                  |AnchorsFrom(bundle, 0).value| == count + |AnchorsFrom(bundle, offset).value|
    {
      if |bundle| - offset < 4 {
        return false, 0;
      }
      Word(bundle[offset..offset + 4]);
      var b0: int, b1: int, b2: int, b3: int := bundle[offset], bundle[offset + 1], bundle[offset + 2], bundle[offset + 3];
      var itemLength := b0 * 0x100_0000 + b1 * 0x1_0000 + b2 * 0x100 + b3;
      if itemLength == 0 || itemLength > |bundle| - offset - 4 {
        return false, 0;
      }
      offset := offset + 4 + itemLength;
      count := count + 1;
    }
    return true, count;
  }
}
