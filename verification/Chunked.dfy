/** The chunk-size line of section 7.1 of RFC 9112: hexadecimal size and chunk extensions. */
module Chunked {
  import opened Wrappers
  import opened Bytes
  import opened Numerals

  datatype ChunkSizeError = Invalid | Overflow

  // ----- the scanner as functions of the text and a position -----

  function PastOws(s: bytes, position: nat): (r: nat)
    requires position <= |s|
    ensures position <= r <= |s|
    decreases |s| - position
  {
    if position < |s| && IsOws(s[position]) then PastOws(s, position + 1) else position
  }

  function PastToken(s: bytes, position: nat): (r: nat)
    requires position <= |s|
    ensures position <= r <= |s|
    decreases |s| - position
  {
    if position < |s| && IsTchar(s[position]) then PastToken(s, position + 1) else position
  }

  /** Octets that stand for themselves inside a quoted string. */
  predicate IsQdText(b: byte) {
    b == HTAB || 0x20 <= b <= 0x21 || 0x23 <= b <= 0x5b || 0x5d <= b <= 0x7e || 0x80 <= b
  }

  /** Octets that may follow a backslash inside a quoted string. */
  predicate IsEscapable(b: byte) {
    b == HTAB || 0x20 <= b <= 0x7e || 0x80 <= b
  }

  /** The position after the closing quote, reading string content from `position`. */
  function PastQuoted(s: bytes, position: nat): (r: Option<nat>)
    requires position <= |s|
    ensures r.Some? ==> position < r.value <= |s|
    decreases |s| - position
  {
    if position == |s| then None
    else if s[position] == DQUOTE then Some(position + 1)
    else if s[position] == BACKSLASH then
      if position + 1 < |s| && IsEscapable(s[position + 1]) then PastQuoted(s, position + 2) else None
    else if IsQdText(s[position]) then PastQuoted(s, position + 1)
    else None
  }

  /** The position after an extension's value, which starts at `position`. */
  function PastValue(s: bytes, position: nat): (r: Option<nat>)
    requires position <= |s|
    ensures r.Some? ==> position < r.value <= |s|
  {
    if position < |s| && s[position] == DQUOTE then PastQuoted(s, position + 1)
    else if PastToken(s, position) == position then None
    else Some(PastToken(s, position))
  }

  /** The position after one extension with its surrounding whitespace. */
  function PastExtension(s: bytes, position: nat): (r: Option<nat>)
    requires position <= |s|
    ensures r.Some? ==> position < r.value <= |s|
  {
    var name := PastOws(s, position);
    var end := PastToken(s, name);
    if end == name then None
    else
      var next := PastOws(s, end);
      if next < |s| && s[next] == EQUALS then
        match PastValue(s, PastOws(s, next + 1))
        case None => None
        case Some(last) => Some(PastOws(s, last))
      else Some(next)
  }

  predicate ExtensionsFrom(s: bytes, position: nat)
    requires position <= |s|
    decreases |s| - position
  {
    match PastExtension(s, position)
    case None => false
    case Some(next) => next == |s| || (s[next] == SEMICOLON && ExtensionsFrom(s, next + 1))
  }

  predicate ValidExtensions(s: bytes) {
    ExtensionsFrom(s, 0)
  }

  function ParseChunkSize(line: bytes): Result<nat, ChunkSizeError> {
    var semicolon := Find(line, SEMICOLON, 0);
    var size := if semicolon.Some? then line[..semicolon.value] else line;
    if size == [] || !AllHexDigits(size) then Failure(Invalid)
    else if semicolon.Some? && !ValidExtensions(line[semicolon.value + 1..]) then Failure(Invalid)
    else match CheckedFold(size, 16, 0)
      case Some(n) => Success(n)
      case None => Failure(Overflow)
  }

  // ----- the grammar the scanner accepts -----

  datatype Extension =
    | Flag(before: bytes, name: bytes, after: bytes)
    | Valued(before: bytes, name: bytes, after: bytes, lead: bytes, value: bytes, trail: bytes)
  {
    predicate Valid() {
      && AllOws(before) && IsToken(name) && AllOws(after)
      && (Valued? ==> AllOws(lead) && (IsToken(value) || IsQuotedString(value)) && AllOws(trail))
    }

    function Name(): bytes {
      before + name + after
    }

    function Tail(): bytes
      requires Valued?
    {
      lead + value + trail
    }

    function Wire(): bytes {
      if Flag? then Name() else Name() + ([EQUALS] + Tail())
    }
  }

  /** Quoted-string content: quoted text and backslash pairs. */
  predicate IsQuotedContent(s: bytes) {
    s == []
    || (IsQdText(s[0]) && IsQuotedContent(s[1..]))
    || (s[0] == BACKSLASH && |s| > 1 && IsEscapable(s[1]) && IsQuotedContent(s[2..]))
  }

  predicate IsQuotedString(s: bytes) {
    |s| >= 2 && s[0] == DQUOTE && s[|s| - 1] == DQUOTE && IsQuotedContent(s[1..|s| - 1])
  }

  function ListWire(es: seq<Extension>): bytes
    requires es != []
  {
    if |es| == 1 then es[0].Wire() else es[0].Wire() + ([SEMICOLON] + ListWire(es[1..]))
  }

  predicate AllValid(es: seq<Extension>) {
    forall e <- es :: e.Valid()
  }

  lemma {:induction false} PastOwsRun(s: bytes, position: nat)
    requires position <= |s|
    ensures var r := PastOws(s, position); AllOws(s[position..r]) && (r < |s| ==> !IsOws(s[r]))
    decreases |s| - position
  {
    if position < |s| && IsOws(s[position]) {
      PastOwsRun(s, position + 1);
      var r := PastOws(s, position);
      assert s[position..r] == [s[position]] + s[position + 1..r];
    }
  }

  lemma {:induction false} PastTokenRun(s: bytes, position: nat)
    requires position <= |s|
    ensures var r := PastToken(s, position);
            (r > position ==> IsToken(s[position..r])) && (r < |s| ==> !IsTchar(s[r]))
    decreases |s| - position
  {
    if position < |s| && IsTchar(s[position]) {
      PastTokenRun(s, position + 1);
      var r := PastToken(s, position);
      assert s[position..r] == [s[position]] + s[position + 1..r];
    }
  }

  lemma {:induction false} PastQuotedIs(s: bytes, position: nat, end: nat)
    requires position <= end < |s|
    ensures PastQuoted(s, position) == Some(end + 1) <==>
            s[end] == DQUOTE && IsQuotedContent(s[position..end])
    decreases end - position
  {
    var content := s[position..end];
    if position < end {
      assert content[0] == s[position];
      assert content[1..] == s[position + 1..end];
      PastQuotedIs(s, position + 1, end);
      if position + 1 < end {
        assert content[2..] == s[position + 2..end];
        PastQuotedIs(s, position + 2, end);
      }
    }
  }

  lemma PastValueSound(s: bytes, position: nat) returns (v: bytes)
    requires position <= |s| && PastValue(s, position).Some?
    ensures IsToken(v) || IsQuotedString(v)
    ensures At(s, position, v) && PastValue(s, position) == Some(position + |v|)
  {
    var end := PastValue(s, position).value;
    v := s[position..end];
    if s[position] == DQUOTE {
      PastQuotedIs(s, position + 1, end - 1);
      assert v[1..|v| - 1] == s[position + 1..end - 1];
    } else {
      PastTokenRun(s, position);
    }
  }

  lemma PastValueComplete(s: bytes, position: nat, v: bytes)
    requires At(s, position, v) && (IsToken(v) || IsQuotedString(v))
    requires position + |v| < |s| ==> !IsTchar(s[position + |v|])
    ensures PastValue(s, position) == Some(position + |v|)
  {
    var end := position + |v|;
    assert s[position] == v[0] && s[end - 1] == v[|v| - 1];
    if IsToken(v) {
      PastTokenAt(s, position, v);
    } else {
      assert v[1..|v| - 1] == s[position + 1..end - 1];
      PastQuotedIs(s, position + 1, end - 1);
    }
  }

  lemma PastNameSound(s: bytes, position: nat) returns (before: bytes, name: bytes, after: bytes)
    requires position <= |s| && PastExtension(s, position).Some?
    ensures AllOws(before) && IsToken(name) && AllOws(after) && At(s, position, before + name + after)
    ensures PastOws(s, PastToken(s, PastOws(s, position))) == position + |before + name + after|
  {
    var start := PastOws(s, position);
    var end := PastToken(s, start);
    var next := PastOws(s, end);
    PastOwsRun(s, position);
    PastTokenRun(s, start);
    PastOwsRun(s, end);
    before, name, after := s[position..start], s[start..end], s[end..next];
    AtSplit3(s, position, before, name, after);
  }

  lemma PastTailSound(s: bytes, position: nat) returns (lead: bytes, v: bytes, trail: bytes)
    requires position <= |s| && PastValue(s, PastOws(s, position)).Some?
    ensures AllOws(lead) && (IsToken(v) || IsQuotedString(v)) && AllOws(trail)
    ensures At(s, position, lead + v + trail)
    ensures PastOws(s, PastValue(s, PastOws(s, position)).value) == position + |lead + v + trail|
  {
    var start := PastOws(s, position);
    PastOwsRun(s, position);
    v := PastValueSound(s, start);
    var last := start + |v|;
    PastOwsRun(s, last);
    lead, trail := s[position..start], s[last..PastOws(s, last)];
    AtSplit3(s, position, lead, v, trail);
  }

  lemma PastExtensionSound(s: bytes, position: nat) returns (e: Extension)
    requires position <= |s| && PastExtension(s, position).Some?
    ensures e.Valid() && At(s, position, e.Wire())
    ensures PastExtension(s, position) == Some(position + |e.Wire()|)
  {
    hide PastOws, PastToken, PastValue, IsQuotedString, IsToken, AllOws;
    var before, name, after := PastNameSound(s, position);
    e := Flag(before, name, after);
    var next := position + |e.Name()|;
    if next < |s| && s[next] == EQUALS {
      var lead, v, trail := PastTailSound(s, next + 1);
      e := Valued(before, name, after, lead, v, trail);
      AtWire(s, position, e);
    }
  }

  lemma AtWire(s: bytes, position: nat, e: Extension)
    requires e.Valued?
    ensures At(s, position, e.Wire()) <==>
            At(s, position, e.Name()) && At(s, position + |e.Name()|, [EQUALS]) &&
            At(s, position + |e.Name()| + 1, e.Tail())
    ensures At(s, position, e.Wire()) ==> s[position + |e.Name()|] == EQUALS
  {
    var name, tail := e.Name(), e.Tail();
    AtSplit(s, position, name, [EQUALS] + tail);
    AtSplit(s, position + |name|, [EQUALS], tail);
    assert At(s, position + |name|, [EQUALS]) ==> s[position + |name|] == [EQUALS][0];
  }

  lemma {:induction false} PastOwsAt(s: bytes, position: nat, w: bytes)
    requires At(s, position, w) && AllOws(w)
    requires var end := position + |w|; end < |s| ==> !IsOws(s[end])
    ensures PastOws(s, position) == position + |w|
    decreases |w|
  {
    if w != [] {
      assert s[position] == w[0];
      PastOwsAt(s, position + 1, w[1..]);
    }
  }

  lemma {:induction false} PastTokenAt(s: bytes, position: nat, w: bytes)
    requires At(s, position, w) && (forall i :: 0 <= i < |w| ==> IsTchar(w[i]))
    requires var end := position + |w|; end < |s| ==> !IsTchar(s[end])
    ensures PastToken(s, position) == position + |w|
    decreases |w|
  {
    if w != [] {
      assert s[position] == w[0];
      PastTokenAt(s, position + 1, w[1..]);
    }
  }

  lemma PastNameComplete(s: bytes, position: nat, before: bytes, name: bytes, after: bytes)
    requires AllOws(before) && IsToken(name) && AllOws(after) && At(s, position, before + name + after)
    requires var next := position + |before + name + after|; next < |s| ==> s[next] in {SEMICOLON, EQUALS}
    ensures var start := position + |before|;
            && PastOws(s, position) == start
            && PastToken(s, start) == start + |name|
            && PastOws(s, start + |name|) == start + |name| + |after|
  {
    var start := position + |before|;
    AtSplit3(s, position, before, name, after);
    assert s[start] == name[0];
    assert after != [] ==> s[start + |name|] == after[0];
    PastOwsAt(s, position, before);
    PastTokenAt(s, start, name);
    PastOwsAt(s, start + |name|, after);
  }

  lemma PastTailComplete(s: bytes, position: nat, lead: bytes, v: bytes, trail: bytes)
    requires AllOws(lead) && (IsToken(v) || IsQuotedString(v)) && AllOws(trail)
    requires At(s, position, lead) && At(s, position + |lead|, v) && At(s, position + |lead| + |v|, trail)
    requires var stop := position + |lead| + |v| + |trail|; stop < |s| ==> s[stop] == SEMICOLON
    ensures var start := position + |lead|;
            && PastOws(s, position) == start
            && PastValue(s, start) == Some(start + |v|)
            && PastOws(s, start + |v|) == start + |v| + |trail|
  {
    assert s[position + |lead|] == v[0];
    assert trail != [] ==> s[position + |lead| + |v|] == trail[0];
    PastOwsAt(s, position, lead);
    PastValueComplete(s, position + |lead|, v);
    PastOwsAt(s, position + |lead| + |v|, trail);
  }

  lemma PastExtensionComplete(s: bytes, position: nat, e: Extension)
    requires e.Valid() && At(s, position, e.Wire())
    requires var stop := position + |e.Wire()|; stop < |s| ==> s[stop] == SEMICOLON
    ensures PastExtension(s, position) == Some(position + |e.Wire()|)
  {
    hide PastOws, PastToken, PastValue, IsQuotedString, IsTchar, AllOws, At;
    assert position + |e.Wire()| <= |s| by {
      AtSlice(s, position, e.Wire());
    }
    assert |e.name| > 0;
    hide IsToken;
    if e.Valued? {
      PastValued(s, position, e);
    } else {
      PastNameComplete(s, position, e.before, e.name, e.after);
    }
  }

  lemma PastValued(s: bytes, position: nat, e: Extension)
    requires e.Valued? && e.Valid() && At(s, position, e.Wire()) && |e.name| > 0 && position + |e.Wire()| <= |s|
    requires var stop := position + |e.Wire()|; stop < |s| ==> s[stop] == SEMICOLON
    ensures PastExtension(s, position) == Some(position + |e.Wire()|)
  {
    hide *;
    var next := position + |e.Name()|;
    WireLengths(e);
    AtWire(s, position, e);
    NamePart(s, position, e);
    TailPart(s, next + 1, e);
    var name, value := position + |e.before|, next + 1 + |e.lead|;
    ReadsValued(s, position, name, name + |e.name|, next, value, value + |e.value|, position + |e.Wire()|);
  }

  lemma WireLengths(e: Extension)
    requires e.Valued?
    ensures |e.Wire()| == |e.Name()| + 1 + |e.Tail()|
    ensures |e.Name()| == |e.before| + |e.name| + |e.after| && |e.Tail()| == |e.lead| + |e.value| + |e.trail|
  {}

  lemma NamePart(s: bytes, position: nat, e: Extension)
    requires e.Valid() && At(s, position, e.Name())
    requires var next := position + |e.Name()|; next < |s| && s[next] == EQUALS
    ensures var start := position + |e.before|;
            && PastOws(s, position) == start && PastToken(s, start) == start + |e.name|
            && PastOws(s, start + |e.name|) == position + |e.Name()|
  {
    hide PastOws, PastToken, AllOws, IsToken, At, IsQuotedString;
    PastNameComplete(s, position, e.before, e.name, e.after);
  }

  lemma TailPart(s: bytes, position: nat, e: Extension)
    requires e.Valued? && e.Valid() && At(s, position, e.Tail())
    requires var stop := position + |e.Tail()|; stop < |s| ==> s[stop] == SEMICOLON
    ensures var start := position + |e.lead|;
            && PastOws(s, position) == start && PastValue(s, start) == Some(start + |e.value|)
            && PastOws(s, start + |e.value|) == position + |e.Tail()|
  {
    hide PastOws, PastToken, PastValue, AllOws, IsToken, IsQuotedString;
    AtSplit3(s, position, e.lead, e.value, e.trail);
    hide At;
    PastTailComplete(s, position, e.lead, e.value, e.trail);
  }

  lemma ReadsValued(s: bytes, position: nat, name: nat, end: nat, next: nat, value: nat, last: nat, stop: nat)
    requires position <= |s| && name < end <= |s| && next < |s| && value <= |s| && last <= |s|
    requires PastOws(s, position) == name && PastToken(s, name) == end && PastOws(s, end) == next && s[next] == EQUALS
    requires PastOws(s, next + 1) == value && PastValue(s, value) == Some(last) && PastOws(s, last) == stop
    ensures PastExtension(s, position) == Some(stop)
  {
    hide PastOws, PastToken, PastValue;
  }

  lemma AtItem(s: bytes, position: nat, item: bytes, rest: bytes)
    ensures At(s, position, item + ([SEMICOLON] + rest)) <==>
            At(s, position, item) && At(s, position + |item|, [SEMICOLON]) && At(s, position + |item| + 1, rest)
  {
    AtSplit(s, position, item, [SEMICOLON] + rest);
    AtSplit(s, position + |item|, [SEMICOLON], rest);
  }

  lemma {:induction false} ExtensionsSound(s: bytes, position: nat) returns (es: seq<Extension>)
    requires position <= |s| && ExtensionsFrom(s, position)
    ensures es != [] && AllValid(es) && At(s, position, ListWire(es)) && position + |ListWire(es)| == |s|
    decreases |s| - position
  {
    hide PastExtension, Extension.Wire, Extension.Valid;
    var e := PastExtensionSound(s, position);
    var next := position + |e.Wire()|;
    if next == |s| {
      es := [e];
    } else {
      var rest := ExtensionsSound(s, next + 1);
      es := [e] + rest;
      assert es[1..] == rest;
      AtItem(s, position, e.Wire(), ListWire(rest));
    }
  }

  lemma {:induction false} ExtensionsComplete(s: bytes, position: nat, es: seq<Extension>)
    requires es != [] && AllValid(es) && At(s, position, ListWire(es)) && position + |ListWire(es)| == |s|
    ensures ExtensionsFrom(s, position)
    decreases |es|
  {
    hide PastExtension, Extension.Wire, Extension.Valid;
    var w := es[0].Wire();
    if |es| > 1 {
      AtItem(s, position, w, ListWire(es[1..]));
      assert s[position + |w|] == [SEMICOLON][0];
      PastExtensionComplete(s, position, es[0]);
      ExtensionsComplete(s, position + |w| + 1, es[1..]);
    } else {
      PastExtensionComplete(s, position, es[0]);
    }
  }

  /** A chunk-size line as the sender composes it. */
  function SizeLine(digits: bytes, es: seq<Extension>): bytes {
    if es == [] then digits else digits + [SEMICOLON] + ListWire(es)
  }

  lemma SizeLineSound(line: bytes) returns (digits: bytes, es: seq<Extension>)
    requires ParseChunkSize(line).Success?
    ensures AllValid(es) && line == SizeLine(digits, es)
    ensures digits != [] && AllHexDigits(digits) && ValueOf(digits, 16) == ParseChunkSize(line).value < USIZE
  {
    hide Find, ExtensionsFrom, Extension.Valid;
    var semicolon := Find(line, SEMICOLON, 0);
    if semicolon.Some? {
      digits := line[..semicolon.value];
      es := ExtensionsSound(line[semicolon.value + 1..], 0);
      var list := line[semicolon.value + 1..];
      AtSlice(list, 0, ListWire(es));
      assert list[0..|list|] == list == ListWire(es);
      assert line == digits + [SEMICOLON] + list;
    } else {
      digits, es := line, [];
    }
    CheckedFoldExact(digits, 16, 0);
  }

  lemma FindAfter(prefix: bytes, b: byte, rest: bytes)
    requires b !in prefix
    ensures Find(prefix + [b] + rest, b, 0) == Some(|prefix|)
  {
    var s := prefix + [b] + rest;
    assert s[|prefix|] == b;
    assert forall i :: 0 <= i < |prefix| ==> s[i] == prefix[i];
  }

  /** The parser accepts exactly the lines of the grammar whose size is below 2^64. */
  lemma SizeLineComplete(digits: bytes, es: seq<Extension>)
    requires AllValid(es) && digits != [] && AllHexDigits(digits)
    ensures var n := ValueOf(digits, 16);
            ParseChunkSize(SizeLine(digits, es)) == if n < USIZE then Success(n) else Failure(Overflow)
  {
    var line := SizeLine(digits, es);
    CheckedFoldExact(digits, 16, 0);
    assert SEMICOLON !in digits;
    if es != [] {
      var list := ListWire(es);
      FindAfter(digits, SEMICOLON, list);
      assert line[..|digits|] == digits && line[|digits| + 1..] == list;
      ExtensionsComplete(list, 0, es);
    }
  }

  // ----- the scanning loops -----

  method SkipOws(s: bytes, position: nat) returns (p: nat)
    requires position <= |s|
    ensures p == PastOws(s, position)
  {
    p := position;
    while p < |s| && IsOws(s[p])
      invariant position <= p <= |s| && PastOws(s, p) == PastOws(s, position)
    {
      p := p + 1;
    }
  }

  method SkipToken(s: bytes, position: nat) returns (p: nat)
    requires position <= |s|
    ensures p == PastToken(s, position)
  {
    p := position;
    while p < |s| && IsTchar(s[p])
      invariant position <= p <= |s| && PastToken(s, p) == PastToken(s, position)
    {
      p := p + 1;
    }
  }

  /** Starts on the opening quote; on success `p` is the position after the closing one. */
  method ConsumeQuotedString(s: bytes, position: nat) returns (closed: bool, p: nat)
    requires position < |s|
    ensures closed <==> PastQuoted(s, position + 1).Some?
    ensures closed ==> PastQuoted(s, position + 1) == Some(p)
  {
    p := position + 1;
    while p < |s|
      invariant p <= |s| && PastQuoted(s, p) == PastQuoted(s, position + 1)
    {
      if s[p] == DQUOTE {
        return true, p + 1;
      } else if s[p] == BACKSLASH {
        p := p + 1;
        if p == |s| || !IsEscapable(s[p]) {
          return false, p;
        }
        p := p + 1;
      } else if IsQdText(s[p]) {
        p := p + 1;
      } else {
        return false, p;
      }
    }
    closed := false;
  }

  /** The value after an equals sign: a quoted string or a token. */
  method SkipValue(s: bytes, position: nat) returns (found: bool, p: nat)
    requires position <= |s|
    ensures found <==> PastValue(s, position).Some?
    ensures found ==> PastValue(s, position) == Some(p)
  {
    if position < |s| && s[position] == DQUOTE {
      found, p := ConsumeQuotedString(s, position);
    } else {
      p := SkipToken(s, position);
      found := p != position;
    }
  }

  /** One extension with its surrounding whitespace. */
  method SkipExtension(s: bytes, position: nat) returns (found: bool, p: nat)
    requires position <= |s|
    ensures found <==> PastExtension(s, position).Some?
    ensures found ==> PastExtension(s, position) == Some(p)
  {
    p := SkipOws(s, position);
    var name := p;
    p := SkipToken(s, p);
    if p == name {
      return false, p;
    }
    p := SkipOws(s, p);
    found := true;
    if p < |s| && s[p] == EQUALS {
      p := SkipOws(s, p + 1);
      found, p := SkipValue(s, p);
      if found {
        p := SkipOws(s, p);
      }
    }
  }

  method CheckExtensions(s: bytes) returns (valid: bool)
    ensures valid <==> ValidExtensions(s)
  {
    if s == [] {
      return false;
    }
    var position := 0;
    while true
      invariant position < |s| && ExtensionsFrom(s, position) == ValidExtensions(s)
      decreases |s| - position
    {
      var found, next := SkipExtension(s, position);
      if !found {
        return false;
      }
      if next == |s| {
        return true;
      }
      if s[next] != SEMICOLON {
        return false;
      }
      position := next + 1;
      if position == |s| {
        return false;
      }
    }
  }

  method ReadChunkSize(line: bytes) returns (r: Result<nat, ChunkSizeError>)
    ensures r == ParseChunkSize(line)
  {
    var semicolon := Find(line, SEMICOLON, 0);
    var size := if semicolon.Some? then line[..semicolon.value] else line;
    if size == [] || !AllHexDigits(size) {
      return Failure(Invalid);
    }
    if semicolon.Some? {
      var valid := CheckExtensions(line[semicolon.value + 1..]);
      if !valid {
        return Failure(Invalid);
      }
    }
    var n := CheckedFold(size, 16, 0);
    r := if n.Some? then Success(n.value) else Failure(Overflow);
  }
}
