/** A strict receiving side for requests, written from section 3 and section 6 of RFC 9112, and the proof
    that what the writer sends is what such a receiver reads. */
module RequestDecoder {
  import opened Wrappers
  import opened Bytes
  import opened Numerals
  import ChunkLine = Chunked
  import opened ResponseModel
  import opened W = RequestWriter
  import G = ResponseGrammar

  datatype Decoded = Decoded(verb: bytes, target: bytes, fields: seq<Field>, body: bytes)

  /** The first CRLF at or after `i`. */
  function FindLine(s: bytes, i: nat): (r: Option<nat>)
    requires i <= |s|
    ensures r.Some? ==> i <= r.value && r.value + 2 <= |s|
    decreases |s| - i
  {
    if i + 2 > |s| then None
    else if s[i] == CR && s[i + 1] == LF then Some(i)
    else FindLine(s, i + 1)
  }

  /** Verb, target and the version literal between single spaces. */
  function DecodeStart(line: bytes): Option<(bytes, bytes)> {
    var a := Find(line, SP, 0);
    if a.None? then None else
    var b := Find(line, SP, a.value + 1);
    if b.None? || line[b.value + 1..] != HTTP_1_1 || !IsToken(line[..a.value]) then None
    else Some((line[..a.value], line[a.value + 1..b.value]))
  }

  /** Field lines up to and including the empty line. */
  function DecodeFields(s: bytes, i: nat): (r: Option<(seq<Field>, nat)>)
    requires i <= |s|
    ensures r.Some? ==> i < r.value.1 <= |s|
    decreases |s| - i
  {
    var end := FindLine(s, i);
    if end.None? then None
    else if end.value == i then Some(([], i + 2))
    else
      var f := ParseField(s[i..end.value]);
      var rest := DecodeFields(s, end.value + 2);
      if f.Failure? || rest.None? then None else Some(([f.value] + rest.value.0, rest.value.1))
  }

  /** Chunks, the last chunk and the trailer section. */
  function DecodeChunks(s: bytes, i: nat): (r: Option<(bytes, nat)>)
    requires i <= |s|
    ensures r.Some? ==> i < r.value.1 <= |s|
    decreases |s| - i
  {
    var end := FindLine(s, i);
    if end.None? then None else
    var size := ChunkLine.ParseChunkSize(s[i..end.value]);
    if size.Failure? then None else
    var start, stop := end.value + 2, end.value + 2 + size.value;
    if size.value == 0 then
      var trailers := DecodeFields(s, start);
      if trailers.None? then None else Some(([], trailers.value.1))
    else if stop + 2 > |s| || s[stop] != CR || s[stop + 1] != LF then None
    else
      var rest := DecodeChunks(s, stop + 2);
      if rest.None? then None else Some((s[start..stop] + rest.value.0, rest.value.1))
  }

  function Count(fields: seq<Field>, name: bytes): nat {
    if fields == [] then 0 else (if Named(fields[0], name) then 1 else 0) + Count(fields[1..], name)
  }

  function FirstValue(fields: seq<Field>, name: bytes): bytes {
    if fields == [] then [] else if Named(fields[0], name) then fields[0].value else FirstValue(fields[1..], name)
  }

  /** The body the fields frame. */
  function DecodeBody(fields: seq<Field>, s: bytes, i: nat): Option<(bytes, nat)>
    requires i <= |s|
  {
    var lengths, codings := Count(fields, CONTENT_LENGTH), Count(fields, TRANSFER_ENCODING);
    if lengths + codings > 1 then None
    else if codings == 1 then
      if EqIgnoreCase(FirstValue(fields, TRANSFER_ENCODING), CHUNKED) then DecodeChunks(s, i) else None
    else if lengths == 1 then
      var n := ParseDecimal(FirstValue(fields, CONTENT_LENGTH));
      if n.None? || i + n.value > |s| then None else Some((s[i..i + n.value], i + n.value))
    else Some(([], i))
  }

  /** One request at the start of `s`, and the position after it. */
  function Decode(s: bytes): Option<(Decoded, nat)> {
    var end := FindLine(s, 0);
    if end.None? then None else
    var start := DecodeStart(s[..end.value]);
    var fields := DecodeFields(s, end.value + 2);
    if start.None? || fields.None? || Count(fields.value.0, HOST) != 1 then None else
    var body := DecodeBody(fields.value.0, s, fields.value.1);
    if body.None? then None
    else Some((Decoded(start.value.0, start.value.1, fields.value.0, body.value.0), body.value.1))
  }

  // ----- lines -----

  lemma {:induction false} FindLineAt(s: bytes, i: nat, line: bytes)
    requires G.Clean(line) && At(s, i, line + CRLF)
    ensures FindLine(s, i) == Some(i + |line|)
    decreases |line|
  {
    var w := line + CRLF;
    if line == [] {
      assert s[i] == w[0] && s[i + 1] == w[1];
    } else {
      assert s[i] == w[0] == line[0];
      assert w[1..] == line[1..] + CRLF;
      assert forall j :: 0 <= j < |w| - 1 ==> w[1..][j] == w[j + 1];
      FindLineAt(s, i + 1, line[1..]);
    }
  }

  /** What the receiver recovers: optional whitespace around a value is not part of it. */
  function Received(fields: seq<Field>): seq<Field> {
    if fields == [] then [] else [Field(fields[0].name, Trim(fields[0].value))] + Received(fields[1..])
  }

  /** A field the writer accepts. */
  predicate Sendable(f: Field) {
    IsToken(f.name) && IsFieldBytes(f.value)
  }

  lemma SpacedValue(v: bytes)
    requires IsFieldBytes(v)
    ensures IsFieldBytes([SP] + v) && Trim([SP] + v) == Trim(v)
  {
    hide TrimEnd;
    SpacedBytes(v);
    assert ([SP] + v)[1..] == v;
    hide IsFieldBytes;
    assert TrimStart([SP] + v) == TrimStart(v);
  }

  lemma SpacedBytes(v: bytes)
    requires IsFieldBytes(v)
    ensures IsFieldBytes([SP] + v)
  {
    var raw := [SP] + v;
    assert forall i :: 0 <= i < |raw| ==> raw[i] == (if i == 0 then SP else v[i - 1]);
  }

  lemma FieldLineIs(f: Field)
    requires Sendable(f)
    ensures var line := G.FieldLine(f.name, [SP] + f.value);
            && line != [] && G.Clean(line) && ParseField(line) == Success(Field(f.name, Trim(f.value)))
            && FieldWire(f) == line + CRLF
  {
    hide Trim, IsFieldBytes, IsToken, ParseField, G.Clean;
    SpacedValue(f.value);
    G.FieldLineComplete(f.name, [SP] + f.value);
    assert FIELD_SEPARATOR == [COLON] + [SP];
    assert f.name + (FIELD_SEPARATOR + (f.value + CRLF)) == f.name + ([COLON] + ([SP] + f.value)) + CRLF;
  }

  lemma {:induction false} FieldsRead(s: bytes, i: nat, fields: seq<Field>)
    requires (forall f <- fields :: Sendable(f)) && At(s, i, FieldsWire(fields) + CRLF)
    ensures DecodeFields(s, i) == Some((Received(fields), i + |FieldsWire(fields)| + 2))
    decreases |fields|
  {
    hide Trim, ParseField, Sendable, FieldWire, EqIgnoreCase, G.FieldLine;
    if fields == [] {
      assert FieldsWire([]) + CRLF == [] + CRLF;
      FindLineAt(s, i, []);
    } else {
      var f := fields[0];
      var line := G.FieldLine(f.name, [SP] + f.value);
      FieldLineIs(f);
      assert FieldsWire(fields) + CRLF == (line + CRLF) + (FieldsWire(fields[1..]) + CRLF);
      AtSplit(s, i, line + CRLF, FieldsWire(fields[1..]) + CRLF);
      AtSplit(s, i, line, CRLF);
      AtSlice(s, i, line);
      FindLineAt(s, i, line);
      FieldsRead(s, i + |line| + 2, fields[1..]);
    }
  }

  // ----- chunks -----

  lemma HexIsClean(n: nat)
    ensures G.Clean(Hex(n))
  {
    var s := Hex(n);
    assert forall i :: 0 <= i < |s| ==> IsHexDigit(s[i]);
  }

  lemma HexLineIs(n: usize)
    ensures ChunkLine.ParseChunkSize(Hex(n)) == Success(n)
  {
    HexValue(n);
    ChunkLine.SizeLineComplete(Hex(n), []);
  }

  lemma ChunkStands(s: bytes, i: nat, c: bytes)
    requires At(s, i, ChunkWire(c))
    ensures var hex := Hex(|c|);
            var start := i + |hex| + 2;
            && FindLine(s, i) == Some(i + |hex|) && s[i..i + |hex|] == hex
            && start + |c| + 2 <= |s| && s[start..start + |c|] == c
            && s[start + |c|] == CR && s[start + |c| + 1] == LF
  {
    hide Hex, FindLine;
    var hex := Hex(|c|);
    AtSplit(s, i, hex, CRLF + (c + CRLF));
    AtSplit(s, i + |hex|, CRLF, c + CRLF);
    AtSplit(s, i + |hex| + 2, c, CRLF);
    AtSplit(s, i, hex, CRLF);
    HexIsClean(|c|);
    FindLineAt(s, i, hex);
    AtSlice(s, i, hex);
    AtSlice(s, i + |hex| + 2, c);
    hide ChunkWire;
    assert s[i + |hex| + 2 + |c|] == CRLF[0] && s[i + |hex| + 2 + |c| + 1] == CRLF[1];
  }

  lemma LastChunkStands(s: bytes, i: nat)
    requires At(s, i, LAST_CHUNK)
    ensures DecodeChunks(s, i) == Some(([], i + 5))
  {
    hide ChunkLine.ParseChunkSize, Hex, FindLine;
    assert LAST_CHUNK == ([48] + CRLF) + ([] + CRLF);
    AtSplit(s, i, [48] + CRLF, [] + CRLF);
    FindLineAt(s, i, [48]);
    FindLineAt(s, i + 3, []);
    AtSplit(s, i, [48], CRLF);
    AtSlice(s, i, [48]);
    ZeroLineIs();
  }

  lemma ZeroLineIs()
    ensures ChunkLine.ParseChunkSize([48]) == Success(0)
  {
    HexLineIs(0);
    assert Hex(0) == [48];
  }

  lemma ChunkLength(c: bytes)
    ensures |ChunkWire(c)| == |Hex(|c|)| + 2 + |c| + 2
  {}

  lemma {:induction false} ChunksRead(s: bytes, i: nat, chunks: seq<bytes>)
    requires (forall c <- chunks :: 0 < |c| < USIZE) && At(s, i, ChunksWire(chunks))
    ensures DecodeChunks(s, i) == Some((Concat(chunks), i + |ChunksWire(chunks)|))
    decreases |chunks|
  {
    hide ChunkLine.ParseChunkSize, Hex, FindLine, DecodeFields, At, ChunkWire;
    if chunks == [] {
      LastChunkStands(s, i);
    } else {
      var c := chunks[0];
      assert c in chunks;
      AtSplit(s, i, ChunkWire(c), ChunksWire(chunks[1..]));
      ChunkStands(s, i, c);
      HexLineIs(|c|);
      ChunkLength(c);
      ChunksRead(s, i + |ChunkWire(c)|, chunks[1..]);
    }
  }

  // ----- what the header loop counts -----

  lemma {:induction false} CountAppend(xs: seq<Field>, ys: seq<Field>, name: bytes)
    ensures Count(xs + ys, name) == Count(xs, name) + Count(ys, name)
    ensures FirstValue(xs + ys, name) == if Count(xs, name) > 0 then FirstValue(xs, name) else FirstValue(ys, name)
  {
    hide Named;
    if xs == [] {
      assert xs + ys == ys;
    } else {
      assert (xs + ys)[1..] == xs[1..] + ys;
      CountAppend(xs[1..], ys, name);
    }
  }

  lemma {:induction false} CountReceived(fields: seq<Field>, name: bytes)
    ensures Count(Received(fields), name) == Count(fields, name)
    ensures FirstValue(Received(fields), name) == Trim(FirstValue(fields, name))
  {
    hide Trim, EqIgnoreCase;
    if fields != [] {
      CountReceived(fields[1..], name);
      assert Received(fields)[1..] == Received(fields[1..]);
    } else {
      TrimEmpty();
    }
  }

  lemma TrimEmpty()
    ensures Trim([]) == []
  {}

  lemma NameClasses(f: Field)
    ensures Named(f, HOST) ==> !Named(f, CONTENT_LENGTH) && !Named(f, TRANSFER_ENCODING)
    ensures Named(f, CONTENT_LENGTH) ==> !Named(f, TRANSFER_ENCODING)
  {}

  /** An accepted header list: what the loop's summary says about it. */
  lemma {:induction false} ScanMeaning(s: Scan, fields: seq<Field>)
    requires ScanFields(s, fields).Success?
    ensures var r := ScanFields(s, fields).value;
            var lengths, codings := Count(fields, CONTENT_LENGTH), Count(fields, TRANSFER_ENCODING);
            && (forall f <- fields :: Sendable(f))
            && r.hosts == s.hosts + Count(fields, HOST) && (s.hosts <= 1 ==> r.hosts <= 1)
            && lengths + (if s.length.Some? then 1 else 0) == (if r.length.Some? then 1 else 0)
            && (lengths == 0 ==> r.length == s.length)
            && (lengths == 1 ==> r.length == ParseDecimal(FirstValue(fields, CONTENT_LENGTH)))
            && codings + (if s.coding.Some? then 1 else 0) == (if r.coding.Some? then 1 else 0)
            && (codings == 0 ==> r.coding == s.coding)
            && (codings == 1 ==> r.coding == Some(FirstValue(fields, TRANSFER_ENCODING)))
    decreases |fields|
  {
    hide Named, ParseDecimal, IsAuthority, IsToken, IsFieldBytes;
    if fields != [] {
      var f := fields[0];
      NameClasses(f);
      ScanMeaning(ScanField(s, f).value, fields[1..]);
      assert fields == [f] + fields[1..];
    }
  }

  lemma {:induction false} ChunksAccepted(chunks: seq<bytes>, length: nat, limit: nat)
    requires ChunksLength(chunks, length, limit).Success?
    ensures forall c <- chunks :: 0 < |c| <= limit
    decreases |chunks|
  {
    if chunks != [] {
      ChunksAccepted(chunks[1..], length + |chunks[0]|, limit);
      assert chunks == [chunks[0]] + chunks[1..];
    }
  }

  lemma DigitsAreTrimmed(v: bytes)
    requires AllDigits(v)
    ensures Trim(v) == v
  {
    if v != [] {
      assert IsDigit(v[0]) && IsDigit(v[|v| - 1]);
    }
    assert [] + v + [] == v;
    TrimUnique([], v, []);
  }

  // ----- the fields on the wire -----

  /** A chunked body together with a caller's Content-Length: the one way two framing fields go out. */
  predicate FramedTwice(r: Request) {
    r.body.Chunked? && Count(r.headers, CONTENT_LENGTH) > 0
  }

  lemma OneField(f: Field, name: bytes)
    ensures Count([f], name) == if Named(f, name) then 1 else 0
    ensures Named(f, name) ==> FirstValue([f], name) == f.value
  {
    hide Named;
    assert [f][1..] == [];
  }

  lemma AddedNames(host: Field, length: Field, coding: Field)
    requires host.name == HOST_NAME && length.name == CONTENT_LENGTH_NAME && coding.name == TRANSFER_ENCODING_NAME
    ensures Named(host, HOST) && Named(length, CONTENT_LENGTH) && Named(coding, TRANSFER_ENCODING)
    ensures IsToken(host.name) && IsToken(length.name) && IsToken(coding.name)
  {}

  /** How many of each framing-relevant field the writer sends. */
  lemma SentCounts(r: Request, limits: RequestLimits)
    requires MakePlan(r, limits).Success?
    ensures var p := MakePlan(r, limits).value;
            var sent := FieldsSent(r, p.scan, p.framing);
            && Count(sent, HOST) == 1
            && Count(sent, CONTENT_LENGTH) == (if r.body.Fixed? || p.scan.length.Some? then 1 else 0)
            && Count(sent, TRANSFER_ENCODING) == (if r.body.Chunked? then 1 else 0)
            && (Count(sent, CONTENT_LENGTH) == 1 ==>
                  FirstValue(sent, CONTENT_LENGTH) ==
                  if p.scan.length.Some? then FirstValue(r.headers, CONTENT_LENGTH) else Decimal(|r.body.data|))
            && (r.body.Chunked? ==>
                  FirstValue(sent, TRANSFER_ENCODING) ==
                  if p.scan.coding.Some? then p.scan.coding.value else ResponseModel.CHUNKED)
  {
    hide Named, ParseDecimal, IsAuthority, IsToken, ScanFields, ChunksLength, Decimal, EqIgnoreCase, Trim;
    var p := MakePlan(r, limits).value;
    ScanMeaning(NO_SCAN, r.headers);
    var host := Field(HOST_NAME, r.authority);
    var hosts := if p.scan.hosts == 0 then [host] else [];
    var framed := FramingField(p.framing);
    AddedNames(host, Field(CONTENT_LENGTH_NAME, if framed == [] then [] else framed[0].value),
               Field(TRANSFER_ENCODING_NAME, if framed == [] then [] else framed[0].value));
    NameClasses(host);
    SentCount(hosts, r.headers, framed, HOST);
    SentCount(hosts, r.headers, framed, CONTENT_LENGTH);
    SentCount(hosts, r.headers, framed, TRANSFER_ENCODING);
    SmallCounts(hosts, HOST);
    SmallCounts(hosts, CONTENT_LENGTH);
    SmallCounts(hosts, TRANSFER_ENCODING);
    SmallCounts(framed, HOST);
    SmallCounts(framed, CONTENT_LENGTH);
    SmallCounts(framed, TRANSFER_ENCODING);
    if framed != [] {
      NameClasses(framed[0]);
    }
  }

  lemma SentCount(a: seq<Field>, b: seq<Field>, c: seq<Field>, name: bytes)
    ensures Count(a + b + c, name) == Count(a, name) + Count(b, name) + Count(c, name)
    ensures Count(a, name) == 0 ==>
              FirstValue(a + b + c, name) == if Count(b, name) > 0 then FirstValue(b, name) else FirstValue(c, name)
  {
    CountAppend(a + b, c, name);
    CountAppend(a, b, name);
  }

  lemma SmallCounts(fields: seq<Field>, name: bytes)
    requires |fields| <= 1
    ensures Count(fields, name) == if fields != [] && Named(fields[0], name) then 1 else 0
    ensures Count(fields, name) == 1 ==> FirstValue(fields, name) == fields[0].value
  {
    hide Named;
    if fields != [] {
      assert fields == [fields[0]];
      OneField(fields[0], name);
    }
  }

  /** Exactly one Host field goes out, and at most one framing field, except in exactly one case: a chunked body whose
      caller also supplied a Content-Length. */
  lemma FramingFieldsSent(r: Request, limits: RequestLimits)
    requires MakePlan(r, limits).Success?
    ensures var p := MakePlan(r, limits).value;
            var sent := FieldsSent(r, p.scan, p.framing);
            && Count(sent, HOST) == 1
            && (Count(sent, CONTENT_LENGTH) + Count(sent, TRANSFER_ENCODING) <= 1 <==> !FramedTwice(r))
  {
    hide Named, ParseDecimal, IsAuthority, IsToken, ScanFields, FieldsSent, FramingField, ValidateFraming;
    SentCounts(r, limits);
    ScanMeaning(NO_SCAN, r.headers);
  }

  // ----- the round trip -----

  function BodyOctets(body: RequestBody): bytes {
    match body
    case NoBody => []
    case Fixed(data) => data
    case Chunked(chunks) => Concat(chunks)
  }

  /** What a receiver should recover from an accepted request. */
  function Expected(r: Request, p: Plan): Decoded {
    Decoded(r.verb, p.target, Received(FieldsSent(r, p.scan, p.framing)), BodyOctets(r.body))
  }

  lemma AddedSendable(r: Request, p: Plan)
    requires p.scan.hosts == 0 ==> IsAuthority(r.authority)
    ensures IsFieldBytes(r.authority) || p.scan.hosts != 0
    ensures forall f <- FramingField(p.framing) :: Sendable(f)
  {
    hide Decimal;
    AddedNames(Field(HOST_NAME, []), Field(CONTENT_LENGTH_NAME, []), Field(TRANSFER_ENCODING_NAME, []));
    if p.framing.ByLength? {
      var d := Decimal(p.framing.length);
      assert forall i :: 0 <= i < |d| ==> IsDigit(d[i]);
    }
  }

  lemma SentSendable(r: Request, limits: RequestLimits)
    requires MakePlan(r, limits).Success?
    ensures var p := MakePlan(r, limits).value; forall f <- FieldsSent(r, p.scan, p.framing) :: Sendable(f)
  {
    hide IsFieldBytes, IsToken, IsAuthority, ScanFields, ValidateFraming, FramingField;
    var p := MakePlan(r, limits).value;
    ScanMeaning(NO_SCAN, r.headers);
    AddedSendable(r, p);
    AddedNames(Field(HOST_NAME, []), Field(CONTENT_LENGTH_NAME, []), Field(TRANSFER_ENCODING_NAME, []));
  }

  lemma StartLineIs(r: Request, limits: RequestLimits)
    requires MakePlan(r, limits).Success?
    ensures var target := MakePlan(r, limits).value.target;
            var line := r.verb + ([SP] + (target + ([SP] + HTTP_1_1)));
            && StartLine(r.verb, target) == line + CRLF && G.Clean(line)
            && DecodeStart(line) == Some((r.verb, target))
  {
    var target := MakePlan(r, limits).value.target;
    StartLineParts(r.verb, target);
  }

  lemma StartLineParts(verb: bytes, target: bytes)
    requires IsToken(verb) && (forall i :: 0 <= i < |target| ==> IsTargetByte(target[i]))
    ensures var line := verb + ([SP] + (target + ([SP] + HTTP_1_1)));
            && StartLine(verb, target) == line + CRLF && G.Clean(line)
            && DecodeStart(line) == Some((verb, target))
  {
    hide Find, IsToken;
    var line := verb + ([SP] + (target + ([SP] + HTTP_1_1)));
    assert SP !in target && CR !in target && LF !in target;
    G.TokenIsClean(verb);
    StartLineShape(verb, target);
    var a, b := |verb|, |verb| + 1 + |target|;
    LineCuts(verb, target, line);
    FindIs(line, SP, 0, a);
    FindIs(line, SP, a + 1, b);
  }

  lemma LineCuts(verb: bytes, target: bytes, line: bytes)
    requires line == verb + ([SP] + (target + ([SP] + HTTP_1_1)))
    ensures var a, b := |verb|, |verb| + 1 + |target|;
            && |line| == b + 1 + |HTTP_1_1| && line[a] == SP && line[b] == SP
            && line[..a] == line[0..a] == verb && line[a + 1..b] == target && line[b + 1..] == HTTP_1_1
    ensures forall x <- line :: x in verb || x in target || x == SP || x in HTTP_1_1
  {
    assert line == verb + [SP] + target + [SP] + HTTP_1_1;
  }

  lemma StartLineShape(verb: bytes, target: bytes)
    ensures StartLine(verb, target) == verb + ([SP] + (target + ([SP] + HTTP_1_1))) + CRLF
  {
    assert HTTP_LINE_END == [SP] + HTTP_1_1 + CRLF;
    assert verb + ([SP] + (target + ([SP] + HTTP_1_1 + CRLF))) == verb + ([SP] + (target + ([SP] + HTTP_1_1))) + CRLF;
  }

  /** What the receiver learns about framing. */
  lemma FramingReceived(r: Request, limits: RequestLimits)
    requires Serialize(r, limits).Success?
    ensures var p := MakePlan(r, limits).value;
            var fields := Received(FieldsSent(r, p.scan, p.framing));
            var lengths, codings := Count(fields, CONTENT_LENGTH), Count(fields, TRANSFER_ENCODING);
            && (lengths + codings > 1 <==> FramedTwice(r))
            && codings == (if r.body.Chunked? then 1 else 0)
            && (codings == 1 ==> EqIgnoreCase(FirstValue(fields, TRANSFER_ENCODING), CHUNKED))
            && (r.body.Fixed? ==> lengths == 1)
            && (lengths == 1 && codings == 0 ==> ParseDecimal(FirstValue(fields, CONTENT_LENGTH)) == Some(|BodyOctets(r.body)|))
  {
    hide Named, ParseDecimal, IsAuthority, ScanFields, FieldsSent, Decimal, EqIgnoreCase, Trim, Serialize, Received, Count, FirstValue;
    PlanOf(r, limits);
    var p := MakePlan(r, limits).value;
    var sent := FieldsSent(r, p.scan, p.framing);
    SentCounts(r, limits);
    FramingFieldsSent(r, limits);
    CountReceived(sent, CONTENT_LENGTH);
    CountReceived(sent, TRANSFER_ENCODING);
    ScanMeaning(NO_SCAN, r.headers);
    CodingIs();
    if r.body.Fixed? {
      DecimalRoundTrip(|r.body.data|);
    }
    if Count(sent, CONTENT_LENGTH) == 1 && !r.body.Chunked? {
      LengthIs(FirstValue(sent, CONTENT_LENGTH), |BodyOctets(r.body)|);
    }
  }

  /** The framed body is read back, unless two framing fields contradict each other. */
  lemma BodyRead(r: Request, limits: RequestLimits, s: bytes, i: nat)
    requires Serialize(r, limits).Success? && At(s, i, BodySent(r.body))
    ensures var p := MakePlan(r, limits).value;
            DecodeBody(Received(FieldsSent(r, p.scan, p.framing)), s, i) ==
            if FramedTwice(r) then None else Some((BodyOctets(r.body), i + |BodySent(r.body)|))
  {
    hide Named, ParseDecimal, FieldsSent, EqIgnoreCase, Serialize, Received, Count, FirstValue, MakePlan, DecodeChunks;
    FramingReceived(r, limits);
    AtSlice(s, i, BodySent(r.body));
    if r.body.Chunked? {
      ChunkSizes(r, limits);
      ChunksRead(s, i, r.body.chunks);
    } else {
      assert s[i..i + |BodyOctets(r.body)|] == BodyOctets(r.body);
    }
  }

  lemma ChunkSizes(r: Request, limits: RequestLimits)
    requires Serialize(r, limits).Success? && r.body.Chunked?
    ensures forall c <- r.body.chunks :: 0 < |c| < USIZE
  {
    hide ScanFields, ChunksLength, FieldsSent, EqIgnoreCase, Trim;
    ChunksAccepted(r.body.chunks, 0, limits.maxBodyBytes);
  }

  lemma PlanOf(r: Request, limits: RequestLimits)
    requires Serialize(r, limits).Success?
    ensures MakePlan(r, limits).Success?
  {}

  lemma LengthIs(v: bytes, n: nat)
    requires ParseDecimal(v) == Some(n)
    ensures ParseDecimal(Trim(v)) == Some(n)
  {
    DigitsAreTrimmed(v);
  }

  lemma CodingIs()
    ensures EqIgnoreCase(Trim(ResponseModel.CHUNKED), ResponseModel.CHUNKED)
  {
    assert !IsOws(ResponseModel.CHUNKED[0]) && !IsOws(ResponseModel.CHUNKED[6]);
    assert [] + ResponseModel.CHUNKED + [] == ResponseModel.CHUNKED;
    TrimUnique([], ResponseModel.CHUNKED, []);
  }

  /** Requests are self-delimiting. A strict receiver of any octets that begin with an accepted request
      recovers its verb, effective target, fields in order, body, and the exact end of the request,
      if and only if the request does not go out with two framing fields. */
  lemma RequestRoundTrip(r: Request, limits: RequestLimits, rest: bytes)
    requires Serialize(r, limits).Success?
    ensures var w := Serialize(r, limits).value;
            Decode(w + rest) ==
            if FramedTwice(r) then None else Some((Expected(r, MakePlan(r, limits).value), |w|))
  {
    hide MakePlan, FieldsSent, FieldsWire, StartLine, BodySent, Serialize, DecodeStart, DecodeFields, DecodeBody, IsToken, FindLine,
      At, Count, Received, G.Clean, FramedTwice, Sendable, BodyOctets;
    PlanOf(r, limits);
    var p := MakePlan(r, limits).value;
    var sent := FieldsSent(r, p.scan, p.framing);
    var line := r.verb + ([SP] + (p.target + ([SP] + HTTP_1_1)));
    var w, section, body := Serialize(r, limits).value, FieldsWire(sent) + CRLF, BodySent(r.body);
    StartLineIs(r, limits);
    SentSendable(r, limits);
    SentCounts(r, limits);
    CountReceived(sent, HOST);
    SerializedParts(r, limits);
    var s := w + rest;
    AtFirst(w, rest);
    AtSplit3(s, 0, line + CRLF, section, body);
    FieldsRead(s, |line| + 2, sent);
    BodyRead(r, limits, s, |line| + 2 + |section|);
    AtWithin(s, |line| + 2, section);
    FindLineAt(s, 0, line);
    AtSplit(s, 0, line, CRLF);
    AtSlice(s, 0, line);
  }

  lemma AtWithin(s: bytes, i: nat, w: bytes)
    requires At(s, i, w)
    ensures i + |w| <= |s|
  {}

  lemma SerializedParts(r: Request, limits: RequestLimits)
    requires Serialize(r, limits).Success?
    ensures var p := MakePlan(r, limits).value;
            Serialize(r, limits).value ==
            StartLine(r.verb, p.target) + (FieldsWire(FieldsSent(r, p.scan, p.framing)) + CRLF) + BodySent(r.body)
  {
    hide MakePlan, FieldsSent, FieldsWire, StartLine, BodySent;
  }

  lemma ParseDecimalFive()
    ensures ParseDecimal([53]) == Some(5)
  {
    DecimalRoundTrip(5);
    assert Decimal(5) == [53];
  }

  lemma ShortMethod()
    ensures ValidateMethod([71]) == Success(())
  {}

  /** A concrete request that the writer accepts and that carries both framing fields:
      `G a` with `Content-Length: 5` and the one-chunk body `x`. */
  lemma BothFramingFieldsAccepted() returns (r: Request)
    ensures Serialize(r, DEFAULT_REQUEST_LIMITS).Success? && FramedTwice(r)
  {
    hide EqIgnoreCase, Hex;
    var host, f := Field(HOST_NAME, [97]), Field(CONTENT_LENGTH_NAME, [53]);
    var coding := Field(TRANSFER_ENCODING_NAME, ResponseModel.CHUNKED);
    r := Request([71], [], [97], [f], Chunked([[120]]));
    AddedNames(host, f, coding);
    NameClasses(f);
    ParseDecimalFive();
    assert ScanFields(NO_SCAN, [f]) == Success(NO_SCAN.(length := Some(5))) by {
      assert [f][1..] == [];
    }
    assert ChunksLength([[120]], 0, DEFAULT_REQUEST_LIMITS.maxBodyBytes) == Success(1) by {
      assert [[120]][1..] == [];
    }
    ShortMethod();
    var sent := [host] + [f] + [coding];
    assert FieldsSent(r, NO_SCAN.(length := Some(5)), ByChunks(true)) == sent;
    FieldsWireAppend([host] + [f], [coding]);
    FieldsWireAppend([host], [f]);
    FieldsWireOne(host);
    FieldsWireOne(f);
    FieldsWireOne(coding);
    assert |FieldsWire(sent)| == 9 + 19 + 28;
  }
}
