/** The parser reads exactly the messages of the grammar: soundness and completeness. */
module ResponseMeaning {
  import opened Wrappers
  import opened Bytes
  import opened ResponseModel
  import opened ResponseGrammar

  /** At the first octet of a line. */
  predicate AtLine(p: Parser) {
    LineState(p.state) && p.line == [] && !p.pendingCr && p.lineStart == p.offset
  }

  /** The outcomes that end a message: completion, or a close-delimited body still open. */
  predicate Ends(r: (Outcome, nat)) {
    r.0.Complete? || (r.0.More? && r.0.parser.state.CloseBody?)
  }

  // ----- one line -----

  function AfterLine(p: Parser, line: bytes): Parser
    requires LineState(p.state)
  {
    var section := SectionOf(p.state);
    var n := |p.line| + |line| + 2;
    p.(offset := p.offset + |line| + 2, lineStart := p.offset + |line| + 2, line := [],
       headBytes := if section.HeadSection? then p.headBytes + n else p.headBytes,
       trailerBytes := if section.TrailerSection? then p.trailerBytes + n else p.trailerBytes)
  }

  lemma LineEnd(p: Parser, input: bytes, i: nat)
    requires LineState(p.state) && !p.pendingCr && i + 2 <= |input| && input[i] == CR && input[i + 1] == LF
    requires LineFits(p, SectionOf(p.state), |p.line|) && p.offset + 2 < USIZE
    ensures Run(p, input, i) == Resume(OnLine(AfterLine(p, []), p.line, p.lineStart), input, i + 2)
  {
    hide OnLine;
    var q := p.(pendingCr := true, offset := p.offset + 1);
    assert Step(p, input[i]) == More(q);
    assert LineStep(q, SectionOf(p.state), LF) == GotLine(AfterLine(p, []), p.line, p.lineStart);
    assert Run(p, input, i) == Run(q, input, i + 1);
  }

  lemma PlainOctet(p: Parser, input: bytes, i: nat, b: byte)
    requires LineState(p.state) && !p.pendingCr && At(input, i, [b]) && b != CR && b != LF
    requires LineFits(p, SectionOf(p.state), |p.line| + 1) && p.offset + 1 < USIZE
    ensures Run(p, input, i) == Run(p.(line := p.line + [b], offset := p.offset + 1), input, i + 1)
  {
    hide OnLine;
    assert input[i] == [b][0];
    assert Step(p, input[i]) == More(p.(line := p.line + [b], offset := p.offset + 1));
  }

  /** A whole line that fits is delivered in one piece. */
  lemma {:induction false} LineRun(p: Parser, input: bytes, i: nat, rest: bytes)
    requires LineState(p.state) && !p.pendingCr && Clean(rest) && At(input, i, rest + CRLF)
    requires LineFits(p, SectionOf(p.state), |p.line| + |rest|) && p.offset + |rest| + 2 < USIZE
    ensures Run(p, input, i) ==
            Resume(OnLine(AfterLine(p, rest), p.line + rest, p.lineStart), input, i + |rest| + 2)
    decreases |rest|
  {
    hide Run, OnLine;
    if rest == [] {
      assert rest + CRLF == CRLF && At(input, i, CRLF);
      assert input[i] == CRLF[0] && input[i + 1] == CRLF[1];
      LineEnd(p, input, i);
      assert p.line + rest == p.line;
    } else {
      var b, tail := rest[0], rest[1..];
      assert rest == [b] + tail;
      Associative([b], tail, CRLF);
      AtSplit(input, i, [b], tail + CRLF);
      PlainOctet(p, input, i, b);
      var q := p.(line := p.line + [b], offset := p.offset + 1);
      LineRun(q, input, i + 1, tail);
      Associative(p.line, [b], tail);
    }
  }

  /** Where a message ends later on, a line stands here. */
  lemma {:induction false} LineFound(p: Parser, input: bytes, i: nat) returns (rest: bytes)
    requires LineState(p.state) && !p.pendingCr && i <= |input| && Ends(Run(p, input, i))
    ensures Clean(rest) && At(input, i, rest + CRLF)
    ensures LineFits(p, SectionOf(p.state), |p.line| + |rest|) && p.offset + |rest| + 2 < USIZE
    decreases |input| - i
  {
    hide OnLine;
    assert i < |input|;
    if input[i] == CR {
      var q := Step(p, input[i]).parser;
      assert Run(p, input, i) == Run(q, input, i + 1);
      assert i + 1 < |input| && input[i + 1] == LF;
      rest := [];
      assert rest + CRLF == CRLF;
    } else {
      var q := Step(p, input[i]).parser;
      var tail := LineFound(q, input, i + 1);
      rest := [input[i]] + tail;
      assert rest + CRLF == [input[i]] + (tail + CRLF);
      AtSplit(input, i, [input[i]], tail + CRLF);
    }
  }

  /** Both directions of the above at a line's first octet. */
  lemma NextLine(p: Parser, input: bytes, i: nat) returns (line: bytes)
    requires AtLine(p) && i <= |input| && Ends(Run(p, input, i))
    ensures LineOk(line, p.limits) && At(input, i, LineWire(line))
    ensures LineFits(p, SectionOf(p.state), |line|) && p.offset + |line| + 2 < USIZE
    ensures Run(p, input, i) == Resume(OnLine(AfterLine(p, line), line, p.offset), input, i + |line| + 2)
  {
    hide OnLine;
    line := LineFound(p, input, i);
    LineRun(p, input, i, line);
    assert p.line + line == line;
  }

  lemma ReadsLine(p: Parser, input: bytes, i: nat, line: bytes)
    requires AtLine(p) && LineOk(line, p.limits) && At(input, i, LineWire(line))
    requires LineFits(p, SectionOf(p.state), |line|) && p.offset + |line| + 2 < USIZE
    ensures Run(p, input, i) == Resume(OnLine(AfterLine(p, line), line, p.offset), input, i + |line| + 2)
  {
    hide OnLine;
    LineRun(p, input, i, line);
    assert p.line + line == line;
  }

  // ----- lines and the empty one that ends them -----

  lemma NoLines()
    ensures LinesWire([]) + CRLF == LineWire([]) == CRLF && |LinesWire([])| == 0
  {}

  lemma SectionCons(input: bytes, i: nat, line: bytes, lines: seq<bytes>)
    ensures At(input, i, LinesWire([line] + lines) + CRLF) <==>
            At(input, i, LineWire(line)) && At(input, i + |line| + 2, LinesWire(lines) + CRLF)
    ensures |LinesWire([line] + lines)| == |line| + 2 + |LinesWire(lines)|
  {
    var all := [line] + lines;
    assert all[1..] == lines;
    assert LinesWire(all) == LineWire(line) + LinesWire(lines) && |LineWire(line)| == |line| + 2;
    hide LinesWire, LineWire;
    Associative(LineWire(line), LinesWire(lines), CRLF);
    AtSplit(input, i, LineWire(line), LinesWire(lines) + CRLF);
  }

  // ----- header fields -----

  /** Reading header lines, with `fields` read so far. */
  ghost predicate InHeaders(p: Parser) {
    && AtLine(p) && p.state.Headers?
    && Knows(p.current, p.current.headers) && FieldsAgree(p.current.headers)
    && |p.current.headers| <= p.limits.maxHeaders
  }

  /** The parser after one accepted header line. */
  function AfterField(p: Parser, line: bytes): Parser
    requires p.state.Headers? && ParseField(line).Success? && ApplyField(p.current, ParseField(line).value).Success?
  {
    var f := ParseField(line).value;
    AfterLine(p, line).(current := ApplyField(p.current, f).value.(headers := p.current.headers + [f]))
  }

  lemma FieldStep(p: Parser, line: bytes)
    requires InHeaders(p) && line != []
    ensures var o := OnLine(AfterLine(p, line), line, p.offset);
            && (o.More? <==>
                  && ParseField(line).Success? && |p.current.headers| < p.limits.maxHeaders
                  && FieldsAgree(p.current.headers + [ParseField(line).value]))
            && (o.More? ==>
                  && ApplyField(p.current, ParseField(line).value).Success?
                  && o.parser == AfterField(p, line) && InHeaders(o.parser))
            && !o.Complete?
  {
    hide ParseField, ApplyField, Knows, FieldsAgree;
    if ParseField(line).Success? {
      var f := ParseField(line).value;
      FieldMeaning(p.current, p.current.headers, f);
      FieldKeepsHead(p.current, f);
      if ApplyField(p.current, f).Success? {
        KnowsOnly(ApplyField(p.current, f).value, p.current.headers + [f]);
      }
    }
  }

  lemma KnowsOnly(c: CurrentHead, fields: seq<Field>)
    requires Knows(c, fields)
    ensures Knows(c.(headers := fields), fields)
  {}

  /** The part of the state that header lines do not touch. */
  predicate SameButHead(p: Parser, q: Parser) {
    && q == p.(offset := q.offset, lineStart := q.lineStart, headBytes := q.headBytes, current := q.current)
    && q.current.version == p.current.version && q.current.status == p.current.status
    && q.current.reason == p.current.reason
  }

  /** The parser `q` follows `p` once it has read header lines `lines` spelling `fields`. */
  predicate FollowsFields(p: Parser, q: Parser, lines: seq<bytes>, fields: seq<Field>) {
    && SameButHead(p, q) && FieldLines(lines, fields, p.limits)
    && q.current.headers == p.current.headers + fields
    && q.offset == p.offset + |LinesWire(lines)| && q.headBytes == p.headBytes + |LinesWire(lines)|
  }

  lemma FieldLinesCons(line: bytes, f: Field, lines: seq<bytes>, fields: seq<Field>, limits: Limits)
    requires line != [] && LineOk(line, limits) && ParseField(line) == Success(f) && FieldLines(lines, fields, limits)
    ensures FieldLines([line] + lines, [f] + fields, limits)
    ensures LinesWire([line] + lines) == LineWire(line) + LinesWire(lines)
  {
    hide ParseField, LineOk;
    assert ([line] + lines)[1..] == lines;
  }

  lemma FollowsCons(p: Parser, line: bytes, q: Parser, r: Parser, lines: seq<bytes>, fields: seq<Field>)
    requires InHeaders(p) && line != [] && LineOk(line, p.limits)
    requires ParseField(line).Success? && ApplyField(p.current, ParseField(line).value).Success?
    requires q == AfterField(p, line) && FollowsFields(q, r, lines, fields)
    ensures FollowsFields(p, r, [line] + lines, [ParseField(line).value] + fields)
  {
    hide ParseField, ApplyField, Knows, FieldsAgree, LineOk, FieldLines;
    var f := ParseField(line).value;
    FieldLinesCons(line, f, lines, fields, p.limits);
    FieldKeepsHead(p.current, f);
    assert p.current.headers + [f] + fields == p.current.headers + ([f] + fields);
  }

  /** Soundness for the header section: its lines, up to and including the empty one. */
  lemma {:induction false} HeaderLinesFound(p: Parser, input: bytes, i: nat)
    returns (lines: seq<bytes>, fields: seq<Field>, q: Parser)
    requires InHeaders(p) && i <= |input| && Ends(Run(p, input, i))
    ensures InHeaders(q) && FollowsFields(p, q, lines, fields)
    ensures At(input, i, LinesWire(lines) + CRLF)
    ensures q.headBytes + 2 <= q.limits.maxHead && q.offset + 2 < USIZE
    ensures Run(p, input, i) ==
            Resume(FinishHeaders(AfterLine(q, []), q.offset), input, i + |LinesWire(lines)| + 2)
    decreases |input| - i
  {
    hide OnHeaderLine, FinishHeaders, Run, Knows, FieldsAgree, ParseField, ApplyField, LinesWire, LineWire;
    var line := NextLine(p, input, i);
    if line == [] {
      lines, fields, q := [], [], p;
      assert p.current.headers + [] == p.current.headers;
      NoLines();
    } else {
      FieldStep(p, line);
      var n := AfterField(p, line);
      var f := ParseField(line).value;
      var tail, tailFields;
      tail, tailFields, q := HeaderLinesFound(n, input, i + |line| + 2);
      lines, fields := [line] + tail, [f] + tailFields;
      FollowsCons(p, line, n, q, tail, tailFields);
      SectionCons(input, i, line, tail);
    }
  }

  /** Completeness for the header section. */
  lemma {:induction false} HeaderLinesRead(p: Parser, input: bytes, i: nat, lines: seq<bytes>, fields: seq<Field>)
    returns (q: Parser)
    requires InHeaders(p) && FieldLines(lines, fields, p.limits) && At(input, i, LinesWire(lines) + CRLF)
    requires |p.current.headers + fields| <= p.limits.maxHeaders && FieldsAgree(p.current.headers + fields)
    requires p.headBytes + |LinesWire(lines)| + 2 <= p.limits.maxHead
    requires p.offset + |LinesWire(lines)| + 2 < USIZE
    ensures InHeaders(q) && FollowsFields(p, q, lines, fields)
    ensures Run(p, input, i) ==
            Resume(FinishHeaders(AfterLine(q, []), q.offset), input, i + |LinesWire(lines)| + 2)
    decreases |lines|
  {
    hide OnHeaderLine, FinishHeaders, Run, Knows, FieldsAgree, ParseField, ApplyField, LinesWire, LineWire;
    if lines == [] {
      q := p;
      assert p.current.headers + fields == p.current.headers;
      NoLines();
      ReadsLine(p, input, i, []);
    } else {
      var line, f := lines[0], fields[0];
      assert lines == [line] + lines[1..] && fields == [f] + fields[1..];
      SectionCons(input, i, line, lines[1..]);
      ReadsLine(p, input, i, line);
      assert p.current.headers + fields == (p.current.headers + [f]) + fields[1..];
      AgreePrefixes(p.current.headers + [f], fields[1..]);
      FieldStep(p, line);
      q := HeaderLinesRead(AfterField(p, line), input, i + |line| + 2, lines[1..], fields[1..]);
      FollowsCons(p, line, AfterField(p, line), q, lines[1..], fields[1..]);
    }
  }

  lemma {:induction false} AgreePrefixes(fields: seq<Field>, more: seq<Field>)
    requires FieldsAgree(fields + more)
    ensures FieldsAgree(fields)
    decreases |more|
  {
    hide FieldsAgree;
    if more == [] {
      assert fields + more == fields;
    } else {
      var n := |more| - 1;
      assert fields + more == (fields + more[..n]) + [more[n]];
      AgreePrefix(fields + more[..n], more[n]);
      AgreePrefixes(fields, more[..n]);
    }
  }

  // ----- one head -----

  /** Ready for a status line, nothing of the message body read yet. */
  predicate AtHead(p: Parser) {
    && AtLine(p) && p.state.StatusLine? && p.current == NO_HEAD && p.headBytes == 0
    && p.body == [] && p.trailers == [] && p.trailerBytes == 0
  }

  /** The parser that has read the whole head `h`, spelling `head`, including its empty line. */
  ghost predicate FollowsHead(p: Parser, q: Parser, h: HeadText, head: ResponseHead) {
    && q == p.(state := Headers, offset := p.offset + |HeadWire(h)|, lineStart := p.offset + |HeadWire(h)|,
               headBytes := |HeadWire(h)|, current := q.current)
    && q.current.version == Some(head.version) && q.current.status == head.status
    && q.current.reason == head.reason && q.current.headers == head.headers
    && Knows(q.current, head.headers)
  }

  function AfterStatus(p: Parser, line: bytes, s: StatusParts): Parser
    requires LineState(p.state)
  {
    AfterLine(p, line).(state := Headers, current := NO_HEAD.(version := Some(s.version), status := s.status, reason := s.reason))
  }

  lemma StatusStep(p: Parser, line: bytes)
    requires AtHead(p)
    ensures var o := OnLine(AfterLine(p, line), line, p.offset);
            && (o.More? <==> ParseStatusLine(line).Success?)
            && (o.More? ==> o.parser == AfterStatus(p, line, ParseStatusLine(line).value) && InHeaders(o.parser))
            && !o.Complete?
  {
    hide ParseStatusLine;
    assert Declares([], None);
  }

  lemma HeadAssembled(p: Parser, line: bytes, n: Parser, q: Parser, lines: seq<bytes>, fields: seq<Field>)
    returns (h: HeadText, head: ResponseHead)
    requires AtHead(p) && LineOk(line, p.limits) && ParseStatusLine(line).Success?
    requires n == AfterStatus(p, line, ParseStatusLine(line).value)
    requires InHeaders(q) && FollowsFields(n, q, lines, fields) && q.headBytes + 2 <= q.limits.maxHead
    ensures h == HeadText(line, lines)
    ensures HeadMeans(h, p.limits, head) && FollowsHead(p, AfterLine(q, []), h, head)
    ensures |HeadWire(h)| == |line| + 2 + |LinesWire(lines)| + 2
  {
    hide ParseStatusLine, ParseField, FieldsAgree, Knows, LinesWire, LineWire, FieldLines, LineOk;
    HeadLength(HeadText(line, lines));
    hide HeadWire;
    var s := ParseStatusLine(line).value;
    h, head := HeadText(line, lines), ResponseHead(s.version, s.status, s.reason, fields);
    assert [] + fields == fields;
  }

  lemma HeadLength(h: HeadText)
    ensures |HeadWire(h)| == |h.status| + 2 + |LinesWire(h.fields)| + 2
  {}

  lemma HeadSplit(input: bytes, i: nat, h: HeadText)
    ensures At(input, i, HeadWire(h)) <==>
            At(input, i, LineWire(h.status)) && At(input, i + |h.status| + 2, LinesWire(h.fields) + CRLF)
    ensures |HeadWire(h)| == |h.status| + 2 + |LinesWire(h.fields)| + 2
  {
    hide LinesWire;
    AtSplit(input, i, LineWire(h.status), LinesWire(h.fields) + CRLF);
  }

  lemma HeadFound(p: Parser, input: bytes, i: nat) returns (h: HeadText, head: ResponseHead, q: Parser)
    requires AtHead(p) && i <= |input| && Ends(Run(p, input, i))
    ensures HeadMeans(h, p.limits, head) && FollowsHead(p, q, h, head) && At(input, i, HeadWire(h))
    ensures q.offset < USIZE
    ensures Run(p, input, i) == Resume(FinishHeaders(q, q.offset - 2), input, i + |HeadWire(h)|)
  {
    hide OnLine, FinishHeaders, Run, FieldsAgree, Knows, ParseStatusLine, ParseField;
    var line := NextLine(p, input, i);
    StatusStep(p, line);
    var n := AfterStatus(p, line, ParseStatusLine(line).value);
    var j := i + |line| + 2;
    var lines, fields, last := HeaderLinesFound(n, input, j);
    h, head := HeadAssembled(p, line, n, last, lines, fields);
    q := AfterLine(last, []);
    AtSplit(input, i, LineWire(line), LinesWire(lines) + CRLF);
  }

  lemma HeadRead(p: Parser, input: bytes, i: nat, h: HeadText, head: ResponseHead) returns (q: Parser)
    requires AtHead(p) && HeadMeans(h, p.limits, head) && At(input, i, HeadWire(h))
    requires p.offset + |HeadWire(h)| < USIZE
    ensures FollowsHead(p, q, h, head)
    ensures Run(p, input, i) == Resume(FinishHeaders(q, q.offset - 2), input, i + |HeadWire(h)|)
  {
    hide OnLine, FinishHeaders, Run, FieldsAgree, Knows, ParseStatusLine, ParseField, LineWire, LinesWire, FieldLines;
    HeadSplit(input, i, h);
    hide HeadWire;
    ReadsLine(p, input, i, h.status);
    StatusStep(p, h.status);
    var n := AfterStatus(p, h.status, ParseStatusLine(h.status).value);
    assert n.current.headers == [] && [] + head.headers == head.headers;
    var last := HeaderLinesRead(n, input, i + |h.status| + 2, h.fields, head.headers);
    var h1, head1 := HeadAssembled(p, h.status, n, last, h.fields, head.headers);
    q := AfterLine(last, []);
  }

  // ----- bodies -----

  /** Where a message ends later on, all octets of the declared body stand here. */
  lemma {:induction false} BodyOctetsFound(p: Parser, input: bytes, i: nat)
    requires (p.state.FixedBody? || p.state.ChunkData?) && p.state.remaining > 0
    requires i <= |input| && Ends(Run(p, input, i))
    ensures i + p.state.remaining <= |input| && p.offset + p.state.remaining < USIZE
    decreases p.state.remaining
  {
    hide LineStep, OnLine, Finished;
    assert i < |input|;
    if p.state.remaining > 1 {
      BodyOctetsFound(Step(p, input[i]).parser, input, i + 1);
    }
  }

  lemma {:induction false} CloseFound(p: Parser, input: bytes, i: nat)
    requires p.state.CloseBody? && i <= |input| && Ends(Run(p, input, i)) && |p.body| <= p.limits.maxBody && p.offset < USIZE
    ensures p.offset + (|input| - i) < USIZE && |p.body| + (|input| - i) <= p.limits.maxBody
    decreases |input| - i
  {
    hide LineStep, OnLine, Finished;
    if i < |input| {
      CloseFound(Step(p, input[i]).parser, input, i + 1);
    }
  }

  /** The parser after a chunk's data and its CRLF. */
  function AfterData(p: Parser, data: bytes): Parser {
    p.(state := ChunkSize, body := p.body + data, offset := p.offset + |data| + 2, lineStart := p.offset + |data| + 2)
  }

  lemma TerminatorRun(p: Parser, input: bytes, i: nat)
    requires p.state == ChunkTerminator(0) && i <= |input|
    ensures i + 2 <= |input| && At(input, i, CRLF) && p.offset + 2 < USIZE ==>
              Run(p, input, i) == Run(p.(state := ChunkSize, offset := p.offset + 2, lineStart := p.offset + 2), input, i + 2)
    ensures Ends(Run(p, input, i)) ==> i + 2 <= |input| && At(input, i, CRLF) && p.offset + 2 < USIZE
  {
    hide LineStep, OnLine, Finished;
    if i + 2 <= |input| && At(input, i, CRLF) && p.offset + 2 < USIZE {
      assert input[i] == CRLF[0] && input[i + 1] == CRLF[1];
      var q := p.(state := ChunkTerminator(1), offset := p.offset + 1);
      assert Step(p, input[i]) == More(q);
      assert Run(p, input, i) == Run(q, input, i + 1);
    }
    if Ends(Run(p, input, i)) {
      var q := Step(p, input[i]).parser;
      assert Run(p, input, i) == Run(q, input, i + 1);
      assert Step(q, input[i + 1]).More?;
    }
  }

  lemma DataFound(p: Parser, input: bytes, i: nat) returns (data: bytes)
    requires p.state.ChunkData? && p.state.remaining > 0 && i <= |input| && Ends(Run(p, input, i))
    ensures |data| == p.state.remaining && At(input, i, data + CRLF) && p.offset + |data| + 2 < USIZE
    ensures Run(p, input, i) == Run(AfterData(p, data), input, i + |data| + 2)
  {
    hide Run;
    BodyOctetsFound(p, input, i);
    var k := p.state.remaining;
    data := input[i..i + k];
    BulkBodyLast(p, input, i);
    TerminatorRun(p.(state := ChunkTerminator(0), body := p.body + data, offset := p.offset + k), input, i + k);
    AtSplit(input, i, data, CRLF);
  }

  lemma DataRead(p: Parser, input: bytes, i: nat, data: bytes)
    requires p.state.ChunkData? && p.state.remaining == |data| > 0
    requires At(input, i, data + CRLF) && p.offset + |data| + 2 < USIZE
    ensures Run(p, input, i) == Run(AfterData(p, data), input, i + |data| + 2)
  {
    hide Run;
    AtSplit(input, i, data, CRLF);
    AtSlice(input, i, data);
    BulkBodyLast(p, input, i);
    TerminatorRun(p.(state := ChunkTerminator(0), body := p.body + data, offset := p.offset + |data|), input, i + |data|);
  }

  // ----- trailers -----

  predicate InTrailers(p: Parser) {
    && AtLine(p) && p.state.Trailers? && p.current.version.Some?
    && (forall f <- p.trailers :: !IsForbiddenTrailer(f)) && |p.trailers| <= p.limits.maxTrailers
  }

  function AfterTrailer(p: Parser, line: bytes): Parser
    requires p.state.Trailers? && ParseField(line).Success?
  {
    AfterLine(p, line).(trailers := p.trailers + [ParseField(line).value])
  }

  lemma TrailerStep(p: Parser, line: bytes)
    requires InTrailers(p) && line != []
    ensures var o := OnLine(AfterLine(p, line), line, p.offset);
            && (o.More? <==>
                  ParseField(line).Success? && !IsForbiddenTrailer(ParseField(line).value) && |p.trailers| < p.limits.maxTrailers)
            && (o.More? ==> o.parser == AfterTrailer(p, line) && InTrailers(o.parser))
            && !o.Complete?
  {
    hide ParseField, IsForbiddenTrailer;
  }

  /** The response a parser completes with these trailers added. */
  function Completed(p: Parser, trailers: seq<Field>): Response
    requires p.current.version.Some?
  {
    Response(HeadOf(p.current), p.body, p.trailers + trailers, p.informational, p.finalClose)
  }

  predicate CompletesWith(r: (Outcome, nat), response: Response, end: nat) {
    r.0.Complete? && r.0.response == response && r.1 == end
  }

  lemma TrailersEnd(p: Parser, input: bytes, i: nat)
    requires InTrailers(p) && At(input, i, CRLF)
    requires p.trailerBytes + 2 <= p.limits.maxTrailer && p.offset + 2 < USIZE
    ensures CompletesWith(Run(p, input, i), Completed(p, []), i + 2)
  {
    hide Run;
    assert LineWire([]) == CRLF;
    ReadsLine(p, input, i, []);
    assert p.trailers + [] == p.trailers;
  }

  lemma {:induction false} TrailersFound(p: Parser, input: bytes, i: nat) returns (lines: seq<bytes>, trailers: seq<Field>)
    requires InTrailers(p) && i <= |input| && Ends(Run(p, input, i))
    ensures FieldLines(lines, trailers, p.limits) && (forall f <- trailers :: !IsForbiddenTrailer(f))
    ensures |p.trailers + trailers| <= p.limits.maxTrailers
    ensures p.trailerBytes + |LinesWire(lines)| + 2 <= p.limits.maxTrailer
    ensures At(input, i, LinesWire(lines) + CRLF)
    ensures CompletesWith(Run(p, input, i), Completed(p, trailers), i + |LinesWire(lines)| + 2)
    decreases |input| - i
  {
    hide OnTrailerLine, Run, ParseField, IsForbiddenTrailer, LinesWire, LineWire;
    var line := NextLine(p, input, i);
    if line == [] {
      lines, trailers := [], [];
      NoLines();
      TrailersEnd(p, input, i);
    } else {
      TrailerStep(p, line);
      var f := ParseField(line).value;
      var tail, rest := TrailersFound(AfterTrailer(p, line), input, i + |line| + 2);
      lines, trailers := [line] + tail, [f] + rest;
      FieldLinesCons(line, f, tail, rest, p.limits);
      SectionCons(input, i, line, tail);
      assert p.trailers + [f] + rest == p.trailers + trailers;
    }
  }

  lemma FieldLinesTail(lines: seq<bytes>, fields: seq<Field>, limits: Limits)
    requires FieldLines(lines, fields, limits) && lines != [] && fields != []
    ensures lines[0] != [] && LineOk(lines[0], limits) && ParseField(lines[0]) == Success(fields[0])
    ensures FieldLines(lines[1..], fields[1..], limits)
  {
    hide ParseField, LineOk;
  }

  lemma {:induction false} TrailersRead(p: Parser, input: bytes, i: nat, lines: seq<bytes>, trailers: seq<Field>)
    requires InTrailers(p) && At(input, i, LinesWire(lines) + CRLF) && p.offset + |LinesWire(lines)| + 2 < USIZE
    requires FieldLines(lines, trailers, p.limits) && (forall f <- trailers :: !IsForbiddenTrailer(f))
    requires |p.trailers + trailers| <= p.limits.maxTrailers
    requires p.trailerBytes + |LinesWire(lines)| + 2 <= p.limits.maxTrailer
    ensures CompletesWith(Run(p, input, i), Completed(p, trailers), i + |LinesWire(lines)| + 2)
    decreases |lines|
  {
    hide OnTrailerLine, Run, ParseField, IsForbiddenTrailer, LinesWire, LineWire;
    if lines == [] {
      NoLines();
      TrailersEnd(p, input, i);
    } else {
      var line, f := lines[0], trailers[0];
      assert lines == [line] + lines[1..] && trailers == [f] + trailers[1..];
      FieldLinesTail(lines, trailers, p.limits);
      hide FieldLines;
      SectionCons(input, i, line, lines[1..]);
      ReadsLine(p, input, i, line);
      TrailerStep(p, line);
      assert p.trailers + [f] + trailers[1..] == p.trailers + trailers;
      TrailersRead(AfterTrailer(p, line), input, i + |line| + 2, lines[1..], trailers[1..]);
    }
  }
}
