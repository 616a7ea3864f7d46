/** Whole messages: the parser completes on exactly the octets of a message of the grammar,
    with exactly the response that message spells. */
module ResponseMessages {
  import opened Wrappers
  import opened Bytes
  import Chunked
  import opened ResponseModel
  import opened ResponseGrammar
  import opened ResponseMeaning

  // ----- chunked bodies -----

  predicate InChunks(p: Parser) {
    && AtLine(p) && p.state.ChunkSize? && p.current.version.Some?
    && p.trailers == [] && p.trailerBytes == 0 && |p.body| <= p.limits.maxBody
  }

  function AfterChunk(p: Parser, c: ChunkText): Parser
    requires p.state.ChunkSize?
  {
    AfterData(AfterLine(p, c.size).(state := ChunkData(|c.data|)), c.data)
  }

  lemma ChunkStep(p: Parser, line: bytes)
    requires InChunks(p)
    ensures var o := OnLine(AfterLine(p, line), line, p.offset);
            var size := Chunked.ParseChunkSize(line);
            && (o.More? <==> size.Success? && |p.body| + size.value <= p.limits.maxBody)
            && (o.More? ==> o.parser == AfterLine(p, line).(state := if size.value == 0 then Trailers else ChunkData(size.value)))
            && !o.Complete?
  {
    hide Chunked.ParseChunkSize;
  }

  function ChunkedWire(chunks: seq<ChunkText>, last: bytes, lines: seq<bytes>): bytes {
    ChunksWire(chunks) + (LineWire(last) + (LinesWire(lines) + CRLF))
  }

  lemma DataOfNone()
    ensures DataOf([]) == []
  {}

  lemma ChunkedWireCons(c: ChunkText, chunks: seq<ChunkText>, last: bytes, lines: seq<bytes>)
    ensures ChunkedWire([c] + chunks, last, lines) == ChunkWire(c) + ChunkedWire(chunks, last, lines)
    ensures DataOf([c] + chunks) == c.data + DataOf(chunks)
  {
    assert ([c] + chunks)[1..] == chunks;
  }

  /** The response a chunked message completes with. */
  function CompletedChunks(p: Parser, data: bytes, trailers: seq<Field>): Response
    requires p.current.version.Some?
  {
    Response(HeadOf(p.current), p.body + data, trailers, p.informational, p.finalClose)
  }

  lemma AtEmpty(input: bytes, i: nat, w: bytes)
    requires At(input, i, w)
    ensures At(input, i, [] + w)
  {}

  lemma LastChunkFound(p: Parser, line: bytes, input: bytes, i: nat) returns (lines: seq<bytes>, trailers: seq<Field>)
    requires InChunks(p) && LineOk(line, p.limits) && At(input, i, LineWire(line)) && p.offset + |line| + 2 < USIZE
    requires Chunked.ParseChunkSize(line) == Success(0)
    requires Ends(Run(AfterLine(p, line).(state := Trailers), input, i + |line| + 2))
    ensures ChunksMean(Chunks([], line, lines), p.limits, [], trailers)
    ensures At(input, i, ChunkedWire([], line, lines))
    ensures CompletesWith(Run(AfterLine(p, line).(state := Trailers), input, i + |line| + 2),
                          CompletedChunks(p, [], trailers), i + |ChunkedWire([], line, lines)|)
  {
    hide Run, Chunked.ParseChunkSize, LineOk, FieldLines, IsForbiddenTrailer;
    lines, trailers := TrailersFound(AfterLine(p, line).(state := Trailers), input, i + |line| + 2);
    TrailersWithin(lines, p.limits, trailers);
    AtSplit(input, i, LineWire(line), LinesWire(lines) + CRLF);
    AtEmpty(input, i, LineWire(line) + (LinesWire(lines) + CRLF));
    assert p.body + [] == p.body && [] + trailers == trailers;
  }

  lemma {:induction false} ChunksFound(p: Parser, input: bytes, i: nat)
    returns (chunks: seq<ChunkText>, last: bytes, lines: seq<bytes>, trailers: seq<Field>)
    requires InChunks(p) && i <= |input| && Ends(Run(p, input, i))
    ensures ChunksMean(Chunks(chunks, last, lines), p.limits, DataOf(chunks), trailers)
    ensures |p.body| + |DataOf(chunks)| <= p.limits.maxBody
    ensures At(input, i, ChunkedWire(chunks, last, lines))
    ensures CompletesWith(Run(p, input, i), CompletedChunks(p, DataOf(chunks), trailers), i + |ChunkedWire(chunks, last, lines)|)
    decreases |input| - i
  {
    hide OnChunkSize, Run, Chunked.ParseChunkSize, LineOk, TrailersMean, FieldLines, IsForbiddenTrailer, Step;
    hide ChunkWire, ChunkedWire, LineWire, DataOf, CompletedChunks;
    DataOfNone();
    var line := NextLine(p, input, i);
    ChunkStep(p, line);
    var size := Chunked.ParseChunkSize(line).value;
    var j := i + |line| + 2;
    if size == 0 {
      chunks, last := [], line;
      lines, trailers := LastChunkFound(p, line, input, i);
    } else {
      var q := AfterLine(p, line).(state := ChunkData(size));
      var data := DataFound(q, input, j);
      var c := ChunkText(line, data);
      var n := AfterChunk(p, c);
      ChunkLength(c);
      var rest;
      rest, last, lines, trailers := ChunksFound(n, input, i + |ChunkWire(c)|);
      chunks := [c] + rest;
      ChunkedWireCons(c, rest, last, lines);
      ChunkAt(input, i, c, ChunkedWire(rest, last, lines));
      SameCompletion(p, n, data, DataOf(rest), trailers);
    }
  }

  lemma ChunkLength(c: ChunkText)
    ensures |ChunkWire(c)| == |c.size| + 2 + |c.data| + 2
  {}

  lemma ChunkAt(input: bytes, i: nat, c: ChunkText, tail: bytes)
    ensures At(input, i, ChunkWire(c) + tail) <==>
            At(input, i, LineWire(c.size)) && At(input, i + |c.size| + 2, c.data + CRLF) && At(input, i + |ChunkWire(c)|, tail)
  {
    AtSplit(input, i, LineWire(c.size), c.data + CRLF);
    AtSplit(input, i, ChunkWire(c), tail);
  }

  lemma TrailersWithin(lines: seq<bytes>, limits: Limits, trailers: seq<Field>)
    requires FieldLines(lines, trailers, limits) && (forall f <- trailers :: !IsForbiddenTrailer(f))
    requires |trailers| <= limits.maxTrailers && |LinesWire(lines)| + 2 <= limits.maxTrailer
    ensures TrailersMean(lines, limits, trailers)
  {}

  lemma {:induction false} ChunksRead(p: Parser, input: bytes, i: nat, chunks: seq<ChunkText>, last: bytes,
                                      lines: seq<bytes>, trailers: seq<Field>)
    requires InChunks(p)
    requires ChunksMean(Chunks(chunks, last, lines), p.limits, DataOf(chunks), trailers)
    requires |p.body| + |DataOf(chunks)| <= p.limits.maxBody
    requires At(input, i, ChunkedWire(chunks, last, lines)) && p.offset + |ChunkedWire(chunks, last, lines)| < USIZE
    ensures CompletesWith(Run(p, input, i), CompletedChunks(p, DataOf(chunks), trailers), i + |ChunkedWire(chunks, last, lines)|)
    decreases |chunks|, 0
  {
    hide Run, LineOk, TrailersMean, Chunked.ParseChunkSize;
    if chunks == [] {
      LastChunkRead(p, input, i, last, lines, trailers);
    } else {
      assert chunks == [chunks[0]] + chunks[1..];
      hide ChunksMean, At, DataOf, ChunkedWire, CompletesWith, CompletedChunks;
      ConsChunksRead(p, input, i, chunks[0], chunks[1..], last, lines, trailers);
    }
  }

  lemma {:induction false} ConsChunksRead(p: Parser, input: bytes, i: nat, c: ChunkText, rest: seq<ChunkText>, last: bytes,
                                          lines: seq<bytes>, trailers: seq<Field>)
    requires InChunks(p)
    requires ChunksMean(Chunks([c] + rest, last, lines), p.limits, DataOf([c] + rest), trailers)
    requires |p.body| + |DataOf([c] + rest)| <= p.limits.maxBody
    requires At(input, i, ChunkedWire([c] + rest, last, lines)) && p.offset + |ChunkedWire([c] + rest, last, lines)| < USIZE
    ensures CompletesWith(Run(p, input, i), CompletedChunks(p, DataOf([c] + rest), trailers),
                          i + |ChunkedWire([c] + rest, last, lines)|)
    decreases |rest|, 1
  {
    hide Run, LineOk, TrailersMean, Chunked.ParseChunkSize;
    var q := AfterChunk(p, c);
    assert c in [c] + rest && forall x <- rest :: x in [c] + rest;
    ChunkedWireCons(c, rest, last, lines);
    AtSplit(input, i, ChunkWire(c), ChunkedWire(rest, last, lines));
    assert ChunkOk(c, p.limits) && ChunksMean(Chunks(rest, last, lines), p.limits, DataOf(rest), trailers);
    hide ChunksMean, ChunkOk, At, ChunkedWire, ChunkWire, DataOf, AfterChunk, CompletesWith, CompletedChunks;
    FirstChunkRead(p, input, i, c);
    ChunksRead(q, input, i + |ChunkWire(c)|, rest, last, lines, trailers);
    SameCompletion(p, q, c.data, DataOf(rest), trailers);
  }

  lemma SameCompletion(p: Parser, q: Parser, data: bytes, more: bytes, trailers: seq<Field>)
    requires p.current.version.Some? && q.current == p.current && q.body == p.body + data
    requires q.informational == p.informational && q.finalClose == p.finalClose
    ensures CompletedChunks(q, more, trailers) == CompletedChunks(p, data + more, trailers)
  {
    assert p.body + data + more == p.body + (data + more);
  }

  lemma FirstChunkRead(p: Parser, input: bytes, i: nat, c: ChunkText)
    requires InChunks(p) && ChunkOk(c, p.limits) && |p.body| + |c.data| <= p.limits.maxBody
    requires At(input, i, ChunkWire(c)) && p.offset + |ChunkWire(c)| < USIZE
    ensures var q := AfterChunk(p, c);
            && InChunks(q) && q.limits == p.limits && q.body == p.body + c.data
            && q.offset == p.offset + |ChunkWire(c)| && q.current == p.current
            && q.informational == p.informational && q.finalClose == p.finalClose
            && Run(p, input, i) == Run(q, input, i + |ChunkWire(c)|)
  {
    hide OnChunkSize, Run, Chunked.ParseChunkSize, LineOk, Step;
    AtSplit(input, i, LineWire(c.size), c.data + CRLF);
    LineFitsChunk(p, c.size);
    ReadsLine(p, input, i, c.size);
    ChunkStep(p, c.size);
    DataRead(AfterLine(p, c.size).(state := ChunkData(|c.data|)), input, i + |c.size| + 2, c.data);
  }

  lemma LastChunkRead(p: Parser, input: bytes, i: nat, last: bytes, lines: seq<bytes>, trailers: seq<Field>)
    requires InChunks(p) && ChunksMean(Chunks([], last, lines), p.limits, [], trailers)
    requires At(input, i, ChunkedWire([], last, lines)) && p.offset + |ChunkedWire([], last, lines)| < USIZE
    ensures CompletesWith(Run(p, input, i), CompletedChunks(p, [], trailers), i + |ChunkedWire([], last, lines)|)
  {
    hide OnChunkSize, Run, Chunked.ParseChunkSize, LineOk, FieldLines, IsForbiddenTrailer, Step;
    var w := LineWire(last) + (LinesWire(lines) + CRLF);
    assert ChunkedWire([], last, lines) == w;
    AtSplit(input, i, LineWire(last), LinesWire(lines) + CRLF);
    LineFitsChunk(p, last);
    ReadsLine(p, input, i, last);
    ChunkStep(p, last);
    var q := AfterLine(p, last).(state := Trailers);
    assert [] + trailers == trailers && p.body + [] == p.body;
    TrailersRead(q, input, i + |last| + 2, lines, trailers);
  }

  lemma LineFitsChunk(p: Parser, line: bytes)
    requires p.state.ChunkSize? && LineOk(line, p.limits)
    ensures LineFits(p, SectionOf(p.state), |line|)
  {}

  // ----- the body of a final head -----

  /** The response an outcome stands for; an open close-delimited body ends at end of input. */
  function ResponseOf(o: Outcome): Option<Response> {
    match o
    case Complete(r, _) => Some(r)
    case More(p) => (match FinishEof(p) case Complete(r, _) => Some(r) case _ => None)
    case Fail(_) => None
  }

  /** After a final head: the facts `FinishHeaders` decides on. */
  ghost predicate AtBody(p: Parser, head: ResponseHead) {
    && p.current.version == Some(head.version) && p.current.status == head.status
    && p.current.reason == head.reason && p.current.headers == head.headers
    && Knows(p.current, head.headers) && FieldsAgree(head.headers)
    && p.state.Headers? && p.line == [] && !p.pendingCr && p.lineStart == p.offset
    && p.body == [] && p.trailers == [] && p.trailerBytes == 0 && p.offset < USIZE
    && !(100 <= head.status <= 199)
  }

  ghost predicate BodyResult(p: Parser, head: ResponseHead, r: (Outcome, nat), b: BodyText, response: Response, end: nat) {
    && Ends(r) && ResponseOf(r.0) == Some(response) && r.1 == end
    && (r.0.More? <==> b.ToEnd?)
    && response.head == head && response.informational == p.informational
    && BodyMeans(head, p.semantics, p.limits, b, response.body, response.trailers)
    && (response.connectionClose <==> ClosesConnection(head, b))
  }

  lemma HeadIs(p: Parser, head: ResponseHead)
    requires AtBody(p, head)
    ensures HeadOf(p.current) == head
    ensures FinalClose(p.current) <==> HasOption(head.headers, CLOSE) || (head.version.Http10? && !HasOption(head.headers, KEEP_ALIVE))
    ensures p.current.chunked <==> HasField(head.headers, TRANSFER_ENCODING)
    ensures forall length :: Declares(head.headers, length) <==> length == p.current.contentLength
    ensures !(p.current.chunked && p.current.contentLength.Some?)
  {
    hide HasOption, HasField, LengthsAre, CodingOk, OptionsOk;
    DeclaredOnce(head.headers);
  }

  /** The framing rules every body obeys, before its kind is chosen. */
  ghost predicate Admissible(head: ResponseHead) {
    var coded := HasField(head.headers, TRANSFER_ENCODING);
    && !(head.version.Http10? && coded)
    && (head.status == 204 ==> !coded && Declares(head.headers, None))
    && (head.status == 205 ==> !coded && (Declares(head.headers, None) || Declares(head.headers, Some(0))))
  }

  /** What the parser decides at the end of a final head. */
  lemma FinishMeaning(p: Parser, head: ResponseHead, start: nat)
    requires AtBody(p, head)
    ensures var o := FinishHeaders(p, start);
            var q := p.(finalClose := ClosesConnection(head, NoBody));
            var n := p.current.contentLength;
            if !Admissible(head) then o.Fail?
            else if Bodiless(head, p.semantics) then o == Finished(q)
            else if HasField(head.headers, TRANSFER_ENCODING) then o == More(q.(state := ChunkSize))
            else if n.None? then o == More(p.(finalClose := true, state := CloseBody))
            else if n.value > p.limits.maxBody then o.Fail?
            else if n.value == 0 then o == Finished(q)
            else o == More(q.(state := FixedBody(n.value)))
  {
    hide Knows, FieldsAgree, Declares, HasField, HasOption;
    HeadIs(p, head);
  }

  lemma BodyFound(p: Parser, head: ResponseHead, start: nat, input: bytes, i: nat)
    returns (b: BodyText, response: Response)
    requires AtBody(p, head) && i <= |input|
    requires Ends(Resume(FinishHeaders(p, start), input, i))
    ensures At(input, i, BodyWire(b))
    ensures BodyResult(p, head, Resume(FinishHeaders(p, start), input, i), b, response, i + |BodyWire(b)|)
  {
    hide Run, Knows, FieldsAgree, Declares, HasField, HasOption, FinishHeaders, ChunksMean;
    HeadIs(p, head);
    FinishMeaning(p, head, start);
    var o := FinishHeaders(p, start);
    if o.Complete? {
      b, response := NoBody, o.response;
    } else if o.parser.state.ChunkSize? {
      var chunks, last, lines, trailers := ChunksFound(o.parser, input, i);
      b := Chunks(chunks, last, lines);
      response := CompletedChunks(o.parser, DataOf(chunks), trailers);
      assert [] + DataOf(chunks) == DataOf(chunks);
    } else if o.parser.state.FixedBody? {
      b, response := FixedFound(p, head, start, input, i);
    } else {
      CloseFound(o.parser, input, i);
      BulkClose(o.parser, input, i);
      var data := input[i..];
      assert [] + data == data;
      b := ToEnd(data);
      response := Response(head, data, [], p.informational, true);
    }
  }

  lemma FixedFound(p: Parser, head: ResponseHead, start: nat, input: bytes, i: nat)
    returns (b: BodyText, response: Response)
    requires AtBody(p, head) && i <= |input|
    requires var o := FinishHeaders(p, start); o.More? && o.parser.state.FixedBody? && Ends(Run(o.parser, input, i))
    ensures At(input, i, BodyWire(b))
    ensures BodyResult(p, head, Run(FinishHeaders(p, start).parser, input, i), b, response, i + |BodyWire(b)|)
  {
    hide Run, Knows, FieldsAgree, Declares, HasField, HasOption, FinishHeaders;
    HeadIs(p, head);
    FinishMeaning(p, head, start);
    var q := FinishHeaders(p, start).parser;
    BodyOctetsFound(q, input, i);
    BulkBodyLast(q, input, i);
    var data := input[i..i + q.state.remaining];
    assert [] + data == data;
    b := Fixed(data);
    response := Response(head, data, [], p.informational, FinalClose(p.current));
  }

  lemma BodyRead(p: Parser, head: ResponseHead, start: nat, input: bytes, i: nat,
                 b: BodyText, body: bytes, trailers: seq<Field>)
    requires AtBody(p, head) && At(input, i, BodyWire(b)) && p.offset + |BodyWire(b)| < USIZE
    requires BodyMeans(head, p.semantics, p.limits, b, body, trailers)
    requires b.ToEnd? ==> i + |BodyWire(b)| == |input|
    ensures BodyResult(p, head, Resume(FinishHeaders(p, start), input, i), b,
                       Response(head, body, trailers, p.informational, ClosesConnection(head, b)), i + |BodyWire(b)|)
  {
    hide Run, Knows, FieldsAgree, Declares, HasField, HasOption, FinishHeaders, ChunksMean;
    HeadIs(p, head);
    FinishMeaning(p, head, start);
    AtSlice(input, i, BodyWire(b));
    var o := FinishHeaders(p, start);
    match b {
      case NoBody =>
      case Fixed(data) =>
        BulkBodyLast(o.parser, input, i);
        assert [] + body == body;
      case Chunks(chunks, last, lines) =>
        assert body == DataOf(chunks) && |body| <= p.limits.maxBody by {
          assert ChunksMean(b, p.limits, body, trailers);
        }
        assert [] + body == body;
        ChunksRead(o.parser, input, i, chunks, last, lines, trailers);
      case ToEnd(data) =>
        BulkClose(o.parser, input, i);
        assert [] + body == body && input[i..] == data;
    }
  }

  // ----- whole messages -----

  lemma InformationalMeaning(p: Parser, q: Parser, h: HeadText, head: ResponseHead, start: nat)
    requires AtHead(p) && FollowsHead(p, q, h, head) && FieldsAgree(head.headers)
    requires 100 <= head.status <= 199
    ensures var o := FinishHeaders(q, start);
            && (o.More? <==> IsInformational(head) && |q.informational| < q.limits.maxInformational)
            && !o.Complete?
            && (o.More? ==> AtHead(o.parser) && o.parser == p.(offset := q.offset, lineStart := q.offset,
                                                                  informational := p.informational + [head]))
  {
    hide HasOption, LengthsAre, CodingOk, OptionsOk, HasField;
  }

  lemma FollowsToBody(p: Parser, q: Parser, h: HeadText, head: ResponseHead)
    requires AtHead(p) && FollowsHead(p, q, h, head) && HeadMeans(h, p.limits, head)
    requires !(100 <= head.status <= 199) && q.offset < USIZE
    ensures AtBody(q, head)
  {
    hide Knows, FieldsAgree, FieldLines, ParseStatusLine;
  }

  /** `hs` and `heads` are the informational part, `m` and `r` the whole, of a message read from `p` on. */
  ghost predicate Spells(p: Parser, m: MessageText, heads: seq<ResponseHead>, r: Response) {
    && HeadsMean(m.informational, p.limits, heads)
    && r.informational == p.informational + heads && |r.informational| <= p.limits.maxInformational
    && HeadMeans(m.final, p.limits, r.head) && !(100 <= r.head.status <= 199)
    && BodyMeans(r.head, p.semantics, p.limits, m.body, r.body, r.trailers)
    && (r.connectionClose <==> ClosesConnection(r.head, m.body))
  }

  predicate Reads(result: (Outcome, nat), m: MessageText, r: Response, end: nat) {
    && Ends(result) && ResponseOf(result.0) == Some(r) && result.1 == end
    && (result.0.More? <==> m.body.ToEnd?)
  }

  lemma MessageWireCons(h: HeadText, m: MessageText)
    ensures MessageWire(m.(informational := [h] + m.informational)) == HeadWire(h) + MessageWire(m)
  {
    assert ([h] + m.informational)[1..] == m.informational;
  }

  lemma FinalFound(p: Parser, q: Parser, h: HeadText, head: ResponseHead, input: bytes, i: nat) returns (m: MessageText, r: Response)
    requires AtHead(p) && |p.informational| <= p.limits.maxInformational && i <= |input|
    requires HeadMeans(h, p.limits, head) && FollowsHead(p, q, h, head)
    requires At(input, i, HeadWire(h)) && q.offset >= 2
    requires !(100 <= head.status <= 199) && q.offset < USIZE
    requires Ends(Resume(FinishHeaders(q, q.offset - 2), input, i + |HeadWire(h)|))
    ensures Spells(p, m, [], r) && At(input, i, MessageWire(m))
    ensures Reads(Resume(FinishHeaders(q, q.offset - 2), input, i + |HeadWire(h)|), m, r, i + |MessageWire(m)|)
  {
    hide Run, FinishHeaders, HeadMeans, BodyMeans, Knows, HeadWire, BodyWire, FieldsAgree;
    var b;
    FollowsToBody(p, q, h, head);
    b, r := BodyFound(q, head, q.offset - 2, input, i + |HeadWire(h)|);
    m := MessageText([], h, b);
    AtSplit(input, i, HeadWire(h), BodyWire(b));
    assert MessageWire(m) == HeadWire(h) + BodyWire(b);
    assert p.informational + [] == p.informational;
  }

  lemma MessageWireLast(m: MessageText)
    requires m.informational == []
    ensures MessageWire(m) == HeadWire(m.final) + BodyWire(m.body)
  {}

  lemma HeadFacts(p: Parser, q: Parser, h: HeadText, head: ResponseHead)
    requires HeadMeans(h, p.limits, head) && FollowsHead(p, q, h, head)
    ensures FieldsAgree(head.headers) && |HeadWire(h)| >= 2
    ensures q.limits == p.limits && q.semantics == p.semantics && q.informational == p.informational
    ensures q.offset == p.offset + |HeadWire(h)|
  {}

  lemma {:induction false} MessageFound(p: Parser, input: bytes, i: nat)
    returns (m: MessageText, heads: seq<ResponseHead>, r: Response)
    requires AtHead(p) && |p.informational| <= p.limits.maxInformational && i <= |input| && p.offset < USIZE
    requires Ends(Run(p, input, i))
    ensures Spells(p, m, heads, r) && At(input, i, MessageWire(m))
    ensures Reads(Run(p, input, i), m, r, i + |MessageWire(m)|)
    decreases |input| - i
  {
    hide Run, FinishHeaders, HeadMeans, BodyMeans, Knows, HeadWire, MessageWire, FieldsAgree, IsInformational, ClosesConnection;
    var h, head, q := HeadFound(p, input, i);
    var j := i + |HeadWire(h)|;
    HeadFacts(p, q, h, head);
    if 100 <= head.status <= 199 {
      InformationalMeaning(p, q, h, head, q.offset - 2);
      var n := FinishHeaders(q, q.offset - 2).parser;
      m, heads, r := MessageFound(n, input, j);
      assert p.informational + [head] + heads == p.informational + ([head] + heads);
      MessageWireCons(h, m);
      AtSplit(input, i, HeadWire(h), MessageWire(m));
      m, heads := m.(informational := [h] + m.informational), [head] + heads;
    } else {
      heads := [];
      m, r := FinalFound(p, q, h, head, input, i);
    }
  }

  lemma {:induction false} MessageRead(p: Parser, input: bytes, i: nat, m: MessageText, heads: seq<ResponseHead>, r: Response)
    requires AtHead(p) && Spells(p, m, heads, r) && At(input, i, MessageWire(m))
    requires p.offset + |MessageWire(m)| < USIZE
    requires m.body.ToEnd? ==> i + |MessageWire(m)| == |input|
    ensures Reads(Run(p, input, i), m, r, i + |MessageWire(m)|)
    decreases |heads|
  {
    hide Run, FinishHeaders, HeadMeans, BodyMeans, Knows, HeadWire, BodyWire, MessageWire, FieldsAgree, ClosesConnection;
    if heads == [] {
      MessageWireLast(m);
      AtSplit(input, i, HeadWire(m.final), BodyWire(m.body));
      var q := HeadRead(p, input, i, m.final, r.head);
      HeadFacts(p, q, m.final, r.head);
      FollowsToBody(p, q, m.final, r.head);
      BodyRead(q, r.head, q.offset - 2, input, i + |HeadWire(m.final)|, m.body, r.body, r.trailers);
      assert p.informational + [] == p.informational;
    } else {
      var h, head := m.informational[0], heads[0];
      var rest := m.(informational := m.informational[1..]);
      assert m == rest.(informational := [h] + rest.informational);
      assert r.informational == (p.informational + [head]) + heads[1..];
      MessageWireCons(h, rest);
      AtSplit(input, i, HeadWire(h), MessageWire(rest));
      var q := HeadRead(p, input, i, h, head);
      HeadFacts(p, q, h, head);
      InformationalMeaning(p, q, h, head, q.offset - 2);
      MessageRead(FinishHeaders(q, q.offset - 2).parser, input, i + |HeadWire(h)|, rest, heads[1..], r);
    }
  }

  /** Soundness. Whatever the parser completes on is a message of the grammar, octet for octet, and
      the response is what that message spells; only a close-delimited one waits for end of input. */
  lemma ParserSound(semantics: Semantics, limits: Limits, input: bytes) returns (m: MessageText, r: Response)
    requires Ends(Run(New(semantics, limits), input, 0))
    ensures Means(m, semantics, limits, r)
    ensures Reads(Run(New(semantics, limits), input, 0), m, r, |MessageWire(m)|)
    ensures At(input, 0, MessageWire(m))
  {
    hide Run, HeadMeans, BodyMeans;
    var heads;
    m, heads, r := MessageFound(New(semantics, limits), input, 0);
    assert [] + heads == heads;
  }

  /** Completeness. Every message of the grammar is read to its last octet and no further,
      whatever follows it, and yields the response it spells. */
  lemma ParserComplete(semantics: Semantics, limits: Limits, m: MessageText, r: Response, rest: bytes)
    requires Means(m, semantics, limits, r) && |MessageWire(m)| < USIZE
    requires m.body.ToEnd? ==> rest == []
    ensures Reads(Run(New(semantics, limits), MessageWire(m) + rest, 0), m, r, |MessageWire(m)|)
  {
    hide Run, HeadMeans, BodyMeans, MessageWire;
    var input := MessageWire(m) + rest;
    AtSplit(input, 0, MessageWire(m), rest);
    assert [] + r.informational == r.informational;
    MessageRead(New(semantics, limits), input, 0, m, r.informational, r);
  }

  /** A text has at most one reading: two messages standing at the start of the same input
      have the same octets and spell the same response. */
  lemma MessagesAreUnambiguous(semantics: Semantics, limits: Limits, m1: MessageText, r1: Response, rest1: bytes,
                               m2: MessageText, r2: Response, rest2: bytes)
    requires Means(m1, semantics, limits, r1) && |MessageWire(m1)| < USIZE && (m1.body.ToEnd? ==> rest1 == [])
    requires Means(m2, semantics, limits, r2) && |MessageWire(m2)| < USIZE && (m2.body.ToEnd? ==> rest2 == [])
    requires MessageWire(m1) + rest1 == MessageWire(m2) + rest2
    ensures MessageWire(m1) == MessageWire(m2) && r1 == r2
  {
    hide Run, Means, MessageWire;
    ParserComplete(semantics, limits, m1, r1, rest1);
    ParserComplete(semantics, limits, m2, r2, rest2);
    var input := MessageWire(m1) + rest1;
    assert input[..|MessageWire(m1)|] == MessageWire(m1);
    assert input[..|MessageWire(m2)|] == MessageWire(m2);
  }
}
