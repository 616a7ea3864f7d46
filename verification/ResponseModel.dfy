/** The response parser as a machine that reads one octet at a time.
    This is the reference against which the bulk-copying `ResponseParser` is proved. */
module ResponseModel {
  import opened Wrappers
  import opened Bytes
  import opened Numerals
  import Chunked

  datatype Version = Http10 | Http11
  datatype Semantics = Normal | Head

  datatype Field = Field(name: bytes, value: bytes)
  datatype ResponseHead = ResponseHead(version: Version, status: nat, reason: bytes, headers: seq<Field>)
  datatype Response = Response(head: ResponseHead, body: bytes, trailers: seq<Field>,
                               informational: seq<ResponseHead>, connectionClose: bool)

  datatype Limits = Limits(maxLine: usize, maxHead: usize, maxHeaders: usize, maxBody: usize,
                           maxTrailer: usize, maxTrailers: usize, maxInformational: usize)

  const DEFAULT_LIMITS := Limits(8192, 65536, 128, 67108864, 16384, 32, 16)

  datatype ErrorKind =
    | BareLineFeed | InvalidLineEnding | InvalidStatusLine | InvalidStatusCode
    | InvalidHeaderName | InvalidHeaderValue | ObsoleteLineFolding | HeaderLimitExceeded
    | TooManyHeaders | TooManyInformational | InvalidContentLength | ConflictingContentLength
    | UnsupportedTransferEncoding | ConflictingFraming | InvalidNoBodyFraming | UnsupportedUpgrade
    | InvalidChunkSize | InvalidChunkTerminator | ForbiddenTrailer | TooManyTrailers
    | TrailerLimitExceeded | BodyLimitExceeded | UnexpectedEof | AlreadyComplete | InputLimitExceeded

  /** An error and the absolute offset it is reported at. */
  datatype Error = Error(kind: ErrorKind, offset: nat)

  datatype State =
    | StatusLine | Headers | FixedBody(remaining: nat) | ChunkSize | ChunkData(remaining: nat)
    | ChunkTerminator(seen: nat) | Trailers | CloseBody | Done

  datatype CurrentHead = CurrentHead(version: Option<Version>, status: nat, reason: bytes, headers: seq<Field>,
                                     contentLength: Option<nat>, chunked: bool, close: bool, keepAlive: bool)

  const NO_HEAD := CurrentHead(None, 0, [], [], None, false, false, false)

  datatype Section = HeadSection | ChunkSection | TrailerSection

  datatype Parser = Parser(semantics: Semantics, limits: Limits, state: State, offset: nat, lineStart: nat,
                           line: bytes, pendingCr: bool, headBytes: nat, trailerBytes: nat,
                           current: CurrentHead, informational: seq<ResponseHead>, body: bytes,
                           trailers: seq<Field>, finalClose: bool)

  function New(semantics: Semantics, limits: Limits): Parser {
    Parser(semantics, limits, StatusLine, 0, 0, [], false, 0, 0, NO_HEAD, [], [], [], false)
  }

  // ----- names -----

  const HTTP_1_0: bytes := [72, 84, 84, 80, 47, 49, 46, 48]
  const HTTP_1_1: bytes := [72, 84, 84, 80, 47, 49, 46, 49]
  const CONTENT_LENGTH: bytes := [99, 111, 110, 116, 101, 110, 116, 45, 108, 101, 110, 103, 116, 104]
  const TRANSFER_ENCODING: bytes :=
    [116, 114, 97, 110, 115, 102, 101, 114, 45, 101, 110, 99, 111, 100, 105, 110, 103]
  const CONNECTION: bytes := [99, 111, 110, 110, 101, 99, 116, 105, 111, 110]
  const CHUNKED: bytes := [99, 104, 117, 110, 107, 101, 100]
  const CLOSE: bytes := [99, 108, 111, 115, 101]
  const KEEP_ALIVE: bytes := [107, 101, 101, 112, 45, 97, 108, 105, 118, 101]
  const HOST: bytes := [104, 111, 115, 116]
  const TRAILER: bytes := [116, 114, 97, 105, 108, 101, 114]
  const UPGRADE: bytes := [117, 112, 103, 114, 97, 100, 101]
  const TE: bytes := [116, 101]
  const PROXY_AUTHENTICATE: bytes :=
    [112, 114, 111, 120, 121, 45, 97, 117, 116, 104, 101, 110, 116, 105, 99, 97, 116, 101]
  const PROXY_AUTHORIZATION: bytes :=
    [112, 114, 111, 120, 121, 45, 97, 117, 116, 104, 111, 114, 105, 122, 97, 116, 105, 111, 110]

  predicate Named(f: Field, name: bytes) {
    EqIgnoreCase(f.name, name)
  }

  predicate IsForbiddenTrailer(f: Field) {
    Named(f, CONTENT_LENGTH) || Named(f, TRANSFER_ENCODING) || Named(f, HOST) || Named(f, CONNECTION) ||
    Named(f, TRAILER) || Named(f, UPGRADE) || Named(f, TE) || Named(f, PROXY_AUTHENTICATE) ||
    Named(f, PROXY_AUTHORIZATION)
  }

  // ----- one line -----

  /** An error inside a line, at a distance from the line's start. */
  datatype LineError = LineError(kind: ErrorKind, at: nat)
  datatype StatusParts = StatusParts(version: Version, status: nat, reason: bytes)

  function ParseStatusLine(line: bytes): Result<StatusParts, LineError> {
    if |line| < 13 || line[8] != SP || line[12] != SP then Failure(LineError(InvalidStatusLine, 0))
    else if line[..8] != HTTP_1_0 && line[..8] != HTTP_1_1 then Failure(LineError(InvalidStatusLine, 0))
    else if !AllDigits(line[9..12]) then Failure(LineError(InvalidStatusCode, 9))
    else
      var status := DigitOf(line[9]) * 100 + DigitOf(line[10]) * 10 + DigitOf(line[11]);
      if !(100 <= status <= 599) then Failure(LineError(InvalidStatusCode, 9))
      else if !IsFieldBytes(line[13..]) then Failure(LineError(InvalidStatusLine, 13))
      else Success(StatusParts(if line[..8] == HTTP_1_0 then Http10 else Http11, status, line[13..]))
  }

  function ParseField(line: bytes): Result<Field, LineError> {
    if line != [] && IsOws(line[0]) then Failure(LineError(ObsoleteLineFolding, 0))
    else
      var colon := Find(line, COLON, 0);
      if colon.None? then Failure(LineError(InvalidHeaderName, 0))
      else
        var name, raw := line[..colon.value], line[colon.value + 1..];
        if !IsToken(name) then Failure(LineError(InvalidHeaderName, 0))
        else if !IsFieldBytes(raw) then Failure(LineError(InvalidHeaderValue, colon.value + 1))
        else Success(Field(name, Trim(raw)))
  }

  /** The comma-separated pieces of a value, untrimmed. */
  function Pieces(value: bytes): (r: seq<bytes>)
    ensures r != []
    decreases |value|
  {
    var comma := Find(value, COMMA, 0);
    if comma.None? then [value] else [value[..comma.value]] + Pieces(value[comma.value + 1..])
  }

  /** The `Connection` options among `pieces`; an empty or malformed token is an error. */
  function ApplyOptions(current: CurrentHead, pieces: seq<bytes>): Result<CurrentHead, ErrorKind>
    decreases |pieces|
  {
    if pieces == [] then Success(current)
    else
      var token := Trim(pieces[0]);
      if !IsToken(token) then Failure(InvalidHeaderValue)
      else ApplyOptions(current.(close := current.close || EqIgnoreCase(token, CLOSE),
                                 keepAlive := current.keepAlive || EqIgnoreCase(token, KEEP_ALIVE)),
                        pieces[1..])
  }

  /** What one header field means for framing and reuse. */
  function ApplyField(current: CurrentHead, f: Field): Result<CurrentHead, ErrorKind> {
    if Named(f, CONTENT_LENGTH) then
      var length := ParseDecimal(f.value);
      if length.None? then Failure(InvalidContentLength)
      else if current.contentLength.Some? && current.contentLength != length then Failure(ConflictingContentLength)
      else if current.chunked then Failure(ConflictingFraming)
      else Success(current.(contentLength := length))
    else if Named(f, TRANSFER_ENCODING) then
      if current.chunked || !EqIgnoreCase(f.value, CHUNKED) then Failure(UnsupportedTransferEncoding)
      else if current.contentLength.Some? then Failure(ConflictingFraming)
      else Success(current.(chunked := true))
    else if Named(f, CONNECTION) then ApplyOptions(current, Pieces(f.value))
    else Success(current)
  }

  // ----- transitions -----

  datatype Outcome =
    | More(parser: Parser)
    | Complete(response: Response, parser: Parser)
    | Fail(error: Error)

  datatype LineOutcome =
    | NoLine(parser: Parser)
    | GotLine(parser: Parser, line: bytes, start: nat)
    | LineFail(error: Error)

  function LimitError(section: Section, offset: nat): Error {
    Error(if section.TrailerSection? then TrailerLimitExceeded else HeaderLimitExceeded, offset)
  }

  predicate LineFits(p: Parser, section: Section, length: nat) {
    && length <= p.limits.maxLine
    && (section.HeadSection? ==> p.headBytes + length + 2 <= p.limits.maxHead)
    && (section.TrailerSection? ==> p.trailerBytes + length + 2 <= p.limits.maxTrailer)
  }

  function RecordLine(p: Parser, section: Section): Parser {
    p.(offset := p.offset + 1, lineStart := p.offset + 1, line := [], pendingCr := false,
       headBytes := if section.HeadSection? then p.headBytes + |p.line| + 2 else p.headBytes,
       trailerBytes := if section.TrailerSection? then p.trailerBytes + |p.line| + 2 else p.trailerBytes)
  }

  function LineStep(p: Parser, section: Section, b: byte): LineOutcome {
    if p.pendingCr then
      if b != LF then LineFail(Error(InvalidLineEnding, if p.offset == 0 then 0 else p.offset - 1))
      else if p.offset + 1 >= USIZE then LineFail(Error(InputLimitExceeded, p.offset))
      else GotLine(RecordLine(p, section), p.line, p.lineStart)
    else if b == LF then LineFail(Error(BareLineFeed, p.offset))
    else
      var length := if b == CR then |p.line| else |p.line| + 1;
      if !LineFits(p, section, length) then LineFail(LimitError(section, p.lineStart))
      else if p.offset + 1 >= USIZE then LineFail(Error(InputLimitExceeded, p.offset))
      else if b == CR then NoLine(p.(pendingCr := true, offset := p.offset + 1))
      else NoLine(p.(line := p.line + [b], offset := p.offset + 1))
  }

  function OnStatusLine(p: Parser, line: bytes, start: nat): Outcome {
    match ParseStatusLine(line)
    case Failure(e) => Fail(Error(e.kind, start + e.at))
    case Success(s) =>
      More(p.(state := Headers,
              current := p.current.(version := Some(s.version), status := s.status, reason := s.reason)))
  }

  function OnHeaderLine(p: Parser, line: bytes, start: nat): Outcome {
    match ParseField(line)
    case Failure(e) => Fail(Error(e.kind, start + e.at))
    case Success(f) =>
      if |p.current.headers| >= p.limits.maxHeaders then Fail(Error(TooManyHeaders, start))
      else match ApplyField(p.current, f)
        case Failure(kind) => Fail(Error(kind, start))
        case Success(c) => More(p.(current := c.(headers := p.current.headers + [f])))
  }

  function OnTrailerLine(p: Parser, line: bytes, start: nat): Outcome {
    match ParseField(line)
    case Failure(e) => Fail(Error(e.kind, start + e.at))
    case Success(f) =>
      if IsForbiddenTrailer(f) then Fail(Error(ForbiddenTrailer, start))
      else if |p.trailers| >= p.limits.maxTrailers then Fail(Error(TooManyTrailers, start))
      else More(p.(trailers := p.trailers + [f]))
  }

  function HeadOf(c: CurrentHead): ResponseHead
    requires c.version.Some?
  {
    ResponseHead(c.version.value, c.status, c.reason, c.headers)
  }

  function Finished(p: Parser): Outcome {
    if p.current.version.None? then Fail(Error(InvalidStatusLine, p.offset))
    else Complete(Response(HeadOf(p.current), p.body, p.trailers, p.informational, p.finalClose),
                  p.(state := Done, current := NO_HEAD, body := [], trailers := [], informational := []))
  }

  predicate Framed(c: CurrentHead) {
    c.contentLength.Some? || c.chunked
  }

  function FinishInformational(p: Parser, start: nat): Outcome {
    if Framed(p.current) then Fail(Error(InvalidNoBodyFraming, start))
    else if |p.informational| >= p.limits.maxInformational then Fail(Error(TooManyInformational, start))
    else if p.current.version.None? then Fail(Error(InvalidStatusLine, p.offset))
    else More(p.(state := StatusLine, informational := p.informational + [HeadOf(p.current)],
                 current := NO_HEAD, headBytes := 0))
  }

  /** The final head is complete: decide how the body is framed. */
  function FinishFinal(p: Parser, start: nat): Outcome {
    var c := p.current;
    if c.status == 204 then
      if Framed(c) then Fail(Error(InvalidNoBodyFraming, start)) else Finished(p)
    else if c.status == 205 then
      if c.chunked || (c.contentLength.Some? && c.contentLength.value != 0)
      then Fail(Error(InvalidNoBodyFraming, start)) else Finished(p)
    else if p.semantics.Head? || c.status == 304 then Finished(p)
    else if c.chunked then More(p.(state := ChunkSize))
    else if c.contentLength.Some? then
      if c.contentLength.value > p.limits.maxBody then Fail(Error(BodyLimitExceeded, start))
      else if c.contentLength.value == 0 then Finished(p)
      else More(p.(state := FixedBody(c.contentLength.value)))
    else More(p.(state := CloseBody, finalClose := true))
  }

  function FinalClose(c: CurrentHead): bool {
    c.close || (c.version == Some(Http10) && !c.keepAlive)
  }

  function FinishHeaders(p: Parser, start: nat): Outcome {
    var c := p.current;
    if c.version.None? then Fail(Error(InvalidStatusLine, start))
    else if c.version == Some(Http10) && c.chunked then Fail(Error(UnsupportedTransferEncoding, start))
    else if c.status == 101 then Fail(Error(UnsupportedUpgrade, start))
    else if 100 <= c.status <= 199 then FinishInformational(p, start)
    else FinishFinal(p.(finalClose := FinalClose(c)), start)
  }

  function OnChunkSize(p: Parser, line: bytes, start: nat): Outcome {
    match Chunked.ParseChunkSize(line)
    case Failure(_) => Fail(Error(InvalidChunkSize, start))
    case Success(size) =>
      if |p.body| + size > p.limits.maxBody then Fail(Error(BodyLimitExceeded, start))
      else More(p.(state := if size == 0 then Trailers else ChunkData(size)))
  }

  function SectionOf(s: State): Section {
    if s.ChunkSize? then ChunkSection else if s.Trailers? then TrailerSection else HeadSection
  }

  predicate LineState(s: State) {
    s.StatusLine? || s.Headers? || s.ChunkSize? || s.Trailers?
  }

  /** What a complete line does in each line-reading state. */
  function OnLine(p: Parser, line: bytes, start: nat): Outcome
    requires LineState(p.state)
  {
    match p.state
    case StatusLine => OnStatusLine(p, line, start)
    case Headers => if line == [] then FinishHeaders(p, start) else OnHeaderLine(p, line, start)
    case ChunkSize => OnChunkSize(p, line, start)
    case Trailers => if line == [] then Finished(p) else OnTrailerLine(p, line, start)
  }

  /** One body octet. */
  function Stored(p: Parser, data: bytes): Parser {
    p.(body := p.body + data, offset := p.offset + |data|)
  }

  function BodyStep(p: Parser, b: byte): Outcome
    requires !LineState(p.state)
  {
    match p.state
    case FixedBody(remaining) =>
      if p.offset + 1 >= USIZE then Fail(Error(InputLimitExceeded, p.offset))
      else if remaining <= 1 then Finished(Stored(p, [b]))
      else More(Stored(p, [b]).(state := FixedBody(remaining - 1)))
    case ChunkData(remaining) =>
      if p.offset + 1 >= USIZE then Fail(Error(InputLimitExceeded, p.offset))
      else More(Stored(p, [b]).(state := if remaining <= 1 then ChunkTerminator(0) else ChunkData(remaining - 1)))
    case ChunkTerminator(seen) =>
      if b != (if seen == 0 then CR else LF) then Fail(Error(InvalidChunkTerminator, p.offset))
      else if p.offset + 1 >= USIZE then Fail(Error(InputLimitExceeded, p.offset))
      else if seen == 0 then More(p.(state := ChunkTerminator(1), offset := p.offset + 1))
      else More(p.(state := ChunkSize, offset := p.offset + 1, lineStart := p.offset + 1))
    case CloseBody =>
      if |p.body| + 1 > p.limits.maxBody then Fail(Error(BodyLimitExceeded, p.offset))
      else if p.offset + 1 >= USIZE then Fail(Error(InputLimitExceeded, p.offset))
      else More(Stored(p, [b]))
    case Done => Fail(Error(AlreadyComplete, p.offset))
  }

  function Step(p: Parser, b: byte): Outcome {
    if LineState(p.state) then
      match LineStep(p, SectionOf(p.state), b)
      case NoLine(q) => More(q)
      case GotLine(q, line, start) => OnLine(q, line, start)
      case LineFail(e) => Fail(e)
    else BodyStep(p, b)
  }

  /** The octets of `input` from `i` on, until the first outcome that is not `More`;
      the second component is the position after the last octet read. */
  function Run(p: Parser, input: bytes, i: nat): (r: (Outcome, nat))
    requires i <= |input|
    ensures i <= r.1 <= |input|
    ensures r.0.More? ==> r.1 == |input|
    ensures r.0.Complete? ==> i < r.1
    decreases |input| - i
  {
    if i == |input| then (More(p), i)
    else
      var o := Step(p, input[i]);
      if o.More? then Run(o.parser, input, i + 1) else (o, i + 1)
  }

  /** Continue reading after the outcome of one step, or of a complete line. */
  function Resume(o: Outcome, input: bytes, i: nat): (Outcome, nat)
    requires i <= |input|
  {
    if o.More? then Run(o.parser, input, i) else (o, i)
  }

  /** One call of `feed`: a finished parser refuses even empty input. */
  function Feed(p: Parser, input: bytes): (Outcome, nat) {
    if p.state.Done? then (Fail(Error(AlreadyComplete, p.offset)), 0) else Run(p, input, 0)
  }

  function FinishEof(p: Parser): Outcome {
    if p.state.CloseBody? && !p.pendingCr then Finished(p)
    else if p.state.Done? then Fail(Error(AlreadyComplete, p.offset))
    else Fail(Error(UnexpectedEof, p.offset))
  }

  // ----- the invariant of every state before the first error -----

  ghost predicate Bounded(p: Parser) {
    && |p.line| <= p.limits.maxLine
    && p.headBytes <= p.limits.maxHead
    && p.trailerBytes <= p.limits.maxTrailer
    && |p.current.headers| <= p.limits.maxHeaders
    && |p.informational| <= p.limits.maxInformational
    && |p.trailers| <= p.limits.maxTrailers
    && |p.body| + (if p.state.FixedBody? || p.state.ChunkData? then p.state.remaining else 0) <= p.limits.maxBody
  }

  ghost predicate Valid(p: Parser) {
    && Bounded(p)
    && |p.body| <= p.offset < USIZE
    && (LineState(p.state) ==> p.offset == p.lineStart + |p.line| + (if p.pendingCr then 1 else 0))
    && (LineState(p.state) && (p.pendingCr || p.line != []) ==> LineFits(p, SectionOf(p.state), |p.line|))
    && (!LineState(p.state) ==> !p.pendingCr && p.line == [])
    && (p.current.version.None? <==> p.state.StatusLine? || p.state.Done?)
    && (p.state.StatusLine? ==> p.current == NO_HEAD)
    && (p.state.StatusLine? || p.state.Headers? ==> p.body == [] && p.trailers == [] && !p.finalClose && p.trailerBytes == 0)
    && (p.state.FixedBody? ==> p.state.remaining > 0)
    && (p.state.ChunkData? ==> p.state.remaining > 0)
    && (p.state.ChunkTerminator? ==> p.state.seen <= 1)
    && (!p.state.Trailers? && !p.state.Done? ==> p.trailers == [] && p.trailerBytes == 0)
  }

  lemma NewIsValid(semantics: Semantics, limits: Limits)
    ensures Valid(New(semantics, limits))
  {}

  lemma {:induction false} OptionsKeepHead(c: CurrentHead, pieces: seq<bytes>)
    ensures var r := ApplyOptions(c, pieces);
            r.Success? ==> r.value.(close := c.close, keepAlive := c.keepAlive) == c
    decreases |pieces|
  {
    hide IsToken, EqIgnoreCase, Trim;
    if pieces != [] && IsToken(Trim(pieces[0])) {
      var token := Trim(pieces[0]);
      OptionsKeepHead(c.(close := c.close || EqIgnoreCase(token, CLOSE),
                         keepAlive := c.keepAlive || EqIgnoreCase(token, KEEP_ALIVE)), pieces[1..]);
    }
  }

  lemma FieldKeepsHead(c: CurrentHead, f: Field)
    ensures var r := ApplyField(c, f);
            r.Success? ==> r.value.version == c.version && r.value.status == c.status && r.value.reason == c.reason
  {
    hide IsToken, EqIgnoreCase, Trim, Pieces, ParseDecimal, ApplyOptions;
    OptionsKeepHead(c, Pieces(f.value));
  }

  lemma OnLineKeepsValid(p: Parser, line: bytes, start: nat)
    requires LineState(p.state) && Valid(p) && !p.pendingCr && p.line == []
    ensures var o := OnLine(p, line, start);
            && (o.More? ==> Valid(o.parser) && o.parser.offset == p.offset && !o.parser.pendingCr && o.parser.line == [])
            && (o.Complete? ==> Valid(o.parser) && o.parser.state.Done?)
  {
    hide ParseField, ApplyField, ParseStatusLine, Chunked.ParseChunkSize, IsForbiddenTrailer;
    if p.state.Headers? && line == [] {
      HeadEndKeepsValid(p, start);
    } else if p.state.Headers? && ParseField(line).Success? {
      FieldKeepsHead(p.current, ParseField(line).value);
    }
  }

  lemma HeadEndKeepsValid(p: Parser, start: nat)
    requires p.state.Headers? && Valid(p) && !p.pendingCr && p.line == []
    ensures var o := FinishHeaders(p, start);
            && (o.More? ==> Valid(o.parser) && o.parser.offset == p.offset && !o.parser.pendingCr && o.parser.line == [])
            && (o.Complete? ==> Valid(o.parser) && o.parser.state.Done?)
  {
    hide FinishFinal, FinishInformational;
    FinalKeepsValid(p.(finalClose := FinalClose(p.current)), start);
    InformationalKeepsValid(p, start);
  }

  lemma InformationalKeepsValid(p: Parser, start: nat)
    requires p.state.Headers? && Valid(p) && !p.pendingCr && p.line == []
    ensures var o := FinishInformational(p, start);
            !o.Complete? && (o.More? ==> Valid(o.parser) && o.parser.offset == p.offset && !o.parser.pendingCr && o.parser.line == [])
  {}

  lemma FinalKeepsValid(p: Parser, start: nat)
    requires p.state.Headers? && Valid(p.(finalClose := false)) && !p.pendingCr && p.line == []
    ensures var o := FinishFinal(p, start);
            && (o.More? ==> Valid(o.parser) && o.parser.offset == p.offset && !o.parser.pendingCr && o.parser.line == [])
            && (o.Complete? ==> Valid(o.parser) && o.parser.state.Done?)
  {
    HeadCompletesValid(p);
    hide Finished;
  }

  lemma HeadCompletesValid(p: Parser)
    requires p.state.Headers? && Valid(p.(finalClose := false)) && !p.pendingCr && p.line == []
    ensures Finished(p).Complete? && Valid(Finished(p).parser) && Finished(p).parser.state.Done?
  {}

  /** Every octet keeps the invariant, whatever it does short of an error. */
  lemma StepKeepsValid(p: Parser, b: byte)
    requires Valid(p)
    ensures Step(p, b).More? ==> Valid(Step(p, b).parser) && Step(p, b).parser.offset == p.offset + 1
    ensures Step(p, b).Complete? ==> Valid(Step(p, b).parser) && Step(p, b).parser.state.Done?
  {
    hide OnLine;
    if LineState(p.state) {
      var l := LineStep(p, SectionOf(p.state), b);
      if l.GotLine? {
        OnLineKeepsValid(l.parser, l.line, l.start);
      }
    }
  }

  lemma {:induction false} RunKeepsValid(p: Parser, input: bytes, i: nat)
    requires i <= |input| && Valid(p)
    ensures var o := Run(p, input, i).0;
            && (o.More? ==> Valid(o.parser) && o.parser.offset == p.offset + (|input| - i))
            && (o.Complete? ==> Valid(o.parser) && o.parser.state.Done?)
    decreases |input| - i
  {
    if i < |input| {
      StepKeepsValid(p, input[i]);
      if Step(p, input[i]).More? {
        RunKeepsValid(Step(p, input[i]).parser, input, i + 1);
      }
    }
  }

  /** The `pending_cr` guard of `finish_eof` never decides. */
  lemma EofGuardIsRedundant(p: Parser)
    requires Valid(p)
    ensures FinishEof(p).Complete? <==> p.state.CloseBody?
  {}

  // ----- fragmentation -----

  /** Reading in two parts is reading the whole. */
  lemma {:induction false} RunConcat(p: Parser, a: bytes, b: bytes, i: nat)
    requires i <= |a|
    ensures Run(p, a + b, i) ==
            var first := Run(p, a, i); if first.0.More? then Run(first.0.parser, a + b, |a|) else first
    decreases |a| - i
  {
    if i < |a| {
      var o := Step(p, a[i]);
      assert (a + b)[i] == a[i];
      if o.More? {
        RunConcat(o.parser, a, b, i + 1);
      }
    }
  }

  function Shift(r: (Outcome, nat), amount: nat): (Outcome, nat) {
    (r.0, r.1 + amount)
  }

  /** The position of the text does not matter. */
  lemma {:induction false} RunShift(p: Parser, a: bytes, b: bytes, i: nat)
    requires i <= |b|
    ensures Run(p, a + b, |a| + i) == Shift(Run(p, b, i), |a|)
    decreases |b| - i
  {
    if i < |b| {
      var o := Step(p, b[i]);
      assert (a + b)[|a| + i] == b[i];
      if o.More? {
        RunShift(o.parser, a, b, i + 1);
      }
    }
  }

  /** A run inside a longer text reads what the cut-out text reads. */
  lemma RunWithin(p: Parser, input: bytes, i: nat, j: nat)
    requires i <= j <= |input|
    ensures var part := Run(p, input[i..j], 0);
            Run(p, input, i) ==
            if part.0.More? then Run(part.0.parser, input, j) else Shift(part, i)
  {
    hide Run;
    var before, piece, after := input[..i], input[i..j], input[j..];
    assert piece + after == input[i..] && before + input[i..] == input && before + piece == input[..j];
    RunShift(p, before, input[i..], 0);
    RunConcat(p, piece, after, 0);
    var part := Run(p, piece, 0);
    if part.0.More? {
      assert input[..j] + after == input;
      RunShift(part.0.parser, piece, after, 0);
      RunShift(part.0.parser, input[..j], after, 0);
    }
  }

  /** Successive `feed` calls until the first outcome that is not `More`. */
  function FeedPieces(p: Parser, pieces: seq<bytes>): (Outcome, nat)
    decreases |pieces|
  {
    if pieces == [] then (More(p), 0)
    else
      var first := Feed(p, pieces[0]);
      if first.0.More? then Shift(FeedPieces(first.0.parser, pieces[1..]), |pieces[0]|) else first
  }

  /** Fragmentation independence: however the octets are cut, the outcome, the error and its
      offset, and the number of octets consumed are those of one whole `feed`. */
  lemma {:induction false} FragmentationIndependence(p: Parser, pieces: seq<bytes>)
    requires !p.state.Done?
    ensures FeedPieces(p, pieces) == Feed(p, Concat(pieces))
    decreases |pieces|
  {
    if pieces != [] {
      var head, rest := pieces[0], Concat(pieces[1..]);
      var first := Run(p, head, 0);
      RunConcat(p, head, rest, 0);
      if first.0.More? {
        RunNotDone(p, head, 0);
        FragmentationIndependence(first.0.parser, pieces[1..]);
        RunShift(first.0.parser, head, rest, 0);
      }
    }
  }

  /** Every state a new parser reaches, however it is fed, keeps the invariant and has counted the octets it was fed;
      end of input then completes it exactly in a close-delimited body. */
  lemma ReachedIsValid(semantics: Semantics, limits: Limits, pieces: seq<bytes>)
    ensures var o := FeedPieces(New(semantics, limits), pieces).0;
            && (o.More? ==>
                  && Valid(o.parser) && o.parser.offset == |Concat(pieces)|
                  && (FinishEof(o.parser).Complete? <==> o.parser.state.CloseBody?))
            && (o.Complete? ==> Valid(o.parser) && o.parser.state.Done?)
  {
    hide Valid, Run, FinishEof;
    var p, input := New(semantics, limits), Concat(pieces);
    NewIsValid(semantics, limits);
    FragmentationIndependence(p, pieces);
    RunKeepsValid(p, input, 0);
    if Run(p, input, 0).0.More? {
      EofGuardIsRedundant(Run(p, input, 0).0.parser);
    }
  }

  lemma OnLineGoesOn(p: Parser, line: bytes, start: nat)
    requires LineState(p.state)
    ensures OnLine(p, line, start).More? ==> !OnLine(p, line, start).parser.state.Done?
  {
    hide ParseField, ApplyField, ParseStatusLine, Chunked.ParseChunkSize, IsForbiddenTrailer;
  }

  lemma StepGoesOn(p: Parser, b: byte)
    ensures Step(p, b).More? ==> !Step(p, b).parser.state.Done?
  {
    hide OnLine;
    if LineState(p.state) {
      var l := LineStep(p, SectionOf(p.state), b);
      if l.GotLine? {
        OnLineGoesOn(l.parser, l.line, l.start);
      }
    }
  }

  lemma {:induction false} RunNotDone(p: Parser, input: bytes, i: nat)
    requires i <= |input| && !p.state.Done? && Run(p, input, i).0.More?
    ensures !Run(p, input, i).0.parser.state.Done?
    decreases |input| - i
  {
    if i < |input| {
      hide Step;
      StepGoesOn(p, input[i]);
      var q := Step(p, input[i]).parser;
      RunNotDone(q, input, i + 1);
    }
  }

  // ----- bulk copies -----

  /** The parser after `data`, octets of a fixed or chunk body of which more are to come. */
  function BodyTaken(p: Parser, data: bytes): Parser
    requires (p.state.FixedBody? || p.state.ChunkData?) && |data| < p.state.remaining
  {
    var left := p.state.remaining - |data|;
    Stored(p, data).(state := if p.state.FixedBody? then FixedBody(left) else ChunkData(left))
  }

  lemma BodyTakenTwice(p: Parser, a: bytes, b: bytes)
    requires (p.state.FixedBody? || p.state.ChunkData?) && |a| + |b| < p.state.remaining
    ensures BodyTaken(BodyTaken(p, a), b) == BodyTaken(p, a + b)
  {
    Associative(p.body, a, b);
  }

  lemma BodyOctet(p: Parser, input: bytes, i: nat)
    requires (p.state.FixedBody? || p.state.ChunkData?) && 1 < p.state.remaining && i < |input| && p.offset + 1 < USIZE
    ensures Run(p, input, i) == Run(BodyTaken(p, [input[i]]), input, i + 1)
  {
    hide LineStep, OnLine, Finished;
    assert Step(p, input[i]) == More(BodyTaken(p, [input[i]]));
  }

  /** Copying `k` body octets at once is `k` single steps. */
  lemma {:induction false} BulkBody(p: Parser, input: bytes, i: nat, k: nat)
    requires p.state.FixedBody? || p.state.ChunkData?
    requires k < p.state.remaining && i + k <= |input| && p.offset + k < USIZE
    ensures Run(p, input, i) == Run(BodyTaken(p, input[i..i + k]), input, i + k)
    decreases k
  {
    hide Run;
    if k == 0 {
      assert p.body + input[i..i] == p.body;
    } else {
      var first, rest := [input[i]], input[i + 1..i + k];
      BodyOctet(p, input, i);
      BulkBody(BodyTaken(p, first), input, i + 1, k - 1);
      BodyTakenTwice(p, first, rest);
      assert first + rest == input[i..i + k];
    }
  }

  /** What a fixed or chunk body comes to when `q` has its last octet. */
  function BodyEnd(p: Parser, q: Parser, input: bytes, i: nat): (Outcome, nat)
    requires i <= |input|
  {
    if p.state.ChunkData? then Run(q.(state := ChunkTerminator(0)), input, i) else (Finished(q), i)
  }

  /** The last octet of a fixed or chunk body, after a bulk copy of the others. */
  lemma BulkBodyLast(p: Parser, input: bytes, i: nat)
    requires p.state.FixedBody? || p.state.ChunkData?
    requires var k := p.state.remaining; k > 0 && i + k <= |input| && p.offset + k < USIZE
    ensures var k := p.state.remaining;
            Run(p, input, i) == BodyEnd(p, Stored(p, input[i..i + k]), input, i + k)
  {
    hide Run, BodyEnd, BodyTaken, Stored;
    var k := p.state.remaining;
    var front, b := input[i..i + (k - 1)], input[i + (k - 1)];
    BulkBody(p, input, i, k - 1);
    TakenState(p, front);
    LastOctet(BodyTaken(p, front), input, i + (k - 1));
    LastTaken(p, front, b, input, i + k);
    assert front + [b] == input[i..i + k];
  }

  lemma LastOctet(p: Parser, input: bytes, i: nat)
    requires (p.state.FixedBody? || p.state.ChunkData?) && p.state.remaining == 1 && i < |input| && p.offset + 1 < USIZE
    ensures Run(p, input, i) == BodyEnd(p, Stored(p, [input[i]]), input, i + 1)
  {
    hide LineStep, OnLine;
  }

  lemma TakenState(p: Parser, front: bytes)
    requires (p.state.FixedBody? || p.state.ChunkData?) && p.state.remaining == |front| + 1
    ensures BodyTaken(p, front).state == if p.state.FixedBody? then FixedBody(1) else ChunkData(1)
    ensures BodyTaken(p, front).offset == p.offset + |front|
  {}

  lemma LastTaken(p: Parser, front: bytes, b: byte, input: bytes, i: nat)
    requires (p.state.FixedBody? || p.state.ChunkData?) && p.state.remaining == |front| + 1 && i <= |input|
    ensures BodyEnd(BodyTaken(p, front), Stored(BodyTaken(p, front), [b]), input, i) ==
            BodyEnd(p, Stored(p, front + [b]), input, i)
  {
    hide Run;
    Associative(p.body, front, [b]);
    var u, q := Stored(BodyTaken(p, front), [b]), Stored(p, front + [b]);
    assert u.(state := ChunkTerminator(0)) == q.(state := ChunkTerminator(0));
    assert Finished(u) == Finished(q);
  }

  lemma BodyKeepsValid(p: Parser, data: bytes)
    requires Valid(p) && (p.state.FixedBody? || p.state.ChunkData?) && p.offset + |data| < USIZE
    ensures |data| < p.state.remaining ==> Valid(BodyTaken(p, data))
    ensures p.state.ChunkData? && |data| == p.state.remaining ==>
              Valid(Stored(p, data).(state := ChunkTerminator(0)))
    ensures p.state.FixedBody? && |data| == p.state.remaining ==>
              var o := Finished(Stored(p, data));
              o.Complete? && Valid(o.parser)
  {}

  /** A close-delimited body takes everything, or fails at the first octet over the limit. */
  lemma {:induction false} BulkClose(p: Parser, input: bytes, i: nat)
    requires p.state.CloseBody? && i <= |input| && |p.body| <= p.limits.maxBody
    requires p.offset + (|input| - i) < USIZE
    ensures var n := |input| - i;
            if |p.body| + n > p.limits.maxBody
            then Run(p, input, i).0 == Fail(Error(BodyLimitExceeded, p.offset + (p.limits.maxBody - |p.body|)))
            else Run(p, input, i) == (More(p.(body := p.body + input[i..], offset := p.offset + n)), |input|)
    decreases |input| - i
  {
    if i < |input| {
      if |p.body| < p.limits.maxBody {
        var q := Step(p, input[i]).parser;
        BulkClose(q, input, i + 1);
        assert q.body + input[i + 1..] == p.body + input[i..];
      }
    } else {
      assert p.body + input[i..] == p.body;
    }
  }
}
