/** The push parser as the repository writes it: fields updated in place, lines assembled octet
    by octet, bodies copied in bulk. Every method is tied to the reference machine. */
module ResponseParsing {
  import opened Wrappers
  import opened Bytes
  import opened Numerals
  import Chunked
  import opened M = ResponseModel

  datatype FeedStatus = NeedMore | Completed(response: Response)
  datatype FeedResult = FeedResult(consumed: nat, status: FeedStatus)

  function CheckedAdd(a: nat, b: nat): Option<nat> {
    if a + b < USIZE then Some(a + b) else None
  }

  lemma RunOnce(p: Parser, input: bytes, i: nat)
    requires i <= |input|
    ensures Run(p, input, i) == if i == |input| then (More(p), i) else Resume(Step(p, input[i]), input, i + 1)
  {}

  lemma RemainingIsPositive(p: Parser)
    requires M.Valid(p) && (p.state.FixedBody? || p.state.ChunkData?)
    ensures p.state.remaining > 0
  {}

  /** The loop over the comma-separated `Connection` tokens. */
  method ReadOptions(current: CurrentHead, value: bytes) returns (r: Result<CurrentHead, ErrorKind>)
    ensures r == ApplyOptions(current, Pieces(value))
  {
    hide EqIgnoreCase, IsToken, Trim, Pieces;
    var pieces := Pieces(value);
    var c := current;
    assert pieces[0..] == pieces;
    for i := 0 to |pieces|
      invariant ApplyOptions(c, pieces[i..]) == ApplyOptions(current, pieces)
    {
      var token := TrimOws(pieces[i]);
      if !IsToken(token) {
        return Failure(InvalidHeaderValue);
      }
      assert pieces[i..][1..] == pieces[i + 1..];
      c := c.(close := c.close || EqIgnoreCase(token, CLOSE),
              keepAlive := c.keepAlive || EqIgnoreCase(token, KEEP_ALIVE));
    }
    r := Success(c);
  }

  class ResponseParser {
    const semantics: Semantics
    const limits: Limits
    var state: State
    var offset: nat
    var lineStart: nat
    var line: bytes
    var pendingCr: bool
    var headBytes: nat
    var trailerBytes: nat
    var current: CurrentHead
    var informational: seq<ResponseHead>
    var body: bytes
    var trailers: seq<Field>
    var finalClose: bool

    ghost function View(): Parser
      reads this
    {
      Parser(semantics, limits, state, offset, lineStart, line, pendingCr, headBytes, trailerBytes,
             current, informational, body, trailers, finalClose)
    }

    ghost predicate Valid()
      reads this
    {
      M.Valid(View())
    }

    constructor (semantics: Semantics, limits: Limits)
      ensures View() == New(semantics, limits) && Valid()
    {
      this.semantics := semantics;
      this.limits := limits;
      state := StatusLine;
      offset, lineStart, line, pendingCr := 0, 0, [], false;
      headBytes, trailerBytes, current := 0, 0, NO_HEAD;
      informational, body, trailers, finalClose := [], [], [], false;
    }

    /** `offset` moves by a checked addition. */
    method Advance(amount: nat) returns (r: Result<(), Error>)
      modifies this`offset
      ensures r == if old(offset) + amount < USIZE then Success(()) else Failure(Error(InputLimitExceeded, old(offset)))
      ensures View() == if r.Success? then old(View()).(offset := old(offset) + amount) else old(View())
    {
      var sum := CheckedAdd(offset, amount);
      if sum.None? {
        return Failure(Error(InputLimitExceeded, offset));
      }
      offset := sum.value;
      r := Success(());
    }

    method EnsureLineFits(section: Section, length: nat, start: nat) returns (r: Result<(), Error>)
      ensures r == if LineFits(View(), section, length) then Success(()) else Failure(LimitError(section, start))
    {
      if length > limits.maxLine {
        return Failure(LimitError(section, start));
      }
      if section.HeadSection? || section.TrailerSection? {
        var used := if section.HeadSection? then headBytes else trailerBytes;
        var limit := if section.HeadSection? then limits.maxHead else limits.maxTrailer;
        var framed := CheckedAdd(used, length);
        var complete := if framed.Some? then CheckedAdd(framed.value, 2) else None;
        if complete.None? || complete.value > limit {
          return Failure(LimitError(section, start));
        }
      }
      r := Success(());
    }

    /** The books after the line feed that ends a line. */
    method EndLine(section: Section)
      requires offset > 0
      modifies this
      ensures View() == RecordLine(old(View()).(offset := old(offset) - 1), section)
    {
      pendingCr := false;
      if section.HeadSection? {
        headBytes := headBytes + |line| + 2;
      } else if section.TrailerSection? {
        trailerBytes := trailerBytes + |line| + 2;
      }
      line := [];
      lineStart := offset;
    }

    /** One round of the `read_line` loop, for the octet `b`. */
    method TakeLineByte(section: Section, b: byte) returns (r: Result<Option<(bytes, nat)>, Error>)
      requires Valid() && LineState(state) && section == SectionOf(state)
      modifies this
      ensures match LineStep(old(View()), section, b)
              case NoLine(q) => r == Success(None) && View() == q
              case GotLine(q, l, start) => r == Success(Some((l, start))) && View() == q
              case LineFail(e) => r == Failure(e)
    {
      hide M.Valid, LineFits;
      if pendingCr {
        if b != LF {
          return Failure(Error(InvalidLineEnding, if offset == 0 then 0 else offset - 1));
        }
        var moved := Advance(1);
        if moved.Failure? {
          return Failure(moved.error);
        }
        r := Success(Some((line, lineStart)));
        EndLine(section);
        return;
      }
      if b == LF {
        return Failure(Error(BareLineFeed, offset));
      }
      var fits := EnsureLineFits(section, if b == CR then |line| else |line| + 1, lineStart);
      if fits.Failure? {
        return Failure(fits.error);
      }
      if b == CR {
        pendingCr := true;
      } else {
        line := line + [b];
      }
      var moved := Advance(1);
      r := if moved.Failure? then Failure(moved.error) else Success(None);
    }

    /** Reads until a line is complete or the input is used up; a line may span many calls. */
    method ReadLine(input: bytes, from: nat, section: Section)
      returns (r: Result<Option<(bytes, nat)>, Error>, consumed: nat)
      requires Valid() && LineState(state) && section == SectionOf(state) && from <= |input|
      modifies this
      ensures from <= consumed <= |input|
      ensures r.Failure? ==> Run(old(View()), input, from).0 == Fail(r.error)
      ensures r.Success? ==> Valid() && state == old(state) && offset == old(offset) + (consumed - from)
      ensures r == Success(None) ==> Run(old(View()), input, from) == (More(View()), consumed)
      ensures r.Success? && r.value.Some? ==>
                && from < consumed && line == [] && !pendingCr
                && Run(old(View()), input, from) == Resume(OnLine(View(), r.value.value.0, r.value.value.1), input, consumed)
    {
      hide OnLine, M.Valid, Run, LineFits;
      consumed := from;
      ghost var start := View();
      while consumed < |input|
        invariant from <= consumed <= |input|
        invariant Valid() && state == start.state && offset == start.offset + (consumed - from)
        invariant Run(start, input, from) == Run(View(), input, consumed)
      {
        ghost var was := View();
        RunOnce(was, input, consumed);
        StepKeepsValid(was, input[consumed]);
        LineStepKeepsValid(was, section, input[consumed]);
        r := TakeLineByte(section, input[consumed]);
        if r.Failure? {
          return;
        }
        consumed := consumed + 1;
        if r.value.Some? {
          return;
        }
      }
      RunOnce(View(), input, consumed);
      r := Success(None);
    }

    lemma LineStepKeepsValid(p: Parser, section: Section, b: byte)
      requires M.Valid(p) && LineState(p.state) && section == SectionOf(p.state)
      ensures var o := LineStep(p, section, b);
              && (o.GotLine? ==> M.Valid(o.parser) && o.parser.state == p.state && !o.parser.pendingCr &&
                                 o.parser.line == [] && o.parser.offset == p.offset + 1)
              && (o.NoLine? ==> o.parser.state == p.state)
    {}

    method TakeStatusLine(l: bytes, start: nat) returns (r: Result<(), Error>)
      modifies this`current
      ensures match OnStatusLine(old(View()), l, start)
              case Fail(e) => r == Failure(e)
              case More(q) => r == Success(()) && View() == q.(state := state)
              case Complete(_, _) => false
    {
      var parsed := ParseStatusLine(l);
      if parsed.Failure? {
        return Failure(Error(parsed.error.kind, start + parsed.error.at));
      }
      current := current.(version := Some(parsed.value.version), status := parsed.value.status,
                          reason := parsed.value.reason);
      r := Success(());
    }

    method ApplyHeaderSemantics(f: Field, start: nat) returns (r: Result<(), Error>)
      modifies this`current
      ensures match ApplyField(old(current), f)
              case Failure(kind) => r == Failure(Error(kind, start))
              case Success(c) => r == Success(()) && current == c
    {
      if Named(f, CONTENT_LENGTH) {
        var parsed := ParseDecimal(f.value);
        if parsed.None? {
          return Failure(Error(InvalidContentLength, start));
        }
        if current.contentLength.Some? && current.contentLength != parsed {
          return Failure(Error(ConflictingContentLength, start));
        }
        current := current.(contentLength := parsed);
        if current.chunked {
          return Failure(Error(ConflictingFraming, start));
        }
      } else if Named(f, TRANSFER_ENCODING) {
        if current.chunked || !EqIgnoreCase(f.value, CHUNKED) {
          return Failure(Error(UnsupportedTransferEncoding, start));
        }
        current := current.(chunked := true);
        if current.contentLength.Some? {
          return Failure(Error(ConflictingFraming, start));
        }
      } else if Named(f, CONNECTION) {
        var c := ReadOptions(current, f.value);
        if c.Failure? {
          return Failure(Error(c.error, start));
        }
        current := c.value;
      }
      r := Success(());
    }

    method TakeHeaderLine(l: bytes, start: nat, trailer: bool) returns (r: Result<(), Error>)
      modifies this`current, this`trailers
      ensures match if trailer then OnTrailerLine(old(View()), l, start) else OnHeaderLine(old(View()), l, start)
              case Fail(e) => r == Failure(e)
              case More(q) => r == Success(()) && View() == q
              case Complete(_, _) => false
    {
      hide ParseField, ApplyField, IsForbiddenTrailer;
      var parsed := ParseField(l);
      if parsed.Failure? {
        return Failure(Error(parsed.error.kind, start + parsed.error.at));
      }
      var f := parsed.value;
      if trailer {
        if IsForbiddenTrailer(f) {
          return Failure(Error(ForbiddenTrailer, start));
        }
        if |trailers| >= limits.maxTrailers {
          return Failure(Error(TooManyTrailers, start));
        }
        trailers := trailers + [f];
        return Success(());
      }
      if |current.headers| >= limits.maxHeaders {
        return Failure(Error(TooManyHeaders, start));
      }
      FieldKeepsHeaders(current, f);
      var applied := ApplyHeaderSemantics(f, start);
      if applied.Failure? {
        return Failure(applied.error);
      }
      current := current.(headers := current.headers + [f]);
      r := Success(());
    }

    lemma FieldKeepsHeaders(c: CurrentHead, f: Field)
      ensures ApplyField(c, f).Success? ==> ApplyField(c, f).value.headers == c.headers
    {
      hide IsToken, EqIgnoreCase, Trim, Pieces, ParseDecimal, ApplyOptions;
      OptionsKeepHead(c, Pieces(f.value));
    }

    /** Moves the assembled message out of the parser. */
    method CompleteResponse() returns (r: Result<Response, Error>)
      modifies this
      ensures match Finished(old(View()))
              case Fail(e) => r == Failure(e)
              case Complete(response, q) => r == Success(response) && View() == q
              case More(_) => false
    {
      if current.version.None? {
        return Failure(Error(InvalidStatusLine, offset));
      }
      r := Success(Response(HeadOf(current), body, trailers, informational, finalClose));
      current := NO_HEAD;
      state := Done;
      body, trailers, informational := [], [], [];
    }

    method CompleteHead() returns (r: Result<Option<Response>, Error>)
      modifies this
      ensures match Finished(old(View()))
              case Fail(e) => r == Failure(e)
              case Complete(response, q) => r == Success(Some(response)) && View() == q
              case More(_) => false
    {
      var done := CompleteResponse();
      r := if done.Success? then Success(Some(done.value)) else Failure(done.error);
    }

    /** What an empty header line decides; `None` means that more octets follow. */
    method FinishHead(start: nat) returns (r: Result<Option<Response>, Error>)
      modifies this
      ensures match FinishHeaders(old(View()), start)
              case Fail(e) => r == Failure(e)
              case Complete(response, q) => r == Success(Some(response)) && View() == q
              case More(q) => r == Success(None) && View() == q
    {
      if current.version.None? {
        return Failure(Error(InvalidStatusLine, start));
      }
      if current.version == Some(Http10) && current.chunked {
        return Failure(Error(UnsupportedTransferEncoding, start));
      }
      if current.status == 101 {
        return Failure(Error(UnsupportedUpgrade, start));
      }
      if 100 <= current.status <= 199 {
        if Framed(current) {
          return Failure(Error(InvalidNoBodyFraming, start));
        }
        if |informational| >= limits.maxInformational {
          return Failure(Error(TooManyInformational, start));
        }
        informational := informational + [HeadOf(current)];
        current := NO_HEAD;
        headBytes := 0;
        state := StatusLine;
        return Success(None);
      }
      finalClose := FinalClose(current);
      r := FrameBody(start);
    }

    /** How the body of a final response is framed. */
    method FrameBody(start: nat) returns (r: Result<Option<Response>, Error>)
      requires current.version.Some?
      modifies this
      ensures match FinishFinal(old(View()), start)
              case Fail(e) => r == Failure(e)
              case Complete(response, q) => r == Success(Some(response)) && View() == q
              case More(q) => r == Success(None) && View() == q
    {
      var length := current.contentLength;
      if current.status == 204 {
        if Framed(current) {
          return Failure(Error(InvalidNoBodyFraming, start));
        }
        r := CompleteHead();
        return;
      }
      if current.status == 205 {
        if current.chunked || (length.Some? && length.value != 0) {
          return Failure(Error(InvalidNoBodyFraming, start));
        }
        r := CompleteHead();
        return;
      }
      if semantics.Head? || current.status == 304 {
        r := CompleteHead();
        return;
      }
      if current.chunked {
        state := ChunkSize;
      } else if length.Some? {
        if length.value > limits.maxBody {
          return Failure(Error(BodyLimitExceeded, start));
        }
        if length.value == 0 {
          r := CompleteHead();
          return;
        }
        state := FixedBody(length.value);
      } else {
        finalClose := true;
        state := CloseBody;
      }
      r := Success(None);
    }

    method TakeChunkSize(l: bytes, start: nat) returns (r: Result<(), Error>)
      modifies this`state
      ensures match OnChunkSize(old(View()), l, start)
              case Fail(e) => r == Failure(e)
              case More(q) => r == Success(()) && View() == q
              case Complete(_, _) => false
    {
      var size := Chunked.ReadChunkSize(l);
      if size.Failure? {
        return Failure(Error(InvalidChunkSize, start));
      }
      var length := CheckedAdd(|body|, size.value);
      if length.None? || length.value > limits.maxBody {
        return Failure(Error(BodyLimitExceeded, start));
      }
      state := if size.value == 0 then Trailers else ChunkData(size.value);
      r := Success(());
    }

    /** What a complete line does in the current state. */
    method TakeLine(l: bytes, start: nat) returns (r: Result<Option<Response>, Error>)
      requires LineState(state)
      modifies this
      ensures match OnLine(old(View()), l, start)
              case Fail(e) => r == Failure(e)
              case Complete(response, q) => r == Success(Some(response)) && View() == q
              case More(q) => r == Success(None) && View() == q
    {
      var done: Result<(), Error>;
      match state {
        case StatusLine =>
          done := TakeStatusLine(l, start);
          state := Headers;
        case Headers =>
          if l == [] {
            r := FinishHead(start);
            return;
          }
          done := TakeHeaderLine(l, start, false);
        case ChunkSize =>
          done := TakeChunkSize(l, start);
        case Trailers =>
          if l == [] {
            r := CompleteHead();
            return;
          }
          done := TakeHeaderLine(l, start, true);
      }
      r := if done.Failure? then Failure(done.error) else Success(None);
    }

    /** What the reference machine must have said for a step to return `r`. */
    static ghost predicate Agrees(r: Result<FeedResult, Error>, spec: (Outcome, nat), now: Parser) {
      match r
      case Failure(e) => spec.0 == Fail(e)
      case Success(FeedResult(n, NeedMore)) => spec == (More(now), n)
      case Success(FeedResult(n, Completed(response))) => spec == (Complete(response, now), n)
    }

    /** Bulk copy of at most `remaining` body octets. */
    method CopyBody(input: bytes, from: nat, remaining: nat) returns (r: Result<nat, Error>)
      requires from <= |input|
      modifies this`body, this`offset
      ensures var k := if remaining < |input| - from then remaining else |input| - from;
              if old(offset) + k < USIZE
              then r == Success(k) && View() == Stored(old(View()), input[from..from + k])
              else r == Failure(Error(InputLimitExceeded, old(offset)))
    {
      var amount := if remaining < |input| - from then remaining else |input| - from;
      body := body + input[from..from + amount];
      var moved := Advance(amount);
      r := if moved.Failure? then Failure(moved.error) else Success(amount);
    }

    /** One round of the loop in `FixedBody`; `None` means that the loop goes on. */
    method TakeFixed(input: bytes, from: nat) returns (r: Result<Option<FeedResult>, Error>, consumed: nat)
      requires Valid() && state.FixedBody? && from < |input|
      modifies this
      ensures r.Success? ==> Valid()
      ensures r.Failure? ==> old(offset) + (|input| - from) >= USIZE
      ensures r.Success? && r.value.Some? ==> Agrees(Success(r.value.value), Run(old(View()), input, from), View())
      ensures r.Success? && r.value.None? ==>
                && from < consumed <= |input| && state != Done && offset == old(offset) + (consumed - from)
                && Run(old(View()), input, from) == Run(View(), input, consumed)
    {
      hide Run, Step, M.Valid;
      ghost var was := View();
      RemainingIsPositive(was);
      var remaining := state.remaining;
      var copied := CopyBody(input, from, remaining);
      if copied.Failure? {
        return Failure(copied.error), from;
      }
      consumed := from + copied.value;
      remaining := remaining - copied.value;
      BodyKeepsValid(was, input[from..consumed]);
      if remaining == 0 {
        BulkBodyLast(was, input, from);
        var done := CompleteResponse();
        return Success(Some(FeedResult(consumed, Completed(done.value)))), consumed;
      }
      BulkBody(was, input, from, copied.value);
      state := FixedBody(remaining);
      r := Success(None);
    }

    method TakeChunkData(input: bytes, from: nat) returns (r: Result<(), Error>, consumed: nat)
      requires Valid() && state.ChunkData? && from < |input|
      modifies this
      ensures r.Failure? ==> old(offset) + (|input| - from) >= USIZE
      ensures r.Success? ==>
                && Valid() && from < consumed <= |input| && state != Done && offset == old(offset) + (consumed - from)
                && Run(old(View()), input, from) == Run(View(), input, consumed)
    {
      hide Run, Step, M.Valid;
      ghost var was := View();
      RemainingIsPositive(was);
      var remaining := state.remaining;
      var copied := CopyBody(input, from, remaining);
      if copied.Failure? {
        return Failure(copied.error), from;
      }
      consumed := from + copied.value;
      remaining := remaining - copied.value;
      BodyKeepsValid(was, input[from..consumed]);
      if remaining == 0 {
        BulkBodyLast(was, input, from);
        state := ChunkTerminator(0);
      } else {
        BulkBody(was, input, from, copied.value);
        state := ChunkData(remaining);
      }
      r := Success(());
    }

    method TakeTerminator(input: bytes, from: nat) returns (r: Result<(), Error>, consumed: nat)
      requires Valid() && state.ChunkTerminator? && from < |input|
      modifies this
      ensures r.Failure? ==> Run(old(View()), input, from).0 == Fail(r.error)
      ensures r.Success? ==>
                && Valid() && from < consumed <= |input| && state != Done && offset == old(offset) + (consumed - from)
                && Run(old(View()), input, from) == Run(View(), input, consumed)
    {
      hide Run, M.Valid;
      RunOnce(View(), input, from);
      StepKeepsValid(View(), input[from]);
      var seen := state.seen;
      if input[from] != (if seen == 0 then CR else LF) {
        return Failure(Error(InvalidChunkTerminator, offset)), from;
      }
      var moved := Advance(1);
      if moved.Failure? {
        return Failure(moved.error), from;
      }
      consumed := from + 1;
      if seen == 0 {
        state := ChunkTerminator(1);
      } else {
        lineStart := offset;
        state := ChunkSize;
      }
      r := Success(());
    }

    /** A close-delimited body checks the limit before it copies anything. */
    method TakeClose(input: bytes, from: nat) returns (r: Result<FeedResult, Error>)
      requires Valid() && state.CloseBody? && from <= |input|
      modifies this
      ensures r.Success? ==> Valid()
      ensures old(offset) + (|input| - from) < USIZE ==> Agrees(r, Run(old(View()), input, from), View())
    {
      hide Run, Step;
      ghost var was := View();
      if offset + (|input| - from) < USIZE {
        BulkClose(was, input, from);
      }
      var amount := |input| - from;
      var length := CheckedAdd(|body|, amount);
      if length.None? {
        return Failure(Error(BodyLimitExceeded, offset));
      }
      if length.value > limits.maxBody {
        var at := CheckedAdd(offset, limits.maxBody - |body|);
        return Failure(Error(BodyLimitExceeded, if at.Some? then at.value else offset));
      }
      body := body + input[from..];
      var moved := Advance(amount);
      if moved.Failure? {
        return Failure(moved.error);
      }
      r := Success(FeedResult(|input|, NeedMore));
    }

    /** One pass over a piece of input. Below the machine bound on offsets, the bulk copies and
        the computed offset of an over-limit close-delimited body are exactly the single steps. */
    method Feed(input: bytes) returns (r: Result<FeedResult, Error>)
      requires Valid()
      modifies this
      ensures r.Success? ==> Valid()
      ensures old(offset) + |input| < USIZE ==> Agrees(r, M.Feed(old(View()), input), View())
    {
      hide Run, OnLine, M.Valid;
      if state == Done {
        return Failure(Error(AlreadyComplete, offset));
      }
      var consumed := 0;
      ghost var start := View();
      ghost var fits := offset + |input| < USIZE;
      while true
        invariant consumed <= |input| && Valid() && state != Done
        invariant offset == start.offset + consumed
        invariant fits ==> Run(start, input, 0) == Run(View(), input, consumed)
        decreases |input| - consumed
      {
        if LineState(state) {
          ghost var was := View();
          var l, next := ReadLine(input, consumed, SectionOf(state));
          if l.Failure? {
            return Failure(l.error);
          }
          consumed := next;
          if l.value.None? {
            return Success(FeedResult(consumed, NeedMore));
          }
          var (text, at) := l.value.value;
          OnLineKeepsValid(View(), text, at);
          OnLineGoesOn(View(), text, at);
          var done := TakeLine(text, at);
          if done.Failure? {
            return Failure(done.error);
          }
          if done.value.Some? {
            return Success(FeedResult(consumed, Completed(done.value.value)));
          }
        } else if state.CloseBody? {
          r := TakeClose(input, consumed);
          return;
        } else {
          if consumed == |input| {
            RunOnce(View(), input, consumed);
            return Success(FeedResult(consumed, NeedMore));
          }
          if state.FixedBody? {
            var done, next := TakeFixed(input, consumed);
            if done.Failure? {
              return Failure(done.error);
            }
            if done.value.Some? {
              return Success(done.value.value);
            }
            consumed := next;
          } else {
            var done: Result<(), Error>;
            if state.ChunkData? {
              done, consumed := TakeChunkData(input, consumed);
            } else {
              done, consumed := TakeTerminator(input, consumed);
            }
            if done.Failure? {
              return Failure(done.error);
            }
          }
        }
      }
    }

    /** End of input: only a close-delimited body may end here. */
    method Eof() returns (r: Result<Response, Error>)
      modifies this
      ensures match M.FinishEof(old(View()))
              case Fail(e) => r == Failure(e)
              case Complete(response, q) => r == Success(response) && View() == q
              case More(_) => false
    {
      if state.CloseBody? && !pendingCr {
        r := CompleteResponse();
      } else if state.Done? {
        r := Failure(Error(AlreadyComplete, offset));
      } else {
        r := Failure(Error(UnexpectedEof, offset));
      }
    }
  }
}
