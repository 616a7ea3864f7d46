/** The pooled HTTP/1.1 client: one exchange at a time, reuse only on exact message boundaries. */
module Client {
  import opened Wrappers
  import opened Bytes
  import opened Transport
  import M = ResponseModel
  import P = ResponseParsing
  import W = RequestWriter
  import D = RequestDecoder

  datatype ClientError =
    | InvalidUrl | InvalidProfile | InvalidTimeout | Closed | Elapsed | Connection | TlsFailed
    | BadCertificate | TransportFailed | RequestRejected | ResponseRejected

  /** The URL parser's answer; `None` in a request stands for a URL it rejects. */
  datatype ParsedUrl = ParsedUrl(scheme: Scheme, host: string, port: nat, target: bytes, authority: bytes)
  datatype ClientRequest = ClientRequest(verb: bytes, url: Option<ParsedUrl>, headers: seq<M.Field>, body: bytes,
                                         verification: VerificationMode, profile: string)
  datatype ClientResponse = ClientResponse(head: M.ResponseHead, body: bytes)

  const READ_BUFFER_BYTES: nat := 16 * 1024
  const HEAD: bytes := [72, 69, 65, 68]

  function MapTransport(e: TransportError): ClientError {
    match e
    case Io => Connection
    case Timeout => Elapsed
    case Tls => TlsFailed
    case Unsupported => TlsFailed
    case Certificate => BadCertificate
    case InvalidArgument => TransportFailed
    case BadState => TransportFailed
  }

  function OriginOf(r: ClientRequest, url: ParsedUrl): Origin {
    Origin(url.scheme, url.host, url.port, r.profile, r.verification)
  }

  /** The wire request: an empty body is no body. */
  function WireRequest(r: ClientRequest, url: ParsedUrl): W.Request {
    W.Request(r.verb, url.target, url.authority, r.headers, if r.body == [] then W.NoBody else W.Fixed(r.body))
  }

  function SemanticsOf(verb: bytes): M.Semantics {
    if EqIgnoreCase(verb, HEAD) then M.Head else M.Normal
  }

  /** One completed request and response on a stream. */
  datatype Exchange = Exchange(request: W.Request, semantics: M.Semantics, response: M.Response)

  function Sent(es: seq<Exchange>): bytes {
    if es == [] then [] else Sent(es[..|es| - 1]) + Octets(es[|es| - 1].request)
  }

  /** The octets of an accepted request. */
  function Octets(r: W.Request): bytes {
    var w := W.Serialize(r, W.DEFAULT_REQUEST_LIMITS);
    if w.Success? then w.value else []
  }

  /** Reference reading of an incoming octet stream: message after message, back to back. */
  function Split(incoming: bytes, semantics: seq<M.Semantics>): (r: Option<(seq<M.Response>, nat)>)
    ensures r.Some? ==> r.value.1 <= |incoming| && |r.value.0| == |semantics|
    decreases |semantics|
  {
    if semantics == [] then Some(([], 0))
    else
      var n := |semantics| - 1;
      var before := Split(incoming, semantics[..n]);
      if before.None? then None
      else
        var r := M.Run(M.New(semantics[n], M.DEFAULT_LIMITS), incoming, before.value.1);
        if r.0.Complete? then Some((before.value.0 + [r.0.response], r.1)) else None
  }

  function Semantics(es: seq<Exchange>): (s: seq<M.Semantics>)
    ensures |s| == |es|
  {
    seq(|es|, i requires 0 <= i < |es| => es[i].semantics)
  }

  function Responses(es: seq<Exchange>): (s: seq<M.Response>)
    ensures |s| == |es|
  {
    seq(|es|, i requires 0 <= i < |es| => es[i].response)
  }

  /** Nothing is out of step: exactly the requests were written, in order, and exactly the first
      `|es|` messages were read, the k-th being the k-th response; none of them announced a close. */
  predicate Aligned(s: Stream, es: seq<Exchange>) {
    && s.Valid()
    && s.written == Sent(es)
    && Split(s.incoming, Semantics(es)) == Some((Responses(es), s.position))
    && (forall e <- es ::
          && W.Serialize(e.request, W.DEFAULT_REQUEST_LIMITS).Success?
          && !e.request.body.Chunked? && !e.response.connectionClose)
  }

  lemma AlignedSnoc(s: Stream, es: seq<Exchange>, t: Stream, e: Exchange)
    requires Aligned(s, es) && t.SameAs(s) && t.Valid()
    requires W.Serialize(e.request, W.DEFAULT_REQUEST_LIMITS).Success?
    requires !e.request.body.Chunked? && !e.response.connectionClose
    requires t.written == s.written + Octets(e.request)
    requires var r := M.Run(M.New(e.semantics, M.DEFAULT_LIMITS), s.incoming, s.position);
             r.0.Complete? && r.0.response == e.response && r.1 == t.position
    ensures Aligned(t, es + [e])
  {
    hide M.Run, W.Serialize, Octets;
    var all := es + [e];
    assert all[..|es|] == es;
    assert Semantics(all)[..|es|] == Semantics(es);
    assert Responses(all) == Responses(es) + [e.response];
  }

  // ----- one exchange -----

  /** What reading a response from `start` to `end` means. */
  ghost predicate ReadResponse(incoming: bytes, semantics: M.Semantics, start: nat, end: nat, response: M.Response, reusable: bool)
    requires start <= end <= |incoming|
  {
    var whole := M.Run(M.New(semantics, M.DEFAULT_LIMITS), incoming, start);
    var part := M.Run(M.New(semantics, M.DEFAULT_LIMITS), incoming[..end], start);
    if part.0.Complete? then
      && part.0.response == response && whole == part
      && (reusable <==> part.1 == end && !response.connectionClose)
    else
      && part.0.More? && !reusable
      && M.FinishEof(part.0.parser).Complete? && M.FinishEof(part.0.parser).response == response
  }

  /** Time may run out before any blocking call. */
  method Remaining() returns (r: Result<(), ClientError>)
    ensures r.Failure? ==> r.error == Elapsed
  {
    var elapsed: bool := *;
    r := if elapsed then Failure(Elapsed) else Success(());
  }

  method WriteAll(stream: Stream, octets: bytes) returns (r: Result<(), ClientError>, s: Stream)
    ensures s.SameAs(stream) && s.position == stream.position
    ensures r.Success? ==> s.written == stream.written + octets
  {
    s := stream;
    var written := 0;
    while written < |octets|
      invariant written <= |octets| && s.SameAs(stream) && s.position == stream.position
      invariant s.written == stream.written + octets[..written]
    {
      r := Remaining();
      if r.Failure? {
        return;
      }
      ghost var before := s;
      var amount;
      amount, s := Write(s, octets[written..]);
      if amount.Failure? {
        return Failure(MapTransport(amount.error)), s;
      }
      if amount.value == 0 || amount.value > |octets| - written {
        return Failure(TransportFailed), s;
      }
      assert octets[..written + amount.value] == octets[..written] + octets[written..][..amount.value];
      written := written + amount.value;
    }
    assert octets[..written] == octets;
    r := Success(());
  }

  lemma PieceRead(p: M.Parser, incoming: bytes, i: nat, j: nat, fed: (M.Outcome, nat))
    requires i <= j <= |incoming| && !p.state.Done?
    requires fed == M.Feed(p, incoming[i..j])
    ensures fed.0.More? ==>
              M.Run(p, incoming[..j], i) == (fed.0, j) && M.Run(p, incoming, i) == M.Run(fed.0.parser, incoming, j)
    ensures !fed.0.More? ==>
              M.Run(p, incoming[..j], i) == (fed.0, i + fed.1) && M.Run(p, incoming, i) == (fed.0, i + fed.1)
  {
    hide M.Run;
    M.RunWithin(p, incoming, i, j);
    assert incoming[..j][i..j] == incoming[i..j];
    M.RunWithin(p, incoming[..j], i, j);
    if fed.0.More? {
      P.RunOnce(fed.0.parser, incoming[..j], j);
    }
  }

  lemma RunExtends(p: M.Parser, q: M.Parser, incoming: bytes, start: nat, i: nat, j: nat)
    requires start <= i <= j <= |incoming| && M.Run(p, incoming[..i], start) == (M.More(q), i)
    ensures M.Run(p, incoming[..j], start) == M.Run(q, incoming[..j], i)
  {
    hide M.Run;
    M.RunConcat(p, incoming[..i], incoming[i..j], start);
    assert incoming[..i] + incoming[i..j] == incoming[..j];
  }

  /** The next piece, fed to the parser that has read everything from `start` to `i`. */
  lemma Fed(p: M.Parser, q: M.Parser, incoming: bytes, start: nat, i: nat, j: nat)
    requires start <= i <= j <= |incoming| && M.Valid(q) && !q.state.Done?
    requires M.Run(p, incoming[..i], start) == (M.More(q), i) && M.Run(p, incoming, start) == M.Run(q, incoming, i)
    ensures var (o, n) := M.Feed(q, incoming[i..j]);
            if o.More? then
              && M.Run(p, incoming[..j], start) == (o, j) && M.Run(p, incoming, start) == M.Run(o.parser, incoming, j)
              && !o.parser.state.Done? && o.parser.offset == q.offset + (j - i)
            else
              M.Run(p, incoming[..j], start) == M.Run(p, incoming, start) == (o, i + n)
  {
    hide M.Run, M.Valid;
    var data := incoming[i..j];
    RunExtends(p, q, incoming, start, i, j);
    PieceRead(q, incoming, i, j, M.Feed(q, data));
    if M.Feed(q, data).0.More? {
      M.RunNotDone(q, data, 0);
      M.RunKeepsValid(q, data, 0);
    }
  }

  lemma EndsByClose(incoming: bytes, semantics: M.Semantics, start: nat, end: nat, p: M.Parser, response: M.Response)
    requires start <= end <= |incoming|
    requires M.Run(M.New(semantics, M.DEFAULT_LIMITS), incoming[..end], start).0 == M.More(p)
    requires M.FinishEof(p).Complete? && M.FinishEof(p).response == response
    ensures ReadResponse(incoming, semantics, start, end, response, false)
  {}

  lemma EndsInside(incoming: bytes, semantics: M.Semantics, start: nat, end: nat, response: M.Response, reusable: bool)
    requires start <= end <= |incoming|
    requires var part := M.Run(M.New(semantics, M.DEFAULT_LIMITS), incoming[..end], start);
             && part == M.Run(M.New(semantics, M.DEFAULT_LIMITS), incoming, start)
             && part.0.Complete? && part.0.response == response
             && (reusable <==> part.1 == end && !response.connectionClose)
    ensures ReadResponse(incoming, semantics, start, end, response, reusable)
  {}

  /** The read loop of an exchange: feed what arrives until the parser is done or input ends. */
  method ReadAll(stream: Stream, semantics: M.Semantics) returns (r: Result<(M.Response, bool), ClientError>, s: Stream)
    requires stream.Valid()
    ensures s.SameAs(stream) && s.written == stream.written && s.Valid() && stream.position <= s.position
    ensures r.Success? ==> ReadResponse(stream.incoming, semantics, stream.position, s.position, r.value.0, r.value.1)
  {
    hide M.Run, M.Valid, M.Feed, M.FinishEof, ReadResponse;
    s := stream;
    var parser := new P.ResponseParser(semantics, M.DEFAULT_LIMITS);
    ghost var initial := parser.View();
    ghost var incoming, start := stream.incoming, stream.position;
    P.RunOnce(initial, incoming[..start], start);
    while true
      invariant s.SameAs(stream) && s.written == stream.written && s.Valid() && start <= s.position
      invariant parser.Valid() && parser.state != M.Done && parser.offset == s.position - start
      invariant M.Run(initial, incoming[..s.position], start) == (M.More(parser.View()), s.position)
      invariant M.Run(initial, incoming, start) == M.Run(parser.View(), incoming, s.position)
      decreases |incoming| - s.position
    {
      var time := Remaining();
      if time.Failure? {
        return Failure(time.error), s;
      }
      ghost var i, before := s.position, parser.View();
      var read;
      read, s := Read(s, READ_BUFFER_BYTES);
      if read.Failure? {
        return Failure(MapTransport(read.error)), s;
      }
      var (amount, data) := read.value;
      if amount > READ_BUFFER_BYTES {
        return Failure(TransportFailed), s;
      }
      if amount == 0 {
        var last := parser.Eof();
        if last.Failure? {
          return Failure(ResponseRejected), s;
        }
        EndsByClose(incoming, semantics, start, s.position, before, last.value);
        return Success((last.value, false)), s;
      }
      Fed(initial, before, incoming, start, i, s.position);
      var fed := parser.Feed(data);
      if fed.Failure? {
        return Failure(ResponseRejected), s;
      }
      if fed.value.status.Completed? {
        var reusable := fed.value.consumed == amount && !fed.value.status.response.connectionClose;
        EndsInside(incoming, semantics, start, s.position, fed.value.status.response, reusable);
        return Success((fed.value.status.response, reusable)), s;
      }
    }
  }

  /** `exchange`: serialize, write everything, read one response, decide on reuse. */
  method DoExchange(stream: Stream, request: ClientRequest, url: ParsedUrl)
    returns (r: Result<(M.Response, bool), ClientError>, s: Stream)
    requires stream.Valid()
    ensures s.SameAs(stream) && s.Valid() && stream.position <= s.position
    ensures r.Success? ==>
              && W.Serialize(WireRequest(request, url), W.DEFAULT_REQUEST_LIMITS).Success?
              && s.written == stream.written + Octets(WireRequest(request, url))
              && ReadResponse(stream.incoming, SemanticsOf(request.verb), stream.position, s.position, r.value.0, r.value.1)
  {
    hide W.Serialize, ReadResponse, EqIgnoreCase;
    s := stream;
    var octets := W.SerializeRequest(WireRequest(request, url), W.DEFAULT_REQUEST_LIMITS);
    if octets.Failure? {
      return Failure(RequestRejected), s;
    }
    var wrote;
    wrote, s := WriteAll(s, octets.value);
    if wrote.Failure? {
      return Failure(wrote.error), s;
    }
    r, s := ReadAll(s, SemanticsOf(request.verb));
  }

  /** A reusable exchange extends the aligned history of its stream. */
  lemma ReuseKeepsAligned(before: Stream, es: seq<Exchange>, after: Stream, e: Exchange)
    requires Aligned(before, es) && after.SameAs(before) && after.Valid() && before.position <= after.position
    requires W.Serialize(e.request, W.DEFAULT_REQUEST_LIMITS).Success? && !e.request.body.Chunked?
    requires after.written == before.written + Octets(e.request)
    requires ReadResponse(before.incoming, e.semantics, before.position, after.position, e.response, true)
    ensures Aligned(after, es + [e])
  {
    hide M.Run, W.Serialize, Octets, M.FinishEof;
    AlignedSnoc(before, es, after, e);
  }

  lemma FreshIsAligned(s: Stream)
    requires s.Valid() && s.position == 0 && s.written == []
    ensures Aligned(s, [])
  {}

  // ----- the books of the pool -----

  /** The pool with its history: `closes` counts close calls, `log` holds the completed
      exchanges of every stream ever opened. */
  datatype Books = Books(connects: nat, idle: map<Origin, Stream>, closed: bool,
                         closes: nat, closedIds: set<nat>, log: map<nat, seq<Exchange>>)

  /** Every stream ever opened is in exactly one place: idle under the origin it was opened for,
      given one close call, or held by the exchange in progress. Idle streams are aligned. */
  ghost predicate Kept(b: Books, held: Option<Stream>) {
    && (b.closed ==> b.idle == map[])
    && b.connects == b.closes + |b.idle| + (if held.Some? then 1 else 0)
    && Listed(b) && Idles(b) && Placed(b, held)
  }

  ghost predicate Listed(b: Books) {
    && (forall id: nat :: id in b.log <==> id < b.connects)
    && (forall id <- b.closedIds :: id < b.connects)
  }

  ghost predicate Idles(b: Books) {
    && (forall o <- b.idle :: IdleOk(b, o))
    && (forall o, p :: o in b.idle && p in b.idle && b.idle[o].id == b.idle[p].id ==> o == p)
  }

  ghost predicate Placed(b: Books, held: Option<Stream>) {
    && (forall id: nat :: id < b.connects ==> id in b.closedIds || IsIdle(b, id) || (held.Some? && held.value.id == id))
    && (held.Some? ==>
          && held.value.Valid() && held.value.id < b.connects && held.value.id !in b.closedIds
          && !IsIdle(b, held.value.id))
  }

  ghost predicate IdleOk(b: Books, o: Origin)
    requires o in b.idle
  {
    var s := b.idle[o];
    && s.Valid() && s.openedFor == o && s.id < b.connects && s.id !in b.closedIds
    && s.id in b.log && Aligned(s, b.log[s.id])
  }

  ghost predicate IsIdle(b: Books, id: nat) {
    exists o :: o in b.idle && b.idle[o].id == id
  }

  lemma NewBooks()
    ensures Kept(Books(0, map[], false, 0, {}, map[]), None)
  {}

  /** Books that differ only in what concerns another stream agree on this one. */
  lemma IdleElsewhere(b: Books, c: Books, p: Origin, id: nat)
    requires p in b.idle && IdleOk(b, p) && p in c.idle && c.idle[p] == b.idle[p]
    requires b.idle[p].id != id && b.connects <= c.connects && c.closedIds <= b.closedIds + {id}
    requires forall i :: i in b.log && i != id ==> i in c.log && c.log[i] == b.log[i]
    ensures IdleOk(c, p)
  {
    hide Aligned;
  }

  lemma IdIsIdle(b: Books, p: Origin)
    requires p in b.idle
    ensures IsIdle(b, b.idle[p].id) && (IdleOk(b, p) ==> b.idle[p].id < b.connects)
  {
    hide Aligned;
  }

  /** What is idle under another origin in both is idle in both. */
  lemma SameIdle(b: Books, c: Books, o: Origin, id: nat)
    requires b.idle - {o} == c.idle - {o}
    requires (o in b.idle ==> b.idle[o].id != id) && (o in c.idle ==> c.idle[o].id != id)
    ensures IsIdle(b, id) <==> IsIdle(c, id)
  {
    if IsIdle(b, id) {
      var p :| p in b.idle && b.idle[p].id == id;
      assert p in b.idle - {o} && c.idle[p] == b.idle[p];
    }
    if IsIdle(c, id) {
      var p :| p in c.idle && c.idle[p].id == id;
      assert p in c.idle - {o} && b.idle[p] == c.idle[p];
    }
  }

  lemma RemoveOne<K, V>(m: map<K, V>, k: K)
    requires k in m
    ensures |m - {k}| == |m| - 1
  {
    assert (m - {k}).Keys == m.Keys - {k};
    assert |m.Keys| == |m| && |(m - {k}).Keys| == |m - {k}|;
  }

  lemma AddOne<K, V>(m: map<K, V>, k: K, v: V)
    requires k !in m
    ensures |m[k := v]| == |m| + 1
  {
    assert m[k := v].Keys == m.Keys + {k};
    assert |m.Keys| == |m| && |m[k := v].Keys| == |m[k := v]|;
  }

  lemma NoneIdle(b: Books, id: nat)
    requires forall p <- b.idle :: b.idle[p].id != id
    ensures !IsIdle(b, id)
  {}

  /** Fewer or unchanged idle streams, while something else happens to stream `id`. */
  lemma IdlesElsewhere(b: Books, c: Books, id: nat)
    requires Idles(b) && (forall p <- c.idle :: p in b.idle && c.idle[p] == b.idle[p] && c.idle[p].id != id)
    requires b.connects <= c.connects && c.closedIds <= b.closedIds + {id}
    requires forall i :: i in b.log && i != id ==> i in c.log && c.log[i] == b.log[i]
    ensures Idles(c)
  {
    hide IdleOk;
    forall p <- c.idle
      ensures IdleOk(c, p)
    {
      IdleElsewhere(b, c, p, id);
    }
  }

  lemma TakeOut(b: Books, o: Origin)
    requires Kept(b, None) && o in b.idle
    ensures Kept(b.(idle := b.idle - {o}), Some(b.idle[o])) && b.idle[o].Valid()
    ensures b.idle[o].openedFor == o && b.idle[o].id in b.log && Aligned(b.idle[o], b.log[b.idle[o].id])
  {
    hide Aligned, IsIdle;
    var c, id := b.(idle := b.idle - {o}), b.idle[o].id;
    assert IdleOk(b, o);
    hide IdleOk;
    RemoveOne(b.idle, o);
    IdlesElsewhere(b, c, id);
    hide Idles;
    NoneIdle(c, id);
    TakeOutPlaced(b, o);
    hide Placed;
  }

  lemma TakeOutPlaced(b: Books, o: Origin)
    requires Placed(b, None) && o in b.idle && b.idle[o].Valid() && b.idle[o].id < b.connects && b.idle[o].id !in b.closedIds
    requires !IsIdle(b.(idle := b.idle - {o}), b.idle[o].id)
    ensures Placed(b.(idle := b.idle - {o}), Some(b.idle[o]))
  {
    hide IsIdle;
    var c := b.(idle := b.idle - {o});
    forall i: nat | i != b.idle[o].id
      ensures IsIdle(b, i) <==> IsIdle(c, i)
    {
      SameIdle(b, c, o, i);
    }
  }

  lemma OpenOne(b: Books, s: Stream)
    requires Kept(b, None) && s.Valid() && s.id == b.connects
    ensures Kept(b.(connects := b.connects + 1, log := b.log[s.id := []]), Some(s))
  {
    hide Aligned, IdleOk, IsIdle, Listed, Idles;
    var c := b.(connects := b.connects + 1, log := b.log[s.id := []]);
    OpenListed(b, c, s.id);
    OpenIdles(b, c, s.id);
    SameBooks(b, c);
  }

  lemma OpenListed(b: Books, c: Books, id: nat)
    requires Listed(b) && id == b.connects && c == b.(connects := id + 1, log := b.log[id := []])
    ensures Listed(c) && id !in b.closedIds
  {}

  lemma OpenIdles(b: Books, c: Books, id: nat)
    requires Idles(b) && id == b.connects && c == b.(connects := id + 1, log := b.log[id := []])
    ensures Idles(c) && !IsIdle(c, id)
  {
    hide Aligned, IdleOk, IsIdle;
    forall p | p in b.idle
      ensures b.idle[p].id != id
    {
      IdIsIdle(b, p);
    }
    IdlesElsewhere(b, c, id);
    NoneIdle(c, id);
  }

  lemma SameBooks(b: Books, c: Books)
    requires b.idle == c.idle
    ensures forall id :: IsIdle(b, id) <==> IsIdle(c, id)
  {}

  lemma CloseHeld(b: Books, s: Stream)
    requires Kept(b, Some(s))
    ensures Kept(b.(closes := b.closes + 1, closedIds := b.closedIds + {s.id}), None)
  {
    hide Aligned, IdleOk, IsIdle;
    var c := b.(closes := b.closes + 1, closedIds := b.closedIds + {s.id});
    forall p | p in c.idle
      ensures c.idle[p].id != s.id
    {
      IdIsIdle(b, p);
    }
    IdlesElsewhere(b, c, s.id);
    hide Idles;
    SameBooks(b, c);
  }

  /** The exchange in progress completed with `e`. */
  lemma LogHeld(b: Books, s: Stream, t: Stream, e: Exchange)
    requires Kept(b, Some(s)) && t.SameAs(s) && t.Valid()
    ensures s.id in b.log && Kept(b.(log := b.log[s.id := b.log[s.id] + [e]]), Some(t))
  {
    hide Aligned, IdleOk, IsIdle;
    var c := b.(log := b.log[s.id := b.log[s.id] + [e]]);
    forall p | p in c.idle
      ensures c.idle[p].id != s.id
    {
      IdIsIdle(b, p);
    }
    IdlesElsewhere(b, c, s.id);
    hide Idles;
    SameBooks(b, c);
  }

  lemma PutBackIdles(b: Books, s: Stream)
    requires Idles(b) && s.openedFor !in b.idle && s.id < b.connects && s.id !in b.closedIds && !IsIdle(b, s.id)
    requires s.Valid() && s.id in b.log && Aligned(s, b.log[s.id])
    ensures Idles(b.(idle := b.idle[s.openedFor := s]))
  {
    hide Aligned, IsIdle;
    var c := b.(idle := b.idle[s.openedFor := s]);
    assert IdleOk(c, s.openedFor);
    hide IdleOk;
    forall p | p in b.idle
      ensures IdleOk(c, p) && b.idle[p].id != s.id
    {
      IdIsIdle(b, p);
      IdleElsewhere(b, c, p, s.id);
    }
  }

  lemma PutBack(b: Books, s: Stream)
    requires Kept(b, Some(s)) && !b.closed && s.openedFor !in b.idle
    requires s.id in b.log && Aligned(s, b.log[s.id])
    ensures Kept(b.(idle := b.idle[s.openedFor := s]), None)
  {
    hide Aligned, Idles;
    PutBackIdles(b, s);
    PutBackPlaced(b, s);
    AddOne(b.idle, s.openedFor, s);
    hide Placed;
  }

  lemma PutBackPlaced(b: Books, s: Stream)
    requires Placed(b, Some(s)) && s.openedFor !in b.idle
    ensures Placed(b.(idle := b.idle[s.openedFor := s]), None)
  {
    hide IsIdle;
    var c := b.(idle := b.idle[s.openedFor := s]);
    forall id: nat | id < c.connects
      ensures id in c.closedIds || IsIdle(c, id)
    {
      if id == s.id {
        IdIsIdle(c, s.openedFor);
      } else {
        SameIdle(b, c, s.openedFor, id);
      }
    }
  }

  /** From the books `b`, stream `s` was obtained for `origin`: the pooled one, on a message boundary, or a new one. */
  ghost predicate Obtained(b: Books, origin: Origin, c: Books, s: Stream) {
    && Kept(c, Some(s)) && s.Valid() && s.openedFor == origin
    && s.id in c.log && Aligned(s, c.log[s.id])
    && if origin in b.idle then s == b.idle[origin] && c == b.(idle := b.idle - {origin})
       else s.id == b.connects && s.id !in b.log && c == b.(connects := b.connects + 1, log := b.log[s.id := []])
  }

  lemma TakenOut(b: Books, origin: Origin, c: Books, s: Stream)
    requires Obtained(b, origin, c, s)
    ensures Kept(c, Some(s)) && s.Valid() && s.id in c.log
    ensures c.closed == b.closed && c.idle == b.idle - {origin} && origin !in c.idle
  {
    hide Kept, Aligned;
    assert origin !in b.idle ==> b.idle - {origin} == b.idle;
  }

  /** One request from the books `b` to the books `c`: read on one stream opened for exactly this origin, the pooled one
      if there was one, starting on a message boundary; that stream's history grows by exactly this exchange, and it is
      pooled again if and only if the response ended with the last octet read and did not announce a close. */
  ghost predicate Executed(b: Books, request: ClientRequest, url: ParsedUrl, c: Books, before: Stream, after: Stream, e: Exchange) {
    && e.request == WireRequest(request, url) && e.semantics == SemanticsOf(request.verb)
    && var origin := OriginOf(request, url);
       var es := if before.id in b.log then b.log[before.id] else [];
       && (if origin in b.idle then before == b.idle[origin] && c.connects == b.connects
           else before.id == b.connects && c.connects == b.connects + 1)
       && before.openedFor == origin && Aligned(before, es)
       && c.log == b.log[before.id := es + [e]]
       && after.SameAs(before) && after.Valid() && before.position <= after.position
       && after.written == before.written + Octets(e.request)
       && ReadResponse(before.incoming, e.semantics, before.position, after.position, e.response, origin in c.idle)
       && (origin in c.idle ==> c.idle[origin] == after)
  }

  /** The books after the exchange `e` on stream `s`, which is then pooled or closed. */
  function Finished(c: Books, origin: Origin, s: Stream, e: Exchange, reusable: bool): Books
    requires s.id in c.log
  {
    var logged := c.(log := c.log[s.id := c.log[s.id] + [e]]);
    if reusable then logged.(idle := logged.idle[origin := s])
    else logged.(closes := logged.closes + 1, closedIds := logged.closedIds + {s.id})
  }

  lemma FinishesKept(c: Books, s: Stream, t: Stream, e: Exchange, reusable: bool)
    requires Kept(c, Some(s)) && !c.closed && s.id in c.log && Aligned(s, c.log[s.id]) && s.openedFor !in c.idle
    requires t.SameAs(s) && t.Valid() && s.position <= t.position
    requires W.Serialize(e.request, W.DEFAULT_REQUEST_LIMITS).Success? && !e.request.body.Chunked?
    requires t.written == s.written + Octets(e.request)
    requires ReadResponse(s.incoming, e.semantics, s.position, t.position, e.response, reusable)
    ensures Kept(c.(log := c.log[s.id := c.log[s.id] + [e]]), Some(t))
    ensures reusable ==> Kept(Finished(c, s.openedFor, t, e, reusable), None)
  {
    hide Kept, Aligned, ReadResponse, W.Serialize, Octets;
    LogHeld(c, s, t, e);
    if reusable {
      ReuseKeepsAligned(s, c.log[s.id], t, e);
      PutBack(c.(log := c.log[s.id := c.log[s.id] + [e]]), t);
    }
  }

  lemma Finishes(b: Books, request: ClientRequest, url: ParsedUrl, c: Books, s: Stream, t: Stream, e: Exchange, reusable: bool)
    requires Obtained(b, OriginOf(request, url), c, s) && !c.closed && OriginOf(request, url) !in c.idle && s.id in c.log
    requires t.SameAs(s) && t.Valid() && s.position <= t.position
    requires e.request == WireRequest(request, url) && e.semantics == SemanticsOf(request.verb)
    requires W.Serialize(e.request, W.DEFAULT_REQUEST_LIMITS).Success?
    requires t.written == s.written + Octets(e.request)
    requires ReadResponse(s.incoming, e.semantics, s.position, t.position, e.response, reusable)
    ensures Kept(c.(log := c.log[s.id := c.log[s.id] + [e]]), Some(t))
    ensures var d := Finished(c, OriginOf(request, url), t, e, reusable);
            (reusable ==> Kept(d, None)) && Executed(b, request, url, d, s, t, e)
  {
    hide Kept, Aligned, ReadResponse, SemanticsOf, Octets, W.Serialize;
    FinishesKept(c, s, t, e, reusable);
  }

  lemma PoolObtains(b: Books, origin: Origin)
    requires Kept(b, None) && origin in b.idle
    ensures Obtained(b, origin, b.(idle := b.idle - {origin}), b.idle[origin])
  {
    hide Kept, Aligned;
    TakeOut(b, origin);
  }

  lemma ConnectObtains(b: Books, origin: Origin, s: Stream)
    requires Kept(b, None) && origin !in b.idle
    requires s.Valid() && s.id == b.connects && s.openedFor == origin && s.position == 0 && s.written == []
    ensures Obtained(b, origin, b.(connects := b.connects + 1, log := b.log[s.id := []]), s)
  {
    hide Kept, Aligned;
    LogKeys(b);
    OpenOne(b, s);
    FreshIsAligned(s);
  }

  // ----- what alignment means for the two peers -----

  lemma {:induction false} SentSplit(es: seq<Exchange>, k: nat) returns (rest: bytes)
    requires k < |es|
    ensures Sent(es) == Sent(es[..k]) + (Octets(es[k].request) + rest)
    decreases |es|
  {
    hide Octets;
    var n := |es| - 1;
    if k == n {
      rest := [];
      assert Octets(es[n].request) + [] == Octets(es[n].request);
    } else {
      var shorter := SentSplit(es[..n], k);
      assert es[..n][..k] == es[..k];
      rest := shorter + Octets(es[n].request);
      var o := Octets(es[k].request);
      assert Sent(es[..k]) + (o + shorter) + Octets(es[n].request) == Sent(es[..k]) + (o + rest);
    }
  }

  /** A strict server that reads an aligned stream from the boundary after `k` requests finds there exactly
      the k-th request the client made on it, and the next boundary right behind it. */
  lemma ServerReadsEveryRequest(s: Stream, es: seq<Exchange>, k: nat)
    requires Aligned(s, es) && k < |es|
    ensures var from := |Sent(es[..k])|;
            && from <= |s.written| && W.MakePlan(es[k].request, W.DEFAULT_REQUEST_LIMITS).Success?
            && D.Decode(s.written[from..]) ==
                 Some((D.Expected(es[k].request, W.MakePlan(es[k].request, W.DEFAULT_REQUEST_LIMITS).value),
                       |Octets(es[k].request)|))
  {
    hide D.Decode, D.Expected, W.MakePlan, Split;
    var rest := SentSplit(es, k);
    var from := |Sent(es[..k])|;
    assert es[k] in es;
    assert s.written[from..] == Octets(es[k].request) + rest;
    D.PlanOf(es[k].request, W.DEFAULT_REQUEST_LIMITS);
    D.RequestRoundTrip(es[k].request, W.DEFAULT_REQUEST_LIMITS, rest);
  }

  /** The k-th response recorded on an aligned stream is the k-th message of its incoming octets. */
  lemma {:induction false} ResponseIsItsMessage(s: Stream, es: seq<Exchange>, k: nat)
    requires Aligned(s, es) && k < |es|
    ensures var before := Split(s.incoming, Semantics(es)[..k]);
            && before.Some?
            && var run := M.Run(M.New(es[k].semantics, M.DEFAULT_LIMITS), s.incoming, before.value.1);
               && run.0.Complete? && run.0.response == es[k].response
               && (k + 1 == |es| ==> run.1 == s.position)
  {
    hide M.Run, Split, Sent, W.Serialize;
    SplitAt(s.incoming, Semantics(es), k);
    assert es[k] in es;
    assert Semantics(es)[..|es|] == Semantics(es);
    assert Responses(es)[k] == es[k].response;
  }

  lemma {:induction false} SplitAt(incoming: bytes, semantics: seq<M.Semantics>, k: nat)
    requires k < |semantics| && Split(incoming, semantics).Some?
    ensures var before := Split(incoming, semantics[..k]);
            && before.Some?
            && var run := M.Run(M.New(semantics[k], M.DEFAULT_LIMITS), incoming, before.value.1);
               && run.0.Complete? && run.0.response == Split(incoming, semantics).value.0[k]
               && (k + 1 == |semantics| ==> run.1 == Split(incoming, semantics).value.1)
    decreases |semantics|
  {
    hide M.Run;
    var n := |semantics| - 1;
    if k < n {
      assert semantics[..n][..k] == semantics[..k];
      SplitAt(incoming, semantics[..n], k);
    }
  }

  // ----- the client -----

  class Http1Client {
    const connector: Connector
    var idle: map<Origin, Stream>
    var closed: bool
    ghost var closes: nat
    ghost var closedIds: set<nat>
    ghost var log: map<nat, seq<Exchange>>

    ghost function View(): Books
      reads this, connector
    {
      Books(connector.connects, idle, closed, closes, closedIds, log)
    }

    ghost predicate Valid()
      reads this, connector
    {
      Kept(View(), None)
    }

    constructor (connector: Connector)
      requires connector.connects == 0
      ensures Valid() && View() == Books(0, map[], false, 0, {}, map[]) && this.connector == connector
    {
      this.connector := connector;
      idle, closed := map[], false;
      closes, closedIds, log := 0, {}, map[];
      new;
      NewBooks();
    }

    /** A stream out of the pool is given its one close call. */
    method CloseStream(s: Stream)
      requires Kept(View(), Some(s))
      modifies this`closes, this`closedIds
      ensures Valid()
      ensures View() == old(View()).(closes := old(closes) + 1, closedIds := old(closedIds) + {s.id})
    {
      hide Kept, Aligned;
      CloseHeld(View(), s);
      closes := closes + 1;
      closedIds := closedIds + {s.id};
    }

    /** A pooled stream of this origin, or a new connection to exactly this target. */
    method Obtain(origin: Origin) returns (r: Result<Stream, ClientError>)
      requires Valid() && !closed
      modifies this, connector
      ensures r.Failure? ==> Valid() && View() == old(View()) && origin !in idle
      ensures r.Success? ==> Obtained(old(View()), origin, View(), r.value)
    {
      hide Kept, Aligned, Obtained;
      if origin in idle {
        PoolObtains(View(), origin);
        r := Success(idle[origin]);
        idle := idle - {origin};
        return;
      }
      var time := Remaining();
      if time.Failure? {
        return Failure(time.error);
      }
      var stream := connector.Connect(origin);
      if stream.Failure? {
        return Failure(MapTransport(stream.error));
      }
      ConnectObtains(old(View()), origin, stream.value);
      log := log[stream.value.id := []];
      r := Success(stream.value);
    }

    /** One request; `Executed` says what a successful one did. Other pooled streams are untouched. */
    method Execute(request: ClientRequest)
      returns (r: Result<ClientResponse, ClientError>, ghost before: Stream, ghost after: Stream, ghost e: Exchange)
      requires Valid()
      modifies this, connector
      ensures Valid() && closed == old(closed)
      ensures old(closed) ==> r == Failure(Closed) && View() == old(View())
      ensures request.url.None? ==> r.Failure? && View() == old(View())
      ensures request.url.Some? ==>
                var origin := OriginOf(request, request.url.value);
                && idle - {origin} == old(idle) - {origin}
                && (r.Failure? && origin !in old(idle) ==> origin !in idle)
      ensures r.Success? ==>
                && request.url.Some? && r.value == ClientResponse(e.response.head, e.response.body)
                && Executed(old(View()), request, request.url.value, View(), before, after, e)
    {
      hide Kept, Aligned, ReadResponse, Obtained, Executed, WireRequest, SemanticsOf, Octets, W.Serialize;
      before, after, e := *, *, *;
      if closed {
        r := Failure(Closed);
        return;
      }
      var valid: bool := *;
      if !valid {
        r := Failure(InvalidTimeout);
        return;
      }
      if request.profile != "firefox_140_esr" && request.profile != "firefox_152" {
        r := Failure(InvalidProfile);
        return;
      }
      if request.url.None? {
        r := Failure(InvalidUrl);
        return;
      }
      var url := request.url.value;
      var origin := OriginOf(request, url);
      var obtained := Obtain(origin);
      if obtained.Failure? {
        r := Failure(obtained.error);
        return;
      }
      var stream := obtained.value;
      before := stream;
      ghost var b, c := old(View()), View();
      TakenOut(b, origin, c, stream);
      var result, used := DoExchange(stream, request, url);
      after := used;
      if result.Failure? {
        HoldMoved(c, stream, used);
        CloseStream(used);
        r := Failure(result.error);
        return;
      }
      var (response, reusable) := result.value;
      e := Exchange(WireRequest(request, url), SemanticsOf(request.verb), response);
      log := log[stream.id := log[stream.id] + [e]];
      // The origin left the pool when the stream was taken, so no stream is replaced here.
      Finishes(b, request, url, c, stream, used, e, reusable);
      if reusable {
        idle := idle[origin := used];
      } else {
        CloseStream(used);
      }
      r := Success(ClientResponse(response.head, response.body));
    }

    /** Closes every idle stream; the pool stays empty from then on. */
    method Close()
      requires Valid()
      modifies this
      ensures Valid() && closed && idle == map[] && log == old(log)
      ensures connector.connects == old(connector.connects) == closes
    {
      hide Aligned, Kept;
      LogKeys(View());
      ClosedIsEmpty(View());
      if closed {
        return;
      }
      while idle != map[]
        invariant Valid() && !closed && log == old(log)
        decreases |idle|
      {
        var o :| o in idle;
        var stream := idle[o];
        TakeOut(View(), o);
        RemoveOne(idle, o);
        idle := idle - {o};
        CloseStream(stream);
      }
      LogKeys(View());
      ClosedIsEmpty(View());
      closed := true;
    }
  }

  lemma ClosedIsEmpty(b: Books)
    requires Kept(b, None)
    ensures b.closed ==> b.idle == map[]
    ensures b.idle == map[] ==> Kept(b.(closed := true), None)
  {
    hide Aligned;
    if b.idle == map[] {
      var c := b.(closed := true);
      assert forall id: nat :: IsIdle(b, id) == IsIdle(c, id);
    }
  }

  lemma LogKeys(b: Books)
    requires Kept(b, None)
    ensures b.connects !in b.log && b.connects == b.closes + |b.idle|
    ensures forall o <- b.idle :: b.idle[o].openedFor == o && b.idle[o].id in b.log
  {
    hide Aligned;
    forall o <- b.idle
      ensures b.idle[o].openedFor == o && b.idle[o].id in b.log
    {
      assert IdleOk(b, o);
    }
  }

  lemma HoldMoved(b: Books, s: Stream, t: Stream)
    requires Kept(b, Some(s)) && t.SameAs(s) && t.Valid()
    ensures Kept(b, Some(t))
  {
    hide Aligned;
  }
}
