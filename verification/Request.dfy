/** The HTTP/1.1 request writer: validation, choice of framing, bounded head, body. */
module RequestWriter {
  import opened Wrappers
  import opened Bytes
  import opened Numerals
  import opened ResponseModel

  datatype RequestBody = NoBody | Fixed(data: bytes) | Chunked(chunks: seq<bytes>)
  datatype Request = Request(verb: bytes, target: bytes, authority: bytes, headers: seq<Field>, body: RequestBody)
  datatype RequestLimits = RequestLimits(maxHeaderBytes: usize, maxBodyBytes: usize, maxHeaders: usize)

  const DEFAULT_REQUEST_LIMITS := RequestLimits(65536, 67108864, 128)

  datatype RequestError =
    | InvalidMethod | UnsupportedMethod | InvalidTarget | InvalidAuthority
    | InvalidName | InvalidValue | DuplicateHost | DuplicateContentLength
    | DuplicateTransferEncoding | ConflictingFields | InvalidLength | ContentLengthMismatch
    | UnsupportedCoding | InvalidChunk | HeaderLimit | BodyLimit

  const CONNECT: bytes := [99, 111, 110, 110, 101, 99, 116]
  const HTTP_LINE_END: bytes := [32, 72, 84, 84, 80, 47, 49, 46, 49, 13, 10]
  const FIELD_SEPARATOR: bytes := [58, 32]
  const HOST_NAME: bytes := [72, 111, 115, 116]
  const CONTENT_LENGTH_NAME: bytes := [67, 111, 110, 116, 101, 110, 116, 45, 76, 101, 110, 103, 116, 104]
  const TRANSFER_ENCODING_NAME: bytes :=
    [84, 114, 97, 110, 115, 102, 101, 114, 45, 69, 110, 99, 111, 100, 105, 110, 103]
  const LAST_CHUNK: bytes := [48, 13, 10, 13, 10]

  // ----- validation -----

  predicate IsTargetByte(b: byte) {
    0x21 <= b <= 0x7e && b != 35
  }

  predicate IsAuthorityByte(b: byte) {
    0x21 <= b <= 0x7e && b != 47 && b != 63 && b != 35 && b != 64 && b != 92
  }

  predicate IsAuthority(s: bytes) {
    s != [] && forall i :: 0 <= i < |s| ==> IsAuthorityByte(s[i])
  }

  function ValidateMethod(verb: bytes): Result<(), RequestError> {
    if !IsToken(verb) then Failure(InvalidMethod)
    else if EqIgnoreCase(verb, CONNECT) then Failure(UnsupportedMethod)
    else Success(())
  }

  /** The target that goes on the wire: an empty one becomes `/`. */
  function ValidateTarget(target: bytes): Result<bytes, RequestError> {
    if target == [] then Success([47])
    else if target[0] != 47 || exists i :: 0 <= i < |target| && !IsTargetByte(target[i]) then Failure(InvalidTarget)
    else Success(target)
  }

  /** What the header loop has seen so far. */
  datatype Scan = Scan(hosts: nat, length: Option<nat>, coding: Option<bytes>)

  function ScanField(s: Scan, f: Field): Result<Scan, RequestError> {
    if !IsToken(f.name) then Failure(InvalidName)
    else if !IsFieldBytes(f.value) then Failure(InvalidValue)
    else if Named(f, HOST) then
      if !IsAuthority(f.value) then Failure(InvalidAuthority)
      else if s.hosts + 1 > 1 then Failure(DuplicateHost)
      else Success(s.(hosts := s.hosts + 1))
    else if Named(f, CONTENT_LENGTH) then
      if s.length.Some? then Failure(DuplicateContentLength)
      else if ParseDecimal(f.value).None? then Failure(InvalidLength)
      else Success(s.(length := ParseDecimal(f.value)))
    else if Named(f, TRANSFER_ENCODING) then
      if s.coding.Some? then Failure(DuplicateTransferEncoding) else Success(s.(coding := Some(f.value)))
    else Success(s)
  }

  function ScanFields(s: Scan, fields: seq<Field>): Result<Scan, RequestError>
    decreases |fields|
  {
    if fields == [] then Success(s)
    else
      var r := ScanField(s, fields[0]);
      if r.Failure? then r else ScanFields(r.value, fields[1..])
  }

  const NO_SCAN := Scan(0, None, None)

  datatype Framing = Unframed | ByLength(length: nat, addHeader: bool) | ByChunks(addHeader: bool)

  function ChunksLength(chunks: seq<bytes>, length: nat, limit: nat): Result<nat, RequestError>
    decreases |chunks|
  {
    if chunks == [] then Success(length)
    else if chunks[0] == [] then Failure(InvalidChunk)
    else if length + |chunks[0]| > limit then Failure(BodyLimit)
    else ChunksLength(chunks[1..], length + |chunks[0]|, limit)
  }

  function ValidateFraming(body: RequestBody, s: Scan, limits: RequestLimits): Result<Framing, RequestError> {
    match body
    case NoBody =>
      if s.coding.Some? then Failure(UnsupportedCoding)
      else if s.length.Some? && s.length.value != 0 then Failure(ContentLengthMismatch)
      else Success(Unframed)
    case Fixed(data) =>
      if |data| > limits.maxBodyBytes then Failure(BodyLimit)
      else if s.coding.Some? then Failure(UnsupportedCoding)
      else if s.length.Some? && s.length.value != |data| then Failure(ContentLengthMismatch)
      else Success(ByLength(|data|, s.length.None?))
    case Chunked(chunks) =>
      if s.coding.Some? && !EqIgnoreCase(Trim(s.coding.value), CHUNKED) then Failure(UnsupportedCoding)
      else
        var total := ChunksLength(chunks, 0, limits.maxBodyBytes);
        if total.Failure? then Failure(total.error) else Success(ByChunks(s.coding.None?))
  }

  // ----- the octets -----

  function FieldWire(f: Field): bytes {
    f.name + (FIELD_SEPARATOR + (f.value + CRLF))
  }

  function FieldsWire(fields: seq<Field>): bytes {
    if fields == [] then [] else FieldWire(fields[0]) + FieldsWire(fields[1..])
  }

  /** The fields on the wire: a `Host` in front if there is none, a framing field at the end if needed. */
  function FieldsSent(r: Request, s: Scan, framing: Framing): seq<Field> {
    (if s.hosts == 0 then [Field(HOST_NAME, r.authority)] else []) + r.headers + FramingField(framing)
  }

  function FramingField(framing: Framing): seq<Field> {
    match framing
    case Unframed => []
    case ByLength(length, add) => if add then [Field(CONTENT_LENGTH_NAME, Decimal(length))] else []
    case ByChunks(add) => if add then [Field(TRANSFER_ENCODING_NAME, ResponseModel.CHUNKED)] else []
  }

  function StartLine(verb: bytes, target: bytes): bytes {
    verb + ([SP] + (target + HTTP_LINE_END))
  }

  function HeadSent(r: Request, target: bytes, s: Scan, framing: Framing): bytes {
    StartLine(r.verb, target) + (FieldsWire(FieldsSent(r, s, framing)) + CRLF)
  }

  function ChunkWire(chunk: bytes): bytes {
    Hex(|chunk|) + (CRLF + (chunk + CRLF))
  }

  function ChunksWire(chunks: seq<bytes>): bytes {
    if chunks == [] then LAST_CHUNK else ChunkWire(chunks[0]) + ChunksWire(chunks[1..])
  }

  function BodySent(body: RequestBody): bytes {
    match body
    case NoBody => []
    case Fixed(data) => data
    case Chunked(chunks) => ChunksWire(chunks)
  }

  /** Everything decided before the first octet is written. */
  datatype Plan = Plan(target: bytes, scan: Scan, framing: Framing)

  function MakePlan(r: Request, limits: RequestLimits): Result<Plan, RequestError> {
    var verb := ValidateMethod(r.verb);
    if verb.Failure? then Failure(verb.error) else
    var target := ValidateTarget(r.target);
    if target.Failure? then Failure(target.error) else
    var scan := ScanFields(NO_SCAN, r.headers);
    if scan.Failure? then Failure(scan.error) else
    var s := scan.value;
    if s.length.Some? && s.coding.Some? then Failure(ConflictingFields)
    else if s.hosts == 0 && !IsAuthority(r.authority) then Failure(InvalidAuthority) else
    var framing := ValidateFraming(r.body, s, limits);
    if framing.Failure? then Failure(framing.error)
    else if |FieldsSent(r, s, framing.value)| > limits.maxHeaders then Failure(HeaderLimit)
    else Success(Plan(target.value, s, framing.value))
  }

  /** `serialize_request` as a function. */
  function Serialize(r: Request, limits: RequestLimits): Result<bytes, RequestError> {
    var plan := MakePlan(r, limits);
    if plan.Failure? then Failure(plan.error) else
    var head := HeadSent(r, plan.value.target, plan.value.scan, plan.value.framing);
    if |head| > limits.maxHeaderBytes then Failure(HeaderLimit) else Success(head + BodySent(r.body))
  }

  // ----- the writing loops -----

  /** Every append to the head checks the head limit. */
  method AppendHeaderBytes(output: bytes, more: bytes, limit: usize) returns (r: Result<bytes, RequestError>)
    ensures r == if |output| + |more| > limit then Failure(HeaderLimit) else Success(output + more)
  {
    if |output| + |more| >= USIZE || |output| + |more| > limit {
      return Failure(HeaderLimit);
    }
    r := Success(output + more);
  }

  method AppendHeader(output: bytes, f: Field, limit: usize) returns (r: Result<bytes, RequestError>)
    requires |output| <= limit
    ensures r == if |output| + |FieldWire(f)| > limit then Failure(HeaderLimit) else Success(output + FieldWire(f))
  {
    var o :- AppendHeaderBytes(output, f.name, limit);
    o :- AppendHeaderBytes(o, FIELD_SEPARATOR, limit);
    o :- AppendHeaderBytes(o, f.value, limit);
    r := AppendHeaderBytes(o, CRLF, limit);
    assert output + f.name + FIELD_SEPARATOR + f.value + CRLF == output + FieldWire(f);
  }

  /** A length field, its digits written from the end of a 22-octet buffer. */
  method AppendUsizeHeader(output: bytes, name: bytes, value: usize, limit: usize) returns (r: Result<bytes, RequestError>)
    requires |output| <= limit
    ensures var f := Field(name, Decimal(value));
            r == if |output| + |FieldWire(f)| > limit then Failure(HeaderLimit) else Success(output + FieldWire(f))
  {
    NumeralsFitBuffers(value);
    var digits := new byte[DECIMAL_BUFFER];
    var start := WriteDecimal(digits, value);
    r := AppendHeader(output, Field(name, digits[start..]), limit);
  }

  lemma FieldsWireAppend(xs: seq<Field>, ys: seq<Field>)
    ensures FieldsWire(xs + ys) == FieldsWire(xs) + FieldsWire(ys)
  {
    if xs == [] {
      assert xs + ys == ys;
    } else {
      assert (xs + ys)[1..] == xs[1..] + ys;
      FieldsWireAppend(xs[1..], ys);
    }
  }

  lemma FieldsWireOne(f: Field)
    ensures FieldsWire([f]) == FieldWire(f)
  {
    assert [f][1..] == [];
  }

  method AppendChunkedBody(output: bytes, chunks: seq<bytes>) returns (extended: bytes)
    requires forall c <- chunks :: |c| < USIZE
    ensures extended == output + ChunksWire(chunks)
  {
    extended := output;
    for i := 0 to |chunks|
      invariant extended + ChunksWire(chunks[i..]) == output + ChunksWire(chunks)
    {
      hide Hex;
      ghost var before := extended;
      var chunk := chunks[i];
      assert chunks[i..][0] == chunk && chunks[i..][1..] == chunks[i + 1..];
      Associative(before, ChunkWire(chunk), ChunksWire(chunks[i + 1..]));
      extended := AppendHex(extended, |chunk|);
      extended := extended + CRLF;
      extended := extended + chunk;
      extended := extended + CRLF;
      assert extended == before + ChunkWire(chunk);
    }
    extended := extended + LAST_CHUNK;
  }

  /** The header loop of `serialize_request`. */
  method ScanHeaders(headers: seq<Field>) returns (r: Result<Scan, RequestError>)
    ensures r == ScanFields(NO_SCAN, headers)
  {
    hide ScanField;
    var s := NO_SCAN;
    assert headers[0..] == headers;
    for i := 0 to |headers|
      invariant ScanFields(s, headers[i..]) == ScanFields(NO_SCAN, headers)
    {
      r := ScanField(s, headers[i]);
      if r.Failure? {
        return;
      }
      assert headers[i..][1..] == headers[i + 1..];
      s := r.value;
    }
    r := Success(s);
  }

  method CheckChunks(chunks: seq<bytes>, limit: usize) returns (r: Result<nat, RequestError>)
    ensures r == ChunksLength(chunks, 0, limit)
  {
    var length: nat := 0;
    assert chunks[0..] == chunks;
    for i := 0 to |chunks|
      invariant ChunksLength(chunks[i..], length, limit) == ChunksLength(chunks, 0, limit)
    {
      var chunk := chunks[i];
      if chunk == [] {
        return Failure(InvalidChunk);
      }
      if length + |chunk| >= USIZE {
        return Failure(BodyLimit);
      }
      length := length + |chunk|;
      if length > limit {
        return Failure(BodyLimit);
      }
      assert chunks[i..][1..] == chunks[i + 1..];
    }
    r := Success(length);
  }

  method CheckFraming(body: RequestBody, s: Scan, limits: RequestLimits) returns (r: Result<Framing, RequestError>)
    ensures r == ValidateFraming(body, s, limits)
  {
    match body {
      case NoBody =>
        if s.coding.Some? {
          return Failure(UnsupportedCoding);
        }
        if s.length.Some? && s.length.value != 0 {
          return Failure(ContentLengthMismatch);
        }
        r := Success(Unframed);
      case Fixed(data) =>
        if |data| > limits.maxBodyBytes {
          return Failure(BodyLimit);
        }
        if s.coding.Some? {
          return Failure(UnsupportedCoding);
        }
        if s.length.Some? && s.length.value != |data| {
          return Failure(ContentLengthMismatch);
        }
        r := Success(ByLength(|data|, s.length.None?));
      case Chunked(chunks) =>
        if s.coding.Some? {
          var coding := TrimOws(s.coding.value);
          if !EqIgnoreCase(coding, ResponseModel.CHUNKED) {
            return Failure(UnsupportedCoding);
          }
        }
        var total :- CheckChunks(chunks, limits.maxBodyBytes);
        r := Success(ByChunks(s.coding.None?));
    }
  }

  lemma FramingFits(body: RequestBody, s: Scan, limits: RequestLimits)
    ensures var f := ValidateFraming(body, s, limits); f.Success? && f.value.ByLength? ==> f.value.length < USIZE
  {}

  /** What appending `fields` within the head limit gives. */
  function Appended(output: bytes, fields: seq<Field>, limit: nat): Result<bytes, RequestError> {
    if |output| + |FieldsWire(fields)| > limit then Failure(HeaderLimit) else Success(output + FieldsWire(fields))
  }

  method AppendHost(start: bytes, hosts: nat, authority: bytes, limit: usize) returns (o: Result<bytes, RequestError>)
    requires |start| <= limit
    ensures o == Appended(start, if hosts == 0 then [Field(HOST_NAME, authority)] else [], limit)
  {
    if hosts == 0 {
      FieldsWireOne(Field(HOST_NAME, authority));
      o := AppendHeader(start, Field(HOST_NAME, authority), limit);
    } else {
      o := Success(start);
      assert start + [] == start;
    }
  }

  method AppendHeaders(start: bytes, headers: seq<Field>, limit: usize) returns (o: Result<bytes, RequestError>)
    requires |start| <= limit
    ensures o == Appended(start, headers, limit)
  {
    hide FieldWire;
    var output := start;
    assert headers[..0] == [] && start + [] == start;
    for i := 0 to |headers|
      invariant |output| <= limit && output == start + FieldsWire(headers[..i])
    {
      FieldsWireAppend(headers[..i], [headers[i]]);
      FieldsWireOne(headers[i]);
      assert headers[..i + 1] == headers[..i] + [headers[i]];
      assert headers == headers[..i + 1] + headers[i + 1..];
      FieldsWireAppend(headers[..i + 1], headers[i + 1..]);
      output :- AppendHeader(output, headers[i], limit);
    }
    assert headers[..|headers|] == headers;
    o := Success(output);
  }

  method AppendFraming(start: bytes, framing: Framing, limit: usize) returns (o: Result<bytes, RequestError>)
    requires |start| <= limit && (framing.ByLength? ==> framing.length < USIZE)
    ensures o == Appended(start, FramingField(framing), limit)
  {
    hide Decimal;
    if framing.ByLength? && framing.addHeader {
      FieldsWireOne(FramingField(framing)[0]);
      o := AppendUsizeHeader(start, CONTENT_LENGTH_NAME, framing.length, limit);
    } else if framing.ByChunks? && framing.addHeader {
      FieldsWireOne(FramingField(framing)[0]);
      o := AppendHeader(start, Field(TRANSFER_ENCODING_NAME, ResponseModel.CHUNKED), limit);
    } else {
      o := Success(start);
      assert start + [] == start;
    }
  }

  /** The three parts of the field section, in the order they are written. */
  method AppendFields(start: bytes, r: Request, s: Scan, framing: Framing, limit: usize) returns (o: Result<bytes, RequestError>)
    requires |start| <= limit && (framing.ByLength? ==> framing.length < USIZE)
    ensures o == Appended(start, FieldsSent(r, s, framing), limit)
  {
    hide FieldsWire, FramingField;
    ghost var host := if s.hosts == 0 then [Field(HOST_NAME, r.authority)] else [];
    FieldsWireAppend(host + r.headers, FramingField(framing));
    FieldsWireAppend(host, r.headers);
    ghost var a, b, c := FieldsWire(host), FieldsWire(r.headers), FieldsWire(FramingField(framing));
    assert start + a + b + c == start + FieldsWire(FieldsSent(r, s, framing));
    var output :- AppendHost(start, s.hosts, r.authority, limit);
    output :- AppendHeaders(output, r.headers, limit);
    o := AppendFraming(output, framing, limit);
  }

  method AppendStartLine(verb: bytes, target: bytes, limit: usize) returns (o: Result<bytes, RequestError>)
    ensures var w := StartLine(verb, target);
            o == if |w| > limit then Failure(HeaderLimit) else Success(w)
  {
    var output :- AppendHeaderBytes([], verb, limit);
    output :- AppendHeaderBytes(output, [SP], limit);
    output :- AppendHeaderBytes(output, target, limit);
    o := AppendHeaderBytes(output, HTTP_LINE_END, limit);
    assert [] + verb + [SP] + target + HTTP_LINE_END == StartLine(verb, target);
  }

  /** `serialize_request`: the octets, or the first error, exactly as `Serialize` says. */
  method SerializeRequest(r: Request, limits: RequestLimits) returns (o: Result<bytes, RequestError>)
    requires r.body.Chunked? ==> forall c <- r.body.chunks :: |c| < USIZE
    ensures o == Serialize(r, limits)
  {
    hide ValidateMethod, ValidateTarget, ScanFields, ValidateFraming, FieldsWire, FieldsSent, StartLine, IsAuthority, BodySent;
    var _ :- ValidateMethod(r.verb);
    var target :- ValidateTarget(r.target);
    var s :- ScanHeaders(r.headers);
    if s.length.Some? && s.coding.Some? {
      return Failure(ConflictingFields);
    }
    if s.hosts == 0 && !IsAuthority(r.authority) {
      return Failure(InvalidAuthority);
    }
    var framing :- CheckFraming(r.body, s, limits);
    FramingFits(r.body, s, limits);
    var count := CountFields(r, s, framing);
    if count > limits.maxHeaders {
      return Failure(HeaderLimit);
    }
    var output :- AppendStartLine(r.verb, target, limits.maxHeaderBytes);
    output :- AppendFields(output, r, s, framing, limits.maxHeaderBytes);
    output :- AppendHeaderBytes(output, CRLF, limits.maxHeaderBytes);
    assert output == HeadSent(r, target, s, framing);
    var sent := AppendBody(output, r.body);
    o := Success(sent);
  }

  /** The caller's fields plus the automatic ones. */
  method CountFields(r: Request, s: Scan, framing: Framing) returns (count: nat)
    ensures count == |FieldsSent(r, s, framing)|
  {
    var host := if s.hosts == 0 then 1 else 0;
    var added := if (framing.ByLength? || framing.ByChunks?) && framing.addHeader then 1 else 0;
    count := |r.headers| + host + added;
  }

  method AppendBody(output: bytes, body: RequestBody) returns (extended: bytes)
    requires body.Chunked? ==> forall c <- body.chunks :: |c| < USIZE
    ensures extended == output + BodySent(body)
  {
    match body {
      case NoBody => extended := output;
      case Fixed(data) => extended := output + data;
      case Chunked(chunks) => extended := AppendChunkedBody(output, chunks);
    }
  }
}
