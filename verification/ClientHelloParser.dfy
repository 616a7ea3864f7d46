/** `_parse_client_hello` and `parse_client_hello_records` over the mutating reader, and the
    record layer they reassemble. */
module ClientHelloParser {
  import opened Wrappers
  import opened Bytes
  import opened WireReader
  import opened ClientHelloCodec

  const HANDSHAKE: nat := 22
  const CLIENT_HELLO: nat := 1

  // ----- records as functions -----

  /** One handshake record at `p`: its payload and the position after it. */
  function TakeRecord(s: bytes, p: nat): (r: Result<(bytes, nat), ParseError>)
    requires p <= |s|
    ensures r.Success? ==> p < r.value.1 <= |s|
  {
    var kind := TakeU8(s, p, 0);
    if kind.Failure? then Failure(kind.error) else
    var version := TakeU16(s, kind.value.1, 0);
    if version.Failure? then Failure(version.error) else
    var size := TakeU16(s, version.value.1, 0);
    if size.Failure? then Failure(size.error)
    else if kind.value.0 != HANDSHAKE then Failure(ParseError(UnexpectedContentType, p))
    else Take(s, size.value.1, size.value.0, 0)
  }

  /** The joined payloads of the records from `p` to the end. */
  function ParseRecords(s: bytes, p: nat): Result<bytes, ParseError>
    requires p <= |s|
    decreases |s| - p
  {
    if p == |s| then Success([])
    else
      var record := TakeRecord(s, p);
      if record.Failure? then Failure(record.error)
      else
        var rest := ParseRecords(s, record.value.1);
        if rest.Failure? then rest else Success(record.value.0 + rest.value)
  }

  /** The body of the one ClientHello message that the payload must be. */
  function ParseHandshake(s: bytes, base: nat): Result<bytes, ParseError> {
    var kind := TakeU8(s, 0, base);
    if kind.Failure? then Failure(kind.error)
    else if kind.value.0 != CLIENT_HELLO then Failure(ParseError(NotClientHello, base))
    else
      var size := TakeU24(s, kind.value.1, base);
      if size.Failure? then Failure(size.error) else
      var body := Take(s, size.value.1, size.value.0, base);
      if body.Failure? then Failure(body.error)
      else if body.value.1 != |s| then Failure(ParseError(TrailingBytes, base + body.value.1))
      else Success(body.value.0)
  }

  /** `parse_client_hello_records`; offsets in the payload count from the first payload octet. */
  function ParseWire(s: bytes): Result<ClientHello, ParseError> {
    var base := if s == [] then 0 else 5;
    var payload := ParseRecords(s, 0);
    if payload.Failure? then Failure(payload.error) else
    var body := ParseHandshake(payload.value, base);
    if body.Failure? then Failure(body.error) else ParseHello(body.value, base + 4)
  }

  // ----- the parsing loops -----

  /** `_u16_values`: odd lengths are refused before anything is read. */
  method ReadU16Values(data: bytes, base: nat) returns (r: Result<seq<nat>, ParseError>)
    ensures r == CheckedU16Values(data, base)
  {
    if |data| % 2 != 0 {
      return Failure(ParseError(OddLength, base));
    }
    var reader := new Reader(data, base);
    var values: seq<nat> := [];
    assert data[0..] == data;
    while reader.Remaining() != 0
      invariant reader.Valid() && reader.cursor % 2 == 0
      invariant values + U16Values(data[reader.cursor..]) == U16Values(data)
      decreases reader.Remaining()
    {
      ghost var p := reader.cursor;
      var v := reader.ReadU16();
      assert data[p..][..2] == data[p..p + 2] && data[p..][2..] == data[p + 2..];
      assert values + ([v.value] + U16Values(data[p + 2..])) == values + [v.value] + U16Values(data[p + 2..]);
      values := values + [v.value];
    }
    assert data[reader.cursor..] == [] && values + [] == values;
    r := Success(values);
  }

  /** The results so far in front of the result for the rest. */
  function Prepend<T>(front: seq<T>, rest: Result<seq<T>, ParseError>): Result<seq<T>, ParseError> {
    if rest.Failure? then rest else Success(front + rest.value)
  }

  lemma PrependNone<T>(rest: Result<seq<T>, ParseError>)
    ensures Prepend([], rest) == rest
  {
    assert rest.Success? ==> [] + rest.value == rest.value;
  }

  lemma PrependMore<T>(front: seq<T>, more: seq<T>, rest: Result<seq<T>, ParseError>)
    ensures Prepend(front, Prepend(more, rest)) == Prepend(front + more, rest)
  {
    assert rest.Success? ==> front + (more + rest.value) == front + more + rest.value;
  }

  method ReadExtensions(block: Reader) returns (r: Result<seq<TlsExtension>, ParseError>)
    requires block.Valid() && block.cursor == 0
    modifies block
    ensures r == ParseExtensions(block.data, 0, block.base, {})
  {
    var extensions: seq<TlsExtension> := [];
    var seen: set<nat> := {};
    ghost var whole := ParseExtensions(block.data, 0, block.base, {});
    PrependNone(whole);
    while block.Remaining() != 0
      invariant block.Valid()
      invariant whole == Prepend(extensions, ParseExtensions(block.data, block.cursor, block.base, seen))
      decreases block.Remaining()
    {
      var offset := block.Offset();
      var typeId := block.ReadU16();
      if typeId.Failure? {
        return Failure(typeId.error);
      }
      var data := block.ReadVector16();
      if data.Failure? {
        return Failure(data.error);
      }
      if typeId.value in seen {
        return Failure(ParseError(DuplicateExtension, offset));
      }
      var e := TlsExtension(typeId.value, data.value);
      seen := seen + {typeId.value};
      PrependMore(extensions, [e], ParseExtensions(block.data, block.cursor, block.base, seen));
      extensions := extensions + [e];
    }
    assert extensions + [] == extensions;
    r := Success(extensions);
  }

  method ReadHello(body: bytes, base: nat) returns (r: Result<ClientHello, ParseError>)
    ensures r == ParseHello(body, base)
  {
    var reader := new Reader(body, base);
    var version := reader.ReadU16();
    if version.Failure? {
      return Failure(version.error);
    }
    var random := reader.TakeBytes(32);
    if random.Failure? {
      return Failure(random.error);
    }
    var session := reader.ReadVector8();
    if session.Failure? {
      return Failure(session.error);
    }
    assert TakeFront(body, 0, base) == Success((Front(version.value, random.value, session.value), reader.cursor));
    hide TakeFront, ParseExtensions;
    var cipherOffset := reader.Offset() + 2;
    var vector := reader.ReadVector16();
    if vector.Failure? {
      return Failure(vector.error);
    }
    var ciphers := ReadU16Values(vector.value, cipherOffset);
    if ciphers.Failure? {
      return Failure(ciphers.error);
    }
    if ciphers.value == [] {
      return Failure(ParseError(EmptyCiphers, cipherOffset));
    }
    var methodsOffset := reader.Offset() + 1;
    var methods := reader.ReadVector8();
    if methods.Failure? {
      return Failure(methods.error);
    }
    if methods.value == [] {
      return Failure(ParseError(EmptyCompression, methodsOffset));
    }
    var extensions := ReadBlock(reader);
    if extensions.Failure? {
      return Failure(extensions.error);
    }
    r := Success(ClientHello(version.value, random.value, session.value, ciphers.value, methods.value, extensions.value));
  }

  /** The rest of a body: nothing, or one extension block that ends it. */
  method ReadBlock(reader: Reader) returns (r: Result<seq<TlsExtension>, ParseError>)
    requires reader.Valid()
    modifies reader
    ensures r == ParseBlock(reader.data, old(reader.cursor), reader.base)
  {
    hide ParseExtensions;
    var extensions: seq<TlsExtension> := [];
    if reader.Remaining() != 0 {
      var size := reader.ReadU16();
      if size.Failure? {
        return Failure(size.error);
      }
      var start := reader.Offset();
      var data := reader.TakeBytes(size.value);
      if data.Failure? {
        return Failure(data.error);
      }
      var block := new Reader(data.value, start);
      var parsed := ReadExtensions(block);
      if parsed.Failure? {
        return parsed;
      }
      extensions := parsed.value;
    }
    var end := reader.Finish();
    r := if end.Failure? then Failure(end.error) else Success(extensions);
  }

  method ReadRecords(s: bytes) returns (r: Result<bytes, ParseError>, base: nat)
    ensures r == ParseRecords(s, 0)
    ensures r.Success? ==> base == if s == [] then 0 else 5
  {
    hide TakeRecord;
    var records := new Reader(s, 0);
    var payload: bytes := [];
    var first: Option<nat> := None;
    PrependNone(ParseRecords(s, 0));
    while records.Remaining() != 0
      invariant records.Valid()
      invariant first == if records.cursor == 0 then None else Some(5)
      invariant ParseRecords(s, 0) == Prepend(payload, ParseRecords(s, records.cursor))
      decreases records.Remaining()
    {
      var start := records.cursor;
      var record := ReadRecord(records);
      if record.Failure? {
        return Failure(record.error), 0;
      }
      if first.None? {
        first := Some(start + 5);
      }
      PrependMore(payload, record.value, ParseRecords(s, records.cursor));
      payload := payload + record.value;
    }
    assert payload + [] == payload;
    r := Success(payload);
    base := if first.Some? then first.value else 0;
  }

  method ReadRecord(records: Reader) returns (r: Result<bytes, ParseError>)
    requires records.Valid() && records.base == 0
    modifies records
    ensures records.Valid() && records.Moved(r, TakeRecord(records.data, old(records.cursor)))
  {
    var offset := records.Offset();
    var kind := records.ReadU8();
    if kind.Failure? {
      return Failure(kind.error);
    }
    var version := records.ReadU16();
    if version.Failure? {
      return Failure(version.error);
    }
    var size := records.ReadU16();
    if size.Failure? {
      return Failure(size.error);
    }
    if kind.value != HANDSHAKE {
      return Failure(ParseError(UnexpectedContentType, offset));
    }
    r := records.TakeBytes(size.value);
  }

  method ParseClientHelloRecords(s: bytes) returns (r: Result<ClientHello, ParseError>)
    ensures r == ParseWire(s)
  {
    hide ParseRecords, ParseHello;
    var payload, base := ReadRecords(s);
    if payload.Failure? {
      return Failure(payload.error);
    }
    var handshake := new Reader(payload.value, base);
    var offset := handshake.Offset();
    var kind := handshake.ReadU8();
    if kind.Failure? {
      return Failure(kind.error);
    }
    if kind.value != CLIENT_HELLO {
      return Failure(ParseError(NotClientHello, offset));
    }
    var size := handshake.ReadU24();
    if size.Failure? {
      return Failure(size.error);
    }
    var bodyOffset := handshake.Offset();
    var body := handshake.TakeBytes(size.value);
    if body.Failure? {
      return Failure(body.error);
    }
    var end := handshake.Finish();
    if end.Failure? {
      return Failure(end.error);
    }
    r := ReadHello(body.value, bodyOffset);
  }

  // ----- fragmenting over records -----

  /** One record: content type, any two version octets, length, payload. */
  function RecordWire(version: bytes, payload: bytes): bytes
    requires |version| == 2 && |payload| < 0x1_0000
  {
    [HANDSHAKE] + (version + (FromU16(|payload|) + payload))
  }

  datatype Record = Record(version: bytes, payload: bytes) {
    predicate Valid() {
      |version| == 2 && |payload| < 0x1_0000
    }
  }

  predicate AllRecords(rs: seq<Record>) {
    forall i :: 0 <= i < |rs| ==> rs[i].Valid()
  }

  function RecordsWire(rs: seq<Record>): bytes
    requires AllRecords(rs)
  {
    if rs == [] then [] else RecordWire(rs[0].version, rs[0].payload) + RecordsWire(rs[1..])
  }

  function Payloads(rs: seq<Record>): bytes {
    if rs == [] then [] else rs[0].payload + Payloads(rs[1..])
  }

  lemma RecordAt(s: bytes, p: nat, r: Record)
    requires r.Valid() && At(s, p, RecordWire(r.version, r.payload))
    ensures TakeRecord(s, p) == Success((r.payload, p + |RecordWire(r.version, r.payload)|))
  {
    var w, tail := [HANDSHAKE], FromU16(|r.payload|) + r.payload;
    AtSplit(s, p, w, r.version + tail);
    AtSplit(s, p + 1, r.version, tail);
    AtSplit(s, p + 3, FromU16(|r.payload|), r.payload);
    TakeAt(s, p, w, 0);
    TakeAt(s, p + 1, r.version, 0);
    TakeU16At(s, p + 3, |r.payload|, 0);
    TakeAt(s, p + 5, r.payload, 0);
  }

  lemma TookRecord(s: bytes, p: nat) returns (r: Record)
    requires p <= |s| && TakeRecord(s, p).Success?
    ensures r.Valid() && At(s, p, RecordWire(r.version, r.payload))
    ensures TakeRecord(s, p) == Success((r.payload, p + |RecordWire(r.version, r.payload)|))
  {
    var payload := TakeRecord(s, p).value.0;
    r := Record(s[p + 1..p + 3], payload);
    TookU16(s, p + 3, 0);
    AtSlice(s, p + 5, payload);
    AtSlice(s, p + 1, r.version);
    assert s[p..p + 1] == [HANDSHAKE];
    AtSlice(s, p, [HANDSHAKE]);
    AtSplit(s, p + 3, FromU16(|payload|), payload);
    AtSplit(s, p + 1, r.version, FromU16(|payload|) + payload);
    AtSplit(s, p, [HANDSHAKE], r.version + (FromU16(|payload|) + payload));
  }

  lemma {:induction false} RecordsAt(s: bytes, p: nat, rs: seq<Record>)
    requires AllRecords(rs) && At(s, p, RecordsWire(rs)) && p + |RecordsWire(rs)| == |s|
    ensures ParseRecords(s, p) == Success(Payloads(rs))
    decreases |rs|
  {
    hide TakeRecord, RecordWire;
    if rs != [] {
      AtSplit(s, p, RecordWire(rs[0].version, rs[0].payload), RecordsWire(rs[1..]));
      RecordAt(s, p, rs[0]);
      RecordsAt(s, p + |RecordWire(rs[0].version, rs[0].payload)|, rs[1..]);
    }
  }

  lemma {:induction false} TookRecords(s: bytes, p: nat) returns (rs: seq<Record>)
    requires p <= |s| && ParseRecords(s, p).Success?
    ensures AllRecords(rs) && At(s, p, RecordsWire(rs)) && p + |RecordsWire(rs)| == |s|
    ensures Payloads(rs) == ParseRecords(s, p).value
    decreases |s| - p
  {
    hide TakeRecord, RecordWire;
    if p == |s| {
      rs := [];
    } else {
      var r := TookRecord(s, p);
      var w := RecordWire(r.version, r.payload);
      var rest := TookRecords(s, p + |w|);
      rs := [r] + rest;
      assert rs[1..] == rest;
      AtSplit(s, p, w, RecordsWire(rest));
    }
  }

  function Handshake(body: bytes): bytes
    requires |body| < 0x100_0000
  {
    [CLIENT_HELLO] + (FromU24(|body|) + body)
  }

  lemma HandshakeExact(s: bytes, base: nat, body: bytes)
    ensures ParseHandshake(s, base) == Success(body) <==> |body| < 0x100_0000 && s == Handshake(body)
  {
    if |body| < 0x100_0000 && s == Handshake(body) {
      AtWhole(s);
      AtSplit(s, 0, [CLIENT_HELLO], FromU24(|body|) + body);
      AtSplit(s, 1, FromU24(|body|), body);
      TakeAt(s, 0, [CLIENT_HELLO], base);
      TakeAt(s, 1, FromU24(|body|), base);
      TakeAt(s, 4, body, base);
    }
    if ParseHandshake(s, base) == Success(body) {
      FromU24Of(s[1..4]);
      assert s == s[..1] + (s[1..4] + s[4..]);
      assert s[..1] == [s[0]];
    }
  }

  /** Print, fragment, reassemble, parse: a well-formed ClientHello split over any handshake records
      parses back to itself. */
  lemma ParseOfRecords(h: ClientHello, block: bool, rs: seq<Record>)
    requires WellFormed(h) && |Encode(h, block)| < 0x100_0000
    requires AllRecords(rs) && Payloads(rs) == Handshake(Encode(h, block))
    ensures ParseWire(RecordsWire(rs)) == Success(h)
  {
    hide ParseRecords, ParseHandshake, ParseHello, RecordsWire, Encode, Payloads, WellFormed;
    var s := RecordsWire(rs);
    var base := if s == [] then 0 else 5;
    AtWhole(s);
    RecordsAt(s, 0, rs);
    HandshakeExact(Payloads(rs), base, Encode(h, block));
    ParseOfEncode(h, block, base + 4);
  }

  /** Conversely, whatever is accepted is a sequence of handshake records whose joined payload is the
      encoding of the result. */
  lemma RecordsOfParse(s: bytes) returns (rs: seq<Record>, block: bool)
    requires ParseWire(s).Success?
    ensures AllRecords(rs) && s == RecordsWire(rs)
    ensures var h := ParseWire(s).value;
            WellFormed(h) && |Encode(h, block)| < 0x100_0000 && Payloads(rs) == Handshake(Encode(h, block))
  {
    hide ParseRecords, ParseHandshake, ParseHello, RecordsWire, Encode, Payloads, WellFormed;
    var base := if s == [] then 0 else 5;
    rs := TookRecords(s, 0);
    AtSlice(s, 0, RecordsWire(rs));
    assert s[0..|s|] == s;
    var body := ParseHandshake(Payloads(rs), base).value;
    HandshakeExact(Payloads(rs), base, body);
    block := EncodeOfParse(body, base + 4);
  }
}
