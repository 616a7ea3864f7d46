/** The strict ClientHello parser and record reassembler, with the encoder they invert:
    section 4.1.2 and section 5.1 of RFC 8446. */
module ClientHelloCodec {
  import opened Wrappers
  import opened Bytes
  import opened WireReader

  datatype TlsExtension = TlsExtension(typeId: nat, data: bytes)
  datatype ClientHello = ClientHello(legacyVersion: nat, random: bytes, sessionId: bytes, cipherSuites: seq<nat>,
                                     compressionMethods: bytes, extensions: seq<TlsExtension>)

  // ----- what the parser accepts, as functions of the body and a position -----

  function U16Values(data: bytes): seq<nat>
    requires |data| % 2 == 0
  {
    if data == [] then [] else [U16(data[..2])] + U16Values(data[2..])
  }

  function CheckedU16Values(data: bytes, base: nat): Result<seq<nat>, ParseError> {
    if |data| % 2 != 0 then Failure(ParseError(OddLength, base)) else Success(U16Values(data))
  }

  /** The cipher suite vector at `p`: an even, non-empty list of 16-bit values. */
  function TakeCiphers(s: bytes, p: nat, base: nat): Result<(seq<nat>, nat), ParseError>
    requires p <= |s|
  {
    var v := TakeVector16(s, p, base);
    if v.Failure? then Failure(v.error) else
    var values := CheckedU16Values(v.value.0, base + p + 2);
    if values.Failure? then Failure(values.error)
    else if values.value == [] then Failure(ParseError(EmptyCiphers, base + p + 2))
    else Success((values.value, v.value.1))
  }

  function TakeCompression(s: bytes, p: nat, base: nat): Result<(bytes, nat), ParseError>
    requires p <= |s|
  {
    var v := TakeVector8(s, p, base);
    if v.Failure? then Failure(v.error)
    else if v.value.0 == [] then Failure(ParseError(EmptyCompression, base + p + 1))
    else v
  }

  function TakeExtension(s: bytes, p: nat, base: nat): Result<(TlsExtension, nat), ParseError>
    requires p <= |s|
  {
    var t := TakeU16(s, p, base);
    if t.Failure? then Failure(t.error) else
    var v := TakeVector16(s, t.value.1, base);
    if v.Failure? then Failure(v.error) else Success((TlsExtension(t.value.0, v.value.0), v.value.1))
  }

  function Types(es: seq<TlsExtension>): set<nat> {
    set i | 0 <= i < |es| :: es[i].typeId
  }

  /** The extensions from `p` to the end of the block; a type already in `seen` is an error. */
  function ParseExtensions(s: bytes, p: nat, base: nat, seen: set<nat>): Result<seq<TlsExtension>, ParseError>
    requires p <= |s|
    decreases |s| - p
  {
    if p == |s| then Success([])
    else
      var e := TakeExtension(s, p, base);
      if e.Failure? then Failure(e.error)
      else if e.value.0.typeId in seen then Failure(ParseError(DuplicateExtension, base + p))
      else
        var rest := ParseExtensions(s, e.value.1, base, seen + {e.value.0.typeId});
        if rest.Failure? then rest else Success([e.value.0] + rest.value)
  }

  /** The optional extension block, which must reach the end of the body. */
  function ParseBlock(s: bytes, p: nat, base: nat): Result<seq<TlsExtension>, ParseError>
    requires p <= |s|
  {
    if p == |s| then Success([])
    else
      var v := TakeVector16(s, p, base);
      if v.Failure? then Failure(v.error) else
      var es := ParseExtensions(v.value.0, 0, base + p + 2, {});
      if es.Failure? then es
      else if v.value.1 != |s| then Failure(ParseError(TrailingBytes, base + v.value.1))
      else es
  }

  datatype Front = Front(legacyVersion: nat, random: bytes, sessionId: bytes)

  function TakeFront(s: bytes, p: nat, base: nat): Result<(Front, nat), ParseError>
    requires p <= |s|
  {
    var version := TakeU16(s, p, base);
    if version.Failure? then Failure(version.error) else
    var random := Take(s, version.value.1, 32, base);
    if random.Failure? then Failure(random.error) else
    var session := TakeVector8(s, random.value.1, base);
    if session.Failure? then Failure(session.error)
    else Success((Front(version.value.0, random.value.0, session.value.0), session.value.1))
  }

  /** `_parse_client_hello`. */
  function ParseHello(s: bytes, base: nat): Result<ClientHello, ParseError> {
    var front := TakeFront(s, 0, base);
    if front.Failure? then Failure(front.error) else
    var ciphers := TakeCiphers(s, front.value.1, base);
    if ciphers.Failure? then Failure(ciphers.error) else
    var methods := TakeCompression(s, ciphers.value.1, base);
    if methods.Failure? then Failure(methods.error) else
    var extensions := ParseBlock(s, methods.value.1, base);
    if extensions.Failure? then Failure(extensions.error)
    else
      var f := front.value.0;
      Success(ClientHello(f.legacyVersion, f.random, f.sessionId, ciphers.value.0, methods.value.0, extensions.value))
  }

  // ----- the encoder -----

  predicate AllU16(values: seq<nat>) {
    forall i :: 0 <= i < |values| ==> values[i] < 0x1_0000
  }

  function EncodeU16s(values: seq<nat>): (b: bytes)
    requires AllU16(values)
    ensures |b| == 2 * |values|
  {
    if values == [] then [] else FromU16(values[0]) + EncodeU16s(values[1..])
  }

  predicate ExtensionOk(e: TlsExtension) {
    e.typeId < 0x1_0000 && |e.data| < 0x1_0000
  }

  function EncodeExtension(e: TlsExtension): bytes
    requires ExtensionOk(e)
  {
    FromU16(e.typeId) + (FromU16(|e.data|) + e.data)
  }

  function EncodeExtensions(es: seq<TlsExtension>): bytes
    requires forall e <- es :: ExtensionOk(e)
  {
    if es == [] then [] else EncodeExtension(es[0]) + EncodeExtensions(es[1..])
  }

  predicate Distinct(es: seq<TlsExtension>) {
    forall i, j :: 0 <= i < j < |es| ==> es[i].typeId != es[j].typeId
  }

  /** What a ClientHello must satisfy to have a wire form. */
  predicate WellFormed(h: ClientHello) {
    && h.legacyVersion < 0x1_0000 && |h.random| == 32 && |h.sessionId| < 256
    && 0 < |h.cipherSuites| < 0x8000 && AllU16(h.cipherSuites)
    && 0 < |h.compressionMethods| < 256
    && (forall e <- h.extensions :: ExtensionOk(e)) && Distinct(h.extensions)
    && |EncodeExtensions(h.extensions)| < 0x1_0000
  }

  function Vector8(data: bytes): bytes
    requires |data| < 256
  {
    [|data|] + data
  }

  function Vector16(data: bytes): bytes
    requires |data| < 0x1_0000
  {
    FromU16(|data|) + data
  }

  function EncodeFront(h: ClientHello): bytes
    requires WellFormed(h)
  {
    FromU16(h.legacyVersion) + (h.random + Vector8(h.sessionId))
  }

  /** An empty extension list may go out as an absent block or as an empty one. */
  function EncodeBlock(es: seq<TlsExtension>, block: bool): bytes
    requires (forall e <- es :: ExtensionOk(e)) && |EncodeExtensions(es)| < 0x1_0000
  {
    if es == [] && !block then [] else Vector16(EncodeExtensions(es))
  }

  function Encode(h: ClientHello, block: bool): bytes
    requires WellFormed(h)
  {
    EncodeFront(h) +
    (Vector16(EncodeU16s(h.cipherSuites)) + (Vector8(h.compressionMethods) + EncodeBlock(h.extensions, block)))
  }

  // ----- single reads -----

  lemma TakeAt(s: bytes, p: nat, w: bytes, base: nat)
    requires At(s, p, w)
    ensures Take(s, p, |w|, base) == Success((w, p + |w|))
  {
    AtSlice(s, p, w);
  }

  lemma TakeU16At(s: bytes, p: nat, n: nat, base: nat)
    requires n < 0x1_0000 && At(s, p, FromU16(n))
    ensures TakeU16(s, p, base) == Success((n, p + 2))
  {
    TakeAt(s, p, FromU16(n), base);
  }

  lemma TakeVector8At(s: bytes, p: nat, data: bytes, base: nat)
    requires |data| < 256 && At(s, p, Vector8(data))
    ensures TakeVector8(s, p, base) == Success((data, p + |Vector8(data)|))
  {
    AtSplit(s, p, [|data|], data);
    TakeAt(s, p, [|data|], base);
    TakeAt(s, p + 1, data, base);
  }

  lemma TakeVector16At(s: bytes, p: nat, data: bytes, base: nat)
    requires |data| < 0x1_0000 && At(s, p, Vector16(data))
    ensures TakeVector16(s, p, base) == Success((data, p + |Vector16(data)|))
  {
    AtSplit(s, p, FromU16(|data|), data);
    TakeU16At(s, p, |data|, base);
    TakeAt(s, p + 2, data, base);
  }

  lemma TookU16(s: bytes, p: nat, base: nat)
    requires p <= |s| && TakeU16(s, p, base).Success?
    ensures var n := TakeU16(s, p, base).value.0;
            n < 0x1_0000 && At(s, p, FromU16(n)) && TakeU16(s, p, base).value.1 == p + 2 <= |s|
  {
    FromU16Of(s[p..p + 2]);
    AtSlice(s, p, s[p..p + 2]);
  }

  lemma TookVector8(s: bytes, p: nat, base: nat)
    requires p <= |s| && TakeVector8(s, p, base).Success?
    ensures var (data, q) := TakeVector8(s, p, base).value;
            |data| < 256 && At(s, p, Vector8(data)) && q == p + |Vector8(data)| <= |s|
  {
    var (data, q) := TakeVector8(s, p, base).value;
    assert s[p..p + 1] == [|data|];
    AtSlice(s, p, [|data|]);
    AtSlice(s, p + 1, data);
    AtSplit(s, p, [|data|], data);
  }

  lemma TookVector16(s: bytes, p: nat, base: nat)
    requires p <= |s| && TakeVector16(s, p, base).Success?
    ensures var (data, q) := TakeVector16(s, p, base).value;
            |data| < 0x1_0000 && At(s, p, Vector16(data)) && q == p + |Vector16(data)| <= |s|
  {
    var (data, q) := TakeVector16(s, p, base).value;
    TookU16(s, p, base);
    AtSlice(s, p + 2, data);
    AtSplit(s, p, FromU16(|data|), data);
  }

  // ----- lists -----

  lemma {:induction false} U16sRoundTrip(values: seq<nat>)
    requires AllU16(values)
    ensures U16Values(EncodeU16s(values)) == values
  {
    if values != [] {
      U16sRoundTrip(values[1..]);
      var b := EncodeU16s(values);
      assert b[..2] == FromU16(values[0]) && b[2..] == EncodeU16s(values[1..]);
    }
  }

  lemma {:induction false} U16sParsed(data: bytes)
    requires |data| % 2 == 0
    ensures |U16Values(data)| == |data| / 2 && AllU16(U16Values(data))
    ensures EncodeU16s(U16Values(data)) == data
  {
    if data != [] {
      U16sParsed(data[2..]);
      FromU16Of(data[..2]);
      assert U16Values(data)[1..] == U16Values(data[2..]);
      assert data == data[..2] + data[2..];
    }
  }

  lemma ExtensionAt(s: bytes, p: nat, e: TlsExtension, base: nat)
    requires ExtensionOk(e) && At(s, p, EncodeExtension(e))
    ensures TakeExtension(s, p, base) == Success((e, p + |EncodeExtension(e)|)) && |EncodeExtension(e)| > 0
  {
    AtSplit(s, p, FromU16(e.typeId), FromU16(|e.data|) + e.data);
    TakeU16At(s, p, e.typeId, base);
    TakeVector16At(s, p + 2, e.data, base);
  }

  lemma TookExtension(s: bytes, p: nat, base: nat)
    requires p <= |s| && TakeExtension(s, p, base).Success?
    ensures var (e, q) := TakeExtension(s, p, base).value;
            ExtensionOk(e) && At(s, p, EncodeExtension(e)) && q == p + |EncodeExtension(e)| <= |s|
  {
    var (e, q) := TakeExtension(s, p, base).value;
    TookU16(s, p, base);
    TookVector16(s, p + 2, base);
    AtSplit(s, p, FromU16(e.typeId), FromU16(|e.data|) + e.data);
  }

  /** No type twice, and none of `seen`. */
  predicate FreshTypes(es: seq<TlsExtension>, seen: set<nat>) {
    Distinct(es) && forall i :: 0 <= i < |es| ==> es[i].typeId !in seen
  }

  lemma FreshCons(es: seq<TlsExtension>, seen: set<nat>)
    requires es != []
    ensures FreshTypes(es, seen) <==> es[0].typeId !in seen && FreshTypes(es[1..], seen + {es[0].typeId})
  {
    if FreshTypes(es, seen) {
      FreshTail(es, seen);
    }
    if es[0].typeId !in seen && FreshTypes(es[1..], seen + {es[0].typeId}) {
      FreshJoin(es, seen);
    }
  }

  lemma FreshTail(es: seq<TlsExtension>, seen: set<nat>)
    requires es != [] && FreshTypes(es, seen)
    ensures es[0].typeId !in seen && FreshTypes(es[1..], seen + {es[0].typeId})
  {
    var t := es[1..];
    forall i, j | 0 <= i < j < |t|
      ensures t[i].typeId != t[j].typeId
    {
      assert t[i] == es[i + 1] && t[j] == es[j + 1];
    }
    forall i | 0 <= i < |t|
      ensures t[i].typeId !in seen + {es[0].typeId}
    {
      assert t[i] == es[i + 1];
    }
  }

  lemma FreshJoin(es: seq<TlsExtension>, seen: set<nat>)
    requires es != [] && es[0].typeId !in seen && FreshTypes(es[1..], seen + {es[0].typeId})
    ensures FreshTypes(es, seen)
  {
    var t := es[1..];
    forall i, j | 0 <= i < j < |es|
      ensures es[i].typeId != es[j].typeId
    {
      assert es[j] == t[j - 1] && (i > 0 ==> es[i] == t[i - 1]);
    }
    forall i | 0 <= i < |es|
      ensures es[i].typeId !in seen
    {
      assert i > 0 ==> es[i] == t[i - 1];
    }
  }

  lemma {:induction false} ExtensionsAt(s: bytes, p: nat, es: seq<TlsExtension>, base: nat, seen: set<nat>)
    requires (forall e <- es :: ExtensionOk(e)) && FreshTypes(es, seen)
    requires At(s, p, EncodeExtensions(es)) && p + |EncodeExtensions(es)| == |s|
    ensures ParseExtensions(s, p, base, seen) == Success(es)
    decreases |es|
  {
    hide ExtensionOk, FreshTypes, EncodeExtension, TakeExtension, At;
    if es != [] {
      assert EncodeExtensions(es) == EncodeExtension(es[0]) + EncodeExtensions(es[1..]);
      hide EncodeExtensions;
      AtSplit(s, p, EncodeExtension(es[0]), EncodeExtensions(es[1..]));
      ExtensionAt(s, p, es[0], base);
      FreshCons(es, seen);
      ExtensionsAt(s, p + |EncodeExtension(es[0])|, es[1..], base, seen + {es[0].typeId});
      assert es == [es[0]] + es[1..];
    } else {
      assert |EncodeExtensions(es)| == 0 && p == |s|;
    }
  }

  lemma {:induction false} TookExtensions(s: bytes, p: nat, base: nat, seen: set<nat>)
    requires p <= |s| && ParseExtensions(s, p, base, seen).Success?
    ensures var es := ParseExtensions(s, p, base, seen).value;
            && (forall e <- es :: ExtensionOk(e)) && FreshTypes(es, seen)
            && At(s, p, EncodeExtensions(es)) && p + |EncodeExtensions(es)| == |s|
    decreases |s| - p
  {
    hide ExtensionOk;
    if p < |s| {
      var (e, q) := TakeExtension(s, p, base).value;
      TookExtension(s, p, base);
      TookExtensions(s, q, base, seen + {e.typeId});
      var es := ParseExtensions(s, p, base, seen).value;
      assert es[1..] == ParseExtensions(s, q, base, seen + {e.typeId}).value;
      FreshCons(es, seen);
      AtSplit(s, p, EncodeExtension(e), EncodeExtensions(es[1..]));
    }
  }

  lemma BlockAt(s: bytes, p: nat, es: seq<TlsExtension>, block: bool, base: nat)
    requires (forall e <- es :: ExtensionOk(e)) && Distinct(es) && |EncodeExtensions(es)| < 0x1_0000
    requires At(s, p, EncodeBlock(es, block)) && p + |EncodeBlock(es, block)| == |s|
    ensures ParseBlock(s, p, base) == Success(es)
  {
    hide EncodeExtensions, ExtensionOk;
    if es != [] || block {
      var data := EncodeExtensions(es);
      TakeVector16At(s, p, data, base);
      AtWhole(data);
      ExtensionsAt(data, 0, es, base + p + 2, {});
    }
  }

  lemma TookBlock(s: bytes, p: nat, base: nat)
    requires p <= |s| && ParseBlock(s, p, base).Success?
    ensures var es := ParseBlock(s, p, base).value;
            && (forall e <- es :: ExtensionOk(e)) && Distinct(es) && |EncodeExtensions(es)| < 0x1_0000
            && exists block :: At(s, p, EncodeBlock(es, block)) && p + |EncodeBlock(es, block)| == |s|
  {
    hide ExtensionOk, ParseExtensions;
    var es := ParseBlock(s, p, base).value;
    if p == |s| {
      assert At(s, p, EncodeBlock(es, false));
    } else {
      TookVector16(s, p, base);
      var data := TakeVector16(s, p, base).value.0;
      TookExtensions(data, 0, base + p + 2, {});
      AtSlice(data, 0, EncodeExtensions(es));
      assert data == EncodeExtensions(es);
      assert At(s, p, EncodeBlock(es, true));
    }
  }

  // ----- the whole body -----

  lemma FrontAt(s: bytes, h: ClientHello, base: nat)
    requires WellFormed(h) && At(s, 0, EncodeFront(h))
    ensures TakeFront(s, 0, base) == Success((Front(h.legacyVersion, h.random, h.sessionId), |EncodeFront(h)|))
  {
    AtSplit(s, 0, FromU16(h.legacyVersion), h.random + Vector8(h.sessionId));
    AtSplit(s, 2, h.random, Vector8(h.sessionId));
    TakeU16At(s, 0, h.legacyVersion, base);
    TakeAt(s, 2, h.random, base);
    TakeVector8At(s, 34, h.sessionId, base);
  }

  lemma CiphersAt(s: bytes, p: nat, values: seq<nat>, base: nat)
    requires AllU16(values) && 0 < |values| < 0x8000 && At(s, p, Vector16(EncodeU16s(values)))
    ensures TakeCiphers(s, p, base) == Success((values, p + |Vector16(EncodeU16s(values))|))
  {
    hide At;
    TakeVector16At(s, p, EncodeU16s(values), base);
    U16sRoundTrip(values);
    hide EncodeU16s, U16Values, AllU16;
  }

  /** Printing and parsing back: every well-formed ClientHello survives, with or without an
      explicit empty extension block. */
  lemma ParseOfEncode(h: ClientHello, block: bool, base: nat)
    requires WellFormed(h)
    ensures ParseHello(Encode(h, block), base) == Success(h)
  {
    hide EncodeU16s, EncodeExtensions, ExtensionOk, AllU16, TakeFront, TakeCiphers, ParseBlock, At, Distinct;
    var s := Encode(h, block);
    var front, ciphers, methods := EncodeFront(h), Vector16(EncodeU16s(h.cipherSuites)), Vector8(h.compressionMethods);
    var rest := EncodeBlock(h.extensions, block);
    AtWhole(s);
    AtSplit(s, 0, front, ciphers + (methods + rest));
    AtSplit(s, |front|, ciphers, methods + rest);
    AtSplit(s, |front| + |ciphers|, methods, rest);
    FrontAt(s, h, base);
    CiphersAt(s, |front|, h.cipherSuites, base);
    TakeVector8At(s, |front| + |ciphers|, h.compressionMethods, base);
    BlockAt(s, |front| + |ciphers| + |methods|, h.extensions, block, base);
  }

  lemma TookFront(s: bytes, base: nat)
    requires TakeFront(s, 0, base).Success?
    ensures var (f, q) := TakeFront(s, 0, base).value;
            && f.legacyVersion < 0x1_0000 && |f.random| == 32 && |f.sessionId| < 256
            && q == 34 + |Vector8(f.sessionId)| <= |s|
            && At(s, 0, FromU16(f.legacyVersion) + (f.random + Vector8(f.sessionId)))
  {
    var f := TakeFront(s, 0, base).value.0;
    TookU16(s, 0, base);
    AtSlice(s, 2, f.random);
    TookVector8(s, 34, base);
    AtSplit(s, 0, FromU16(f.legacyVersion), f.random + Vector8(f.sessionId));
    AtSplit(s, 2, f.random, Vector8(f.sessionId));
  }

  lemma TookCiphers(s: bytes, p: nat, base: nat)
    requires p <= |s| && TakeCiphers(s, p, base).Success?
    ensures var (values, q) := TakeCiphers(s, p, base).value;
            && AllU16(values) && 0 < |values| < 0x8000
            && q == p + |Vector16(EncodeU16s(values))| <= |s| && At(s, p, Vector16(EncodeU16s(values)))
  {
    TookVector16(s, p, base);
    U16sParsed(TakeVector16(s, p, base).value.0);
  }

  /** Parsing and printing back: an accepted body is the encoding of what it was parsed to, up to the
      choice between an absent and an empty extension block. */
  lemma EncodeOfParse(s: bytes, base: nat) returns (block: bool)
    requires ParseHello(s, base).Success?
    ensures var h := ParseHello(s, base).value; WellFormed(h) && s == Encode(h, block)
  {
    hide EncodeU16s, EncodeExtensions, ExtensionOk, AllU16, At, Distinct;
    var h := ParseHello(s, base).value;
    TookFront(s, base);
    var p := TakeFront(s, 0, base).value.1;
    TookCiphers(s, p, base);
    var q := TakeCiphers(s, p, base).value.1;
    TookVector8(s, q, base);
    var r := TakeCompression(s, q, base).value.1;
    TookBlock(s, r, base);
    block :| At(s, r, EncodeBlock(h.extensions, block)) && r + |EncodeBlock(h.extensions, block)| == |s|;
    BodyAssembled(s, h, block, p, q, r);
  }

  lemma BodyAssembled(s: bytes, h: ClientHello, block: bool, p: nat, q: nat, r: nat)
    requires WellFormed(h) && At(s, 0, EncodeFront(h)) && p == |EncodeFront(h)|
    requires At(s, p, Vector16(EncodeU16s(h.cipherSuites))) && q == p + |Vector16(EncodeU16s(h.cipherSuites))|
    requires At(s, q, Vector8(h.compressionMethods)) && r == q + |Vector8(h.compressionMethods)|
    requires At(s, r, EncodeBlock(h.extensions, block)) && r + |EncodeBlock(h.extensions, block)| == |s|
    ensures s == Encode(h, block)
  {
    var front, ciphers, methods := EncodeFront(h), Vector16(EncodeU16s(h.cipherSuites)), Vector8(h.compressionMethods);
    var rest := EncodeBlock(h.extensions, block);
    hide EncodeU16s, EncodeExtensions, WellFormed, EncodeFront, Vector16, Vector8, EncodeBlock, At;
    AtSplit(s, q, methods, rest);
    AtSplit(s, p, ciphers, methods + rest);
    AtSplit(s, 0, front, ciphers + (methods + rest));
    AtSlice(s, 0, Encode(h, block));
    assert s[0..|s|] == s;
  }
}
