/** The raw JA3 and JA4 strings of a parsed ClientHello, and what they depend on. */
module Fingerprints {
  import opened Wrappers
  import opened Bytes
  import opened Numerals
  import opened Sorting
  import opened DelimitedText
  import opened WireReader
  import opened ClientHelloCodec
  import opened ClientHelloParser

  const DASH: byte := 45
  const UNDERSCORE: byte := 95

  // ----- GREASE -----

  /** The two octets of the value are equal and both end in the hexadecimal digit A. */
  predicate IsGrease(v: nat) {
    v / 256 == v % 256 && v % 16 == 10
  }

  lemma TwoOctets(high: nat, low: nat)
    requires low < 256
    ensures var v := high * 256 + low; v / 256 == high && v % 256 == low && v % 16 == low % 16
  {
    assert high * 256 + low == 16 * (high * 16) + low;
  }

  lemma Nibble(low: nat)
    requires low < 256 && low % 16 == 10
    ensures low / 16 < 16 && low == 16 * (low / 16) + 10
  {}

  /** The reserved values of section 2 of RFC 8701. */
  lemma GreaseValues(v: nat)
    requires v < 0x1_0000
    ensures IsGrease(v) <==> exists k: nat :: k < 16 && v == 0x0A0A + k * 0x1010
  {
    if IsGrease(v) {
      var low := v % 256;
      TwoOctets(v / 256, low);
      Nibble(low);
      assert v == 0x0A0A + (low / 16) * 0x1010;
    }
    if k: nat :| k < 16 && v == 0x0A0A + k * 0x1010 {
      var low := 16 * k + 10;
      assert v == low * 256 + low;
      TwoOctets(low, low);
    }
  }

  function Real(values: seq<nat>): seq<nat> {
    if values == [] then []
    else (if IsGrease(values[0]) then [] else [values[0]]) + Real(values[1..])
  }

  function RealExtensions(es: seq<TlsExtension>): seq<TlsExtension> {
    if es == [] then []
    else (if IsGrease(es[0].typeId) then [] else [es[0]]) + RealExtensions(es[1..])
  }

  function TypeIds(es: seq<TlsExtension>): (r: seq<nat>)
    ensures |r| == |es|
  {
    seq(|es|, i requires 0 <= i < |es| => es[i].typeId)
  }

  /** The first extension of a type. */
  function Extension(es: seq<TlsExtension>, typeId: nat): (r: Option<TlsExtension>)
    ensures r.Some? ==> r.value in es && r.value.typeId == typeId
    ensures r.None? ==> forall e <- es :: e.typeId != typeId
  {
    if es == [] then None else if es[0].typeId == typeId then Some(es[0]) else Extension(es[1..], typeId)
  }

  // ----- extension vectors -----

  /** The 16-bit values of an inner vector that must be consumed whole. */
  function InnerU16s(data: bytes): Result<seq<nat>, ParseError> {
    if |data| % 2 != 0 then Failure(ParseError(Truncated, |data| - 1)) else Success(U16Values(data))
  }

  /** An extension body that is one vector of 16-bit values and nothing else. */
  function WholeVector(data: bytes, v: Result<(bytes, nat), ParseError>): Result<seq<nat>, ParseError> {
    if v.Failure? then Failure(v.error) else
    var values := InnerU16s(v.value.0);
    if values.Failure? then values
    else if v.value.1 != |data| then Failure(ParseError(TrailingBytes, v.value.1))
    else values
  }

  function RawU16Vector(data: bytes): Result<seq<nat>, ParseError> {
    WholeVector(data, TakeVector16(data, 0, 0))
  }

  function RawU8Vector(data: bytes): Result<seq<nat>, ParseError> {
    var v := TakeVector8(data, 0, 0);
    if v.Failure? then Failure(v.error)
    else if v.value.1 != |data| then Failure(ParseError(TrailingBytes, v.value.1))
    else Success(v.value.0)
  }

  predicate IsAscii(s: bytes) {
    forall b <- s :: b < 128
  }

  function ProtocolsFrom(s: bytes, p: nat): Result<seq<bytes>, ParseError>
    requires p <= |s|
    decreases |s| - p
  {
    if p == |s| then Success([])
    else
      var v := TakeVector8(s, p, 0);
      if v.Failure? then Failure(v.error)
      else if !IsAscii(v.value.0) then Failure(ParseError(NotAscii, p + 1))
      else Prepend([v.value.0], ProtocolsFrom(s, v.value.1))
  }

  function Protocols(data: bytes): Result<seq<bytes>, ParseError> {
    var v := TakeVector16(data, 0, 0);
    if v.Failure? then Failure(v.error) else
    var protocols := ProtocolsFrom(v.value.0, 0);
    if protocols.Failure? then protocols
    else if v.value.1 != |data| then Failure(ParseError(TrailingBytes, v.value.1))
    else protocols
  }

  lemma U16ValuesOfNone()
    ensures U16Values([]) == []
  {}

  lemma NextValue(data: bytes, p: nat, values: seq<nat>)
    requires |data| % 2 == 0 && p % 2 == 0 && p + 2 <= |data|
    ensures values + U16Values(data[p..]) == values + [U16(data[p..p + 2])] + U16Values(data[p + 2..])
  {
    assert data[p..][..2] == data[p..p + 2] && data[p..][2..] == data[p + 2..];
    assert U16Values(data[p..]) == [U16(data[p..p + 2])] + U16Values(data[p + 2..]);
    hide U16Values;
    Associative(values, [U16(data[p..p + 2])], U16Values(data[p + 2..]));
  }

  /** The decoding loop over an inner vector. */
  method ReadInner(data: bytes) returns (r: Result<seq<nat>, ParseError>)
    ensures r == InnerU16s(data)
  {
    hide U16;
    var payload := new Reader(data, 0);
    var values: seq<nat> := [];
    U16ValuesOfNone();
    assert data[0..] == data;
    if |data| % 2 == 0 {
      assert values + U16Values(data) == U16Values(data);
    }
    hide U16Values;
    while payload.Remaining() != 0
      invariant payload.Valid() && payload.cursor % 2 == 0 && (|data| % 2 != 0 ==> payload.cursor < |data|)
      invariant |data| % 2 == 0 ==> values + U16Values(data[payload.cursor..]) == U16Values(data)
      decreases payload.Remaining()
    {
      ghost var p := payload.cursor;
      var v := payload.ReadU16();
      if v.Failure? {
        return Failure(v.error);
      }
      if |data| % 2 == 0 {
        NextValue(data, p, values);
      }
      values := values + [v.value];
    }
    assert data[payload.cursor..] == [] && values + [] == values;
    r := Success(values);
  }

  method ReadRawU16Vector(data: bytes) returns (r: Result<seq<nat>, ParseError>)
    ensures r == RawU16Vector(data)
  {
    var reader := new Reader(data, 0);
    var payload := reader.ReadVector16();
    if payload.Failure? {
      return Failure(payload.error);
    }
    r := ReadInner(payload.value);
    if r.Success? {
      var end := reader.Finish();
      if end.Failure? {
        r := Failure(end.error);
      }
    }
  }

  method ReadProtocols(data: bytes) returns (r: Result<seq<bytes>, ParseError>)
    ensures r == Protocols(data)
  {
    var reader := new Reader(data, 0);
    var vector := reader.ReadVector16();
    if vector.Failure? {
      return Failure(vector.error);
    }
    ghost var after := reader.cursor;
    var payload := new Reader(vector.value, 0);
    var protocols: seq<bytes> := [];
    PrependNone(ProtocolsFrom(vector.value, 0));
    while payload.Remaining() != 0
      invariant payload.Valid() && reader.cursor == after
      invariant ProtocolsFrom(vector.value, 0) == Prepend(protocols, ProtocolsFrom(vector.value, payload.cursor))
      decreases payload.Remaining()
    {
      var offset := payload.Offset() + 1;
      var raw := payload.ReadVector8();
      if raw.Failure? {
        return Failure(raw.error);
      }
      if !IsAscii(raw.value) {
        return Failure(ParseError(NotAscii, offset));
      }
      PrependMore(protocols, [raw.value], ProtocolsFrom(vector.value, payload.cursor));
      protocols := protocols + [raw.value];
    }
    assert protocols + [] == protocols;
    var end := reader.Finish();
    r := if end.Failure? then Failure(end.error) else Success(protocols);
  }

  function VectorOf(es: seq<TlsExtension>, typeId: nat): Result<seq<nat>, ParseError> {
    match Extension(es, typeId)
    case None => Success([])
    case Some(e) => RawU16Vector(e.data)
  }

  // ----- JA3 -----

  datatype Ja3Fields = Ja3Fields(version: nat, ciphers: seq<nat>, extensions: seq<nat>, groups: seq<nat>, formats: seq<nat>)

  function SupportedGroups(h: ClientHello): Result<seq<nat>, ParseError> {
    VectorOf(h.extensions, 10)
  }

  function PointFormats(h: ClientHello): Result<seq<nat>, ParseError> {
    match Extension(h.extensions, 11)
    case None => Success([])
    case Some(e) => RawU8Vector(e.data)
  }

  function Ja3(h: ClientHello): Result<Ja3Fields, ParseError> {
    var groups := SupportedGroups(h);
    if groups.Failure? then Failure(groups.error) else
    var formats := PointFormats(h);
    if formats.Failure? then Failure(formats.error) else
    Success(Ja3Fields(h.legacyVersion, Real(h.cipherSuites), Real(TypeIds(h.extensions)), Real(groups.value), formats.value))
  }

  function Decimals(values: seq<nat>): (r: seq<bytes>)
    ensures |r| == |values| && forall i :: 0 <= i < |values| ==> r[i] == Decimal(values[i])
  {
    if values == [] then [] else [Decimal(values[0])] + Decimals(values[1..])
  }

  function Ja3Columns(f: Ja3Fields): seq<bytes> {
    [Decimal(f.version), Join(DASH, Decimals(f.ciphers)), Join(DASH, Decimals(f.extensions)),
     Join(DASH, Decimals(f.groups)), Join(DASH, Decimals(f.formats))]
  }

  function Ja3Raw(f: Ja3Fields): bytes {
    Join(COMMA, Ja3Columns(f))
  }

  lemma DecimalsLack(values: seq<nat>, b: byte)
    requires !IsDigit(b)
    ensures Lacks(b, Decimals(values)) && [] !in Decimals(values)
  {}

  lemma DashedUnique(a: seq<nat>, b: seq<nat>)
    ensures Join(DASH, Decimals(a)) == Join(DASH, Decimals(b)) ==> a == b
  {
    DecimalsLack(a, DASH);
    DecimalsLack(b, DASH);
    JoinInjective(DASH, Decimals(a), Decimals(b));
    if Decimals(a) == Decimals(b) {
      assert |a| == |b|;
      forall i | 0 <= i < |a|
        ensures a[i] == b[i]
      {
        DecimalValue(a[i]);
        DecimalValue(b[i]);
        assert Decimals(a)[i] == Decimals(b)[i];
      }
    }
  }

  lemma DashedLacksComma(values: seq<nat>)
    ensures COMMA !in Join(DASH, Decimals(values))
  {
    DecimalsLack(values, COMMA);
    JoinLacks(DASH, Decimals(values), COMMA);
  }

  lemma ColumnsLackComma(f: Ja3Fields)
    ensures Lacks(COMMA, Ja3Columns(f))
  {
    DashedLacksComma(f.ciphers);
    DashedLacksComma(f.extensions);
    DashedLacksComma(f.groups);
    DashedLacksComma(f.formats);
  }

  /** Two raw JA3 strings are equal if and only if all five field lists are equal, in order. */
  lemma Ja3Exact(f: Ja3Fields, g: Ja3Fields)
    ensures Ja3Raw(f) == Ja3Raw(g) <==> f == g
  {
    if Ja3Raw(f) == Ja3Raw(g) {
      ColumnsLackComma(f);
      ColumnsLackComma(g);
      hide Join, Decimals, Decimal;
      JoinUnique(COMMA, Ja3Columns(f), Ja3Columns(g));
      var x, y := Ja3Columns(f), Ja3Columns(g);
      assert x[0] == y[0] && x[1] == y[1] && x[2] == y[2] && x[3] == y[3] && x[4] == y[4];
      DecimalValue(f.version);
      DecimalValue(g.version);
      DashedUnique(f.ciphers, g.ciphers);
      DashedUnique(f.extensions, g.extensions);
      DashedUnique(f.groups, g.groups);
      DashedUnique(f.formats, g.formats);
    }
  }

  /** Two ClientHellos have the same raw JA3 string if and only if version, real ciphers, real extension types, real
      groups and point formats are the same, in the same order. */
  lemma SameJa3(h: ClientHello, k: ClientHello)
    requires Ja3(h).Success? && Ja3(k).Success?
    ensures Ja3Raw(Ja3(h).value) == Ja3Raw(Ja3(k).value) <==>
            && h.legacyVersion == k.legacyVersion
            && Real(h.cipherSuites) == Real(k.cipherSuites)
            && Real(TypeIds(h.extensions)) == Real(TypeIds(k.extensions))
            && Real(SupportedGroups(h).value) == Real(SupportedGroups(k).value)
            && PointFormats(h).value == PointFormats(k).value
  {
    Ja3Exact(Ja3(h).value, Ja3(k).value);
  }

  lemma {:induction false} ExtensionIsReal(es: seq<TlsExtension>, typeId: nat)
    requires !IsGrease(typeId)
    ensures Extension(es, typeId) == Extension(RealExtensions(es), typeId)
  {
    if es != [] {
      ExtensionIsReal(es[1..], typeId);
      hide IsGrease;
      var rest := RealExtensions(es[1..]);
      if IsGrease(es[0].typeId) {
        assert RealExtensions(es) == rest;
      } else {
        ExtensionOfCons(es[0], rest, typeId);
        assert RealExtensions(es) == [es[0]] + rest;
      }
    }
  }

  lemma ExtensionOfCons(e: TlsExtension, es: seq<TlsExtension>, typeId: nat)
    ensures Extension([e] + es, typeId) == if e.typeId == typeId then Some(e) else Extension(es, typeId)
  {
    var all := [e] + es;
    assert all[1..] == es;
  }

  /** `k` is `h` with GREASE ciphers and GREASE extensions put in anywhere. */
  predicate Greased(h: ClientHello, i: nat, ciphers: seq<nat>, j: nat, extensions: seq<TlsExtension>, k: ClientHello) {
    && i <= |h.cipherSuites| && j <= |h.extensions|
    && (forall c <- ciphers :: IsGrease(c)) && (forall e <- extensions :: IsGrease(e.typeId))
    && k == h.(cipherSuites := h.cipherSuites[..i] + ciphers + h.cipherSuites[i..],
               extensions := h.extensions[..j] + extensions + h.extensions[j..])
  }

  lemma GreasedIsReal(h: ClientHello, i: nat, ciphers: seq<nat>, j: nat, extensions: seq<TlsExtension>, k: ClientHello)
    requires Greased(h, i, ciphers, j, extensions, k)
    ensures Real(h.cipherSuites) == Real(k.cipherSuites) && RealExtensions(h.extensions) == RealExtensions(k.extensions)
    ensures h.legacyVersion == k.legacyVersion
  {
    var c, e := h.cipherSuites, h.extensions;
    AllGrease(ciphers);
    AllGreaseExtensions(extensions);
    hide Real, RealExtensions;
    assert c == c[..i] + c[i..] && e == e[..j] + e[j..];
    RealAppend(c[..i], c[i..]);
    RealAppend(c[..i] + ciphers, c[i..]);
    RealAppend(c[..i], ciphers);
    RealExtensionsAppend(e[..j], e[j..]);
    RealExtensionsAppend(e[..j] + extensions, e[j..]);
    RealExtensionsAppend(e[..j], extensions);
    assert Real(c[..i]) + [] == Real(c[..i]) && RealExtensions(e[..j]) + [] == RealExtensions(e[..j]);
  }

  /** What both fingerprints look up is the same in both. */
  lemma SameReal(es: seq<TlsExtension>, fs: seq<TlsExtension>)
    requires RealExtensions(es) == RealExtensions(fs)
    ensures Real(TypeIds(es)) == Real(TypeIds(fs))
    ensures forall t :: !IsGrease(t) ==> Extension(es, t) == Extension(fs, t)
  {
    hide RealExtensions, Extension, Real, TypeIds, IsGrease;
    RealOf(es);
    RealOf(fs);
    forall t | !IsGrease(t)
      ensures Extension(es, t) == Extension(fs, t)
    {
      ExtensionIsReal(es, t);
      ExtensionIsReal(fs, t);
    }
  }

  // ----- JA4 -----

  function SupportedVersions(h: ClientHello): Result<seq<nat>, ParseError> {
    match Extension(h.extensions, 43)
    case None => Success([h.legacyVersion])
    case Some(e) => WholeVector(e.data, TakeVector8(e.data, 0, 0))
  }

  function Highest(values: seq<nat>): (m: nat)
    requires values != []
    ensures m in values && forall v <- values :: v <= m
  {
    if |values| == 1 then values[0]
    else
      var m := Highest(values[1..]);
      assert values == [values[0]] + values[1..];
      if values[0] > m then values[0] else m
  }

  /** The highest version offered, GREASE aside. */
  function Version(h: ClientHello): Result<nat, ParseError> {
    var offered := SupportedVersions(h);
    if offered.Failure? then Failure(offered.error) else
    var kept := Real(offered.value);
    var highest := Highest(if kept == [] then [h.legacyVersion] else kept);
    if 0x0301 <= highest <= 0x0304 then Success(highest) else Failure(ParseError(UnsupportedVersion, 0))
  }

  predicate NumberLeq(a: nat, b: nat) {
    a <= b
  }

  function Capped(n: nat): nat {
    if n < 99 then n else 99
  }

  function WithoutSniAndAlpn(values: seq<nat>): seq<nat> {
    if values == [] then []
    else (if values[0] == 0 || values[0] == 16 then [] else [values[0]]) + WithoutSniAndAlpn(values[1..])
  }

  /** First and last character of the first protocol, or two zeros. */
  function AlpnMarker(protocols: seq<bytes>): (m: bytes)
    ensures |m| == 2
  {
    if protocols == [] || protocols[0] == [] then [48, 48]
    else [protocols[0][0], protocols[0][|protocols[0]| - 1]]
  }

  datatype Ja4Parts = Ja4Parts(version: nat, serverName: bool, cipherCount: nat, extensionCount: nat, alpn: bytes,
                               ciphers: seq<nat>, extensions: seq<nat>, signatures: seq<nat>)
  {
    predicate Valid() {
      && 0x0301 <= version <= 0x0304 && cipherCount < 100 && extensionCount < 100 && |alpn| == 2
      && AllU16(ciphers) && AllU16(extensions) && AllU16(signatures)
    }
  }

  function OfferedProtocols(h: ClientHello): Result<seq<bytes>, ParseError> {
    match Extension(h.extensions, 16)
    case None => Success([])
    case Some(e) => Protocols(e.data)
  }

  function Ja4(h: ClientHello): Result<Ja4Parts, ParseError> {
    var ciphers := Sort(Real(h.cipherSuites), NumberLeq);
    var extensions := Sort(Real(TypeIds(h.extensions)), NumberLeq);
    var signatures := VectorOf(h.extensions, 13);
    if signatures.Failure? then Failure(signatures.error) else
    var protocols := OfferedProtocols(h);
    if protocols.Failure? then Failure(protocols.error) else
    var version := Version(h);
    if version.Failure? then Failure(version.error) else
    Success(Ja4Parts(version.value, Extension(h.extensions, 0).Some?, Capped(|ciphers|), Capped(|extensions|),
                     AlpnMarker(protocols.value), ciphers, WithoutSniAndAlpn(extensions), Real(signatures.value)))
  }

  function TwoDigits(n: nat): (s: bytes)
    requires n < 100
    ensures |s| == 2
  {
    [DecimalDigit(n / 10), DecimalDigit(n % 10)]
  }

  function FourHex(n: nat): (s: bytes)
    requires n < 0x1_0000
    ensures |s| == 4 && AllHexDigits(s)
  {
    [HexDigit(n / 4096), HexDigit(n / 256 % 16), HexDigit(n / 16 % 16), HexDigit(n % 16)]
  }

  function FourHexes(values: seq<nat>): (r: seq<bytes>)
    requires AllU16(values)
    ensures |r| == |values| && forall i :: 0 <= i < |values| ==> r[i] == FourHex(values[i])
  {
    if values == [] then [] else [FourHex(values[0])] + FourHexes(values[1..])
  }

  /** Protocol, version tag, server name marker, counts and ALPN marker: always ten characters. */
  function SectionA(p: Ja4Parts): (s: bytes)
    requires p.Valid()
    ensures |s| == 10
  {
    [116] + [49, 47 + (p.version - 0x0300)] + [if p.serverName then 100 else 105]
    + TwoDigits(p.cipherCount) + TwoDigits(p.extensionCount) + p.alpn
  }

  function Hexes(values: seq<nat>): bytes
    requires AllU16(values)
  {
    Join(COMMA, FourHexes(values))
  }

  function Ja4Raw(p: Ja4Parts): bytes
    requires p.Valid()
  {
    SectionA(p) + ([UNDERSCORE] + Join(UNDERSCORE, [Hexes(p.ciphers), Hexes(p.extensions), Hexes(p.signatures)]))
  }

  // ----- the raw string determines its parts -----

  lemma FourHexUnique(m: nat, n: nat)
    requires m < 0x1_0000 && n < 0x1_0000 && FourHex(m) == FourHex(n)
    ensures m == n
  {
    var a, b := FourHex(m), FourHex(n);
    assert a[0] == b[0] && a[1] == b[1] && a[2] == b[2] && a[3] == b[3];
    hide FourHex;
    HexDigitUnique(m / 4096, n / 4096);
    HexDigitUnique(m / 256 % 16, n / 256 % 16);
    HexDigitUnique(m / 16 % 16, n / 16 % 16);
    HexDigitUnique(m % 16, n % 16);
    Nibbles(m);
    Nibbles(n);
  }

  lemma Nibbles(n: nat)
    ensures n == (n / 4096) * 4096 + (n / 256 % 16) * 256 + (n / 16 % 16) * 16 + n % 16
  {
    assert n / 16 / 16 == n / 256 && n / 256 / 16 == n / 4096;
  }

  lemma HexDigitUnique(m: nat, n: nat)
    requires m < 16 && n < 16
    ensures HexDigit(m) == HexDigit(n) ==> m == n
  {}

  lemma HexesLack(values: seq<nat>, b: byte)
    requires AllU16(values) && !IsHexDigit(b)
    ensures Lacks(b, FourHexes(values)) && [] !in FourHexes(values)
    ensures b != COMMA ==> b !in Hexes(values)
  {
    forall x <- FourHexes(values)
      ensures b !in x && x != []
    {
      var i :| 0 <= i < |values| && x == FourHex(values[i]);
    }
    if b != COMMA {
      JoinLacks(COMMA, FourHexes(values), b);
    }
  }

  lemma HexesUnique(a: seq<nat>, b: seq<nat>)
    requires AllU16(a) && AllU16(b) && Hexes(a) == Hexes(b)
    ensures a == b
  {
    HexesLack(a, COMMA);
    HexesLack(b, COMMA);
    JoinInjective(COMMA, FourHexes(a), FourHexes(b));
    forall i | 0 <= i < |a|
      ensures a[i] == b[i]
    {
      assert FourHexes(a)[i] == FourHexes(b)[i];
      FourHexUnique(a[i], b[i]);
    }
  }

  lemma SectionAUnique(p: Ja4Parts, q: Ja4Parts)
    requires p.Valid() && q.Valid() && SectionA(p) == SectionA(q)
    ensures p.version == q.version && p.serverName == q.serverName && p.alpn == q.alpn
    ensures p.cipherCount == q.cipherCount && p.extensionCount == q.extensionCount
  {
    var a, b := SectionA(p), SectionA(q);
    assert a[2] == 47 + (p.version - 0x0300) && b[2] == 47 + (q.version - 0x0300);
    assert a[3] == (if p.serverName then 100 else 105) && b[3] == (if q.serverName then 100 else 105);
    assert a[4..6] == TwoDigits(p.cipherCount) && b[4..6] == TwoDigits(q.cipherCount);
    assert a[6..8] == TwoDigits(p.extensionCount) && b[6..8] == TwoDigits(q.extensionCount);
    assert a[8..] == p.alpn && b[8..] == q.alpn;
    TwoDigitsUnique(p.cipherCount, q.cipherCount);
    TwoDigitsUnique(p.extensionCount, q.extensionCount);
  }

  lemma TwoDigitsUnique(m: nat, n: nat)
    requires m < 100 && n < 100 && TwoDigits(m) == TwoDigits(n)
    ensures m == n
  {
    assert TwoDigits(m)[0] == TwoDigits(n)[0] && TwoDigits(m)[1] == TwoDigits(n)[1];
  }

  /** Two raw JA4 strings are equal if and only if version tag, server name marker, capped counts, ALPN marker and the
      three lists are all equal. */
  lemma Ja4RawExact(p: Ja4Parts, q: Ja4Parts)
    requires p.Valid() && q.Valid()
    ensures Ja4Raw(p) == Ja4Raw(q) <==> p == q
  {
    if Ja4Raw(p) == Ja4Raw(q) {
      var x, y := [Hexes(p.ciphers), Hexes(p.extensions), Hexes(p.signatures)],
                  [Hexes(q.ciphers), Hexes(q.extensions), Hexes(q.signatures)];
      SectionsLack(p);
      SectionsLack(q);
      Ja4Halves(p);
      Ja4Halves(q);
      hide SectionA, Hexes, Join, Lacks, Ja4Raw;
      SectionAUnique(p, q);
      JoinUnique(UNDERSCORE, x, y);
      assert x[0] == y[0] && x[1] == y[1] && x[2] == y[2];
      HexesUnique(p.ciphers, q.ciphers);
      HexesUnique(p.extensions, q.extensions);
      HexesUnique(p.signatures, q.signatures);
    }
  }

  lemma Ja4Halves(p: Ja4Parts)
    requires p.Valid()
    ensures |Ja4Raw(p)| >= 11 && Ja4Raw(p)[..10] == SectionA(p)
    ensures Ja4Raw(p)[11..] == Join(UNDERSCORE, [Hexes(p.ciphers), Hexes(p.extensions), Hexes(p.signatures)])
  {
    hide SectionA, Hexes, Join;
  }

  lemma SectionsLack(p: Ja4Parts)
    requires p.Valid()
    ensures Lacks(UNDERSCORE, [Hexes(p.ciphers), Hexes(p.extensions), Hexes(p.signatures)])
  {
    HexesLack(p.ciphers, UNDERSCORE);
    HexesLack(p.extensions, UNDERSCORE);
    HexesLack(p.signatures, UNDERSCORE);
  }

  lemma {:induction false} RealKeeps(values: seq<nat>)
    requires AllU16(values)
    ensures AllU16(Real(values))
  {
    if values != [] {
      assert values[0] in values && forall v <- values[1..] :: v in values;
      RealKeeps(values[1..]);
    }
  }

  lemma {:induction false} WithoutKeeps(values: seq<nat>)
    requires AllU16(values)
    ensures AllU16(WithoutSniAndAlpn(values))
  {
    if values != [] {
      assert values[0] in values && forall v <- values[1..] :: v in values;
      WithoutKeeps(values[1..]);
    }
  }

  lemma {:induction false} DecodedU16s(data: bytes)
    requires |data| % 2 == 0
    ensures AllU16(U16Values(data))
  {
    if data != [] {
      DecodedU16s(data[2..]);
    }
  }

  lemma SortKeepsU16(values: seq<nat>)
    requires AllU16(values)
    ensures AllU16(Sort(values, NumberLeq))
  {
    NumbersOrdered();
    SortKeeps(values, NumberLeq);
    var sorted := Sort(values, NumberLeq);
    forall i | 0 <= i < |sorted|
      ensures sorted[i] < 0x1_0000
    {
      assert sorted[i] in multiset(sorted);
      assert sorted[i] in values;
    }
  }

  lemma VectorKeepsU16(es: seq<TlsExtension>, typeId: nat)
    requires VectorOf(es, typeId).Success?
    ensures AllU16(VectorOf(es, typeId).value)
  {
    hide Extension, TakeVector16;
    var item := Extension(es, typeId);
    if item.Some? {
      DecodedU16s(TakeVector16(item.value.data, 0, 0).value.0);
    }
  }

  lemma TypesAreU16(h: ClientHello)
    requires Narrow(h)
    ensures AllU16(h.cipherSuites) && AllU16(TypeIds(h.extensions))
  {}

  /** Every ClientHello with 16-bit identifiers, as the parser returns them, has parts that fit the format. */
  lemma Ja4FitsFormat(h: ClientHello)
    requires Narrow(h) && Ja4(h).Success?
    ensures Ja4(h).value.Valid()
  {
    TypesAreU16(h);
    hide Narrow, AllU16, Real, TypeIds, Sort, WithoutSniAndAlpn, Extension, OfferedProtocols, Version, AlpnMarker, VectorOf;
    RealKeeps(h.cipherSuites);
    RealKeeps(TypeIds(h.extensions));
    SortKeepsU16(Real(h.cipherSuites));
    SortKeepsU16(Real(TypeIds(h.extensions)));
    WithoutKeeps(Sort(Real(TypeIds(h.extensions)), NumberLeq));
    VectorKeepsU16(h.extensions, 13);
    RealKeeps(VectorOf(h.extensions, 13).value);
    VersionInRange(h);
  }

  lemma VersionInRange(h: ClientHello)
    ensures Version(h).Success? ==> 0x0301 <= Version(h).value <= 0x0304
  {}

  function Struck(m: multiset<nat>): multiset<nat> {
    m[0 := 0][16 := 0]
  }

  lemma StruckPlus(m: multiset<nat>, v: nat)
    ensures Struck(multiset{v} + m) == if v == 0 || v == 16 then Struck(m) else multiset{v} + Struck(m)
  {}

  lemma {:induction false} WithoutMultiset(values: seq<nat>)
    ensures multiset(WithoutSniAndAlpn(values)) == Struck(multiset(values))
  {
    if values != [] {
      hide Struck;
      var v, rest := values[0], values[1..];
      WithoutMultiset(rest);
      StruckPlus(multiset(rest), v);
      assert values == [v] + rest;
    }
  }

  lemma {:induction false} WithoutOrdered(values: seq<nat>)
    requires Ordered(values, NumberLeq)
    ensures Ordered(WithoutSniAndAlpn(values), NumberLeq) && forall v <- WithoutSniAndAlpn(values) :: v in values
  {
    if values != [] {
      hide Ordered;
      assert values == [values[0]] + values[1..];
      OrderedCons(values[0], values[1..], NumberLeq);
      WithoutOrdered(values[1..]);
      OrderedCons(values[0], WithoutSniAndAlpn(values[1..]), NumberLeq);
    }
  }

  lemma KeptSorted(a: seq<nat>)
    ensures var kept := WithoutSniAndAlpn(Sort(a, NumberLeq));
            Ordered(kept, NumberLeq) && multiset(kept) == multiset(WithoutSniAndAlpn(a))
  {
    hide Sort, WithoutSniAndAlpn;
    NumbersOrdered();
    SortKeeps(a, NumberLeq);
    WithoutOrdered(Sort(a, NumberLeq));
    WithoutMultiset(a);
    WithoutMultiset(Sort(a, NumberLeq));
  }

  /** The sorted lists without server name and ALPN agree exactly when what they list agrees, order aside. */
  lemma SameKept(a: seq<nat>, b: seq<nat>)
    ensures WithoutSniAndAlpn(Sort(a, NumberLeq)) == WithoutSniAndAlpn(Sort(b, NumberLeq)) <==>
            multiset(WithoutSniAndAlpn(a)) == multiset(WithoutSniAndAlpn(b))
  {
    hide Sort, WithoutSniAndAlpn;
    NumbersOrdered();
    KeptSorted(a);
    KeptSorted(b);
    var x, y := WithoutSniAndAlpn(Sort(a, NumberLeq)), WithoutSniAndAlpn(Sort(b, NumberLeq));
    if multiset(x) == multiset(y) {
      OrderedUnique(x, y, NumberLeq);
    }
  }

  lemma SortedLength(a: seq<nat>)
    ensures |Sort(a, NumberLeq)| == |a|
  {
    NumbersOrdered();
    SortKeeps(a, NumberLeq);
    assert |multiset(Sort(a, NumberLeq))| == |multiset(a)|;
  }

  /** The identifiers the parser returns: 16 bits. */
  predicate Narrow(h: ClientHello) {
    AllU16(h.cipherSuites) && forall e <- h.extensions :: e.typeId < 0x1_0000
  }

  /** Two ClientHellos have the same raw JA4 string if and only if they agree on: the highest version; whether there is a
      server name; the number of real extensions, up to 99; the marks of the first protocol; the real ciphers and the
      real extension types other than server name and ALPN, order aside; and the real signature algorithms, in order. */
  lemma SameJa4(h: ClientHello, k: ClientHello)
    requires Narrow(h) && Narrow(k) && Ja4(h).Success? && Ja4(k).Success?
    ensures Ja4(h).value.Valid() && Ja4(k).value.Valid()
    ensures var a, b := Real(TypeIds(h.extensions)), Real(TypeIds(k.extensions));
            Ja4Raw(Ja4(h).value) == Ja4Raw(Ja4(k).value) <==>
            && Version(h) == Version(k)
            && (Extension(h.extensions, 0).Some? <==> Extension(k.extensions, 0).Some?)
            && Capped(|a|) == Capped(|b|)
            && AlpnMarker(OfferedProtocols(h).value) == AlpnMarker(OfferedProtocols(k).value)
            && multiset(Real(h.cipherSuites)) == multiset(Real(k.cipherSuites))
            && multiset(WithoutSniAndAlpn(a)) == multiset(WithoutSniAndAlpn(b))
            && Real(VectorOf(h.extensions, 13).value) == Real(VectorOf(k.extensions, 13).value)
  {
    Ja4FitsFormat(h);
    Ja4FitsFormat(k);
    hide Real, TypeIds, Sort, WithoutSniAndAlpn, Extension, OfferedProtocols, VectorOf, Version, AlpnMarker, Ja4Raw, Narrow, AllU16;
    Ja4RawExact(Ja4(h).value, Ja4(k).value);
    NumbersOrdered();
    var c, d, a, b := Real(h.cipherSuites), Real(k.cipherSuites), Real(TypeIds(h.extensions)), Real(TypeIds(k.extensions));
    SortCanonical(c, d, NumberLeq);
    assert multiset(c) == multiset(d) ==> |multiset(c)| == |c| == |multiset(d)| == |d|;
    SortedLength(c);
    SortedLength(d);
    SortedLength(a);
    SortedLength(b);
    SameKept(a, b);
  }

  // ----- what JA4 ignores -----

  lemma NumbersOrdered()
    ensures TotalOrder(NumberLeq)
  {}

  lemma {:induction false} RealOf(es: seq<TlsExtension>)
    ensures Real(TypeIds(es)) == TypeIds(RealExtensions(es))
    ensures forall e <- RealExtensions(es) :: e in es && !IsGrease(e.typeId)
    ensures forall e <- es :: !IsGrease(e.typeId) ==> e in RealExtensions(es)
  {
    RealTypes(es);
    RealMembers(es);
  }

  lemma {:induction false} RealTypes(es: seq<TlsExtension>)
    ensures Real(TypeIds(es)) == TypeIds(RealExtensions(es))
  {
    if es != [] {
      hide IsGrease;
      var e, rest := es[0], es[1..];
      RealTypes(rest);
      assert TypeIds(es)[1..] == TypeIds(rest) && TypeIds(es)[0] == e.typeId;
      if !IsGrease(e.typeId) {
        assert TypeIds([e] + RealExtensions(rest)) == [e.typeId] + TypeIds(RealExtensions(rest));
      }
    }
  }

  lemma {:induction false} RealMembers(es: seq<TlsExtension>)
    ensures forall e <- RealExtensions(es) :: e in es && !IsGrease(e.typeId)
    ensures forall e <- es :: !IsGrease(e.typeId) ==> e in RealExtensions(es)
  {
    if es != [] {
      hide IsGrease;
      RealMembers(es[1..]);
      assert es == [es[0]] + es[1..];
    }
  }

  /** With distinct real types, the extension found is a matter of membership, not of position. */
  lemma SameExtension(es: seq<TlsExtension>, fs: seq<TlsExtension>, typeId: nat)
    requires Distinct(RealExtensions(es)) && !IsGrease(typeId)
    requires multiset(RealExtensions(es)) == multiset(RealExtensions(fs))
    ensures Extension(es, typeId) == Extension(fs, typeId)
  {
    RealOf(es);
    RealOf(fs);
    hide RealExtensions, Distinct, Extension;
    var a, b := Extension(es, typeId), Extension(fs, typeId);
    if a.Some? {
      SameMember(RealExtensions(es), RealExtensions(fs), a.value);
    }
    if b.Some? {
      SameMember(RealExtensions(fs), RealExtensions(es), b.value);
    }
    if a.Some? && b.Some? {
      OneOfAType(RealExtensions(es), a.value, b.value);
    }
  }

  lemma SameMember(a: seq<TlsExtension>, b: seq<TlsExtension>, e: TlsExtension)
    requires multiset(a) == multiset(b)
    ensures e in a ==> e in b
  {
    assert e in a ==> e in multiset(a);
  }

  lemma OneOfAType(r: seq<TlsExtension>, a: TlsExtension, b: TlsExtension)
    requires Distinct(r) && a in r && b in r && a.typeId == b.typeId
    ensures a == b
  {
    var i :| 0 <= i < |r| && r[i] == a;
    var j :| 0 <= j < |r| && r[j] == b;
    assert i == j;
  }

  function Dropped<T>(s: seq<T>, j: nat): (r: seq<T>)
    requires j < |s|
    ensures |r| == |s| - 1
  {
    s[..j] + s[j + 1..]
  }

  lemma MultisetDropped<T>(s: seq<T>, j: nat)
    requires j < |s|
    ensures multiset(Dropped(s, j)) == multiset(s) - multiset{s[j]}
    ensures multiset(s) == multiset(Dropped(s, j)) + multiset{s[j]}
  {
    assert s == s[..j] + ([s[j]] + s[j + 1..]);
  }

  lemma TypesDropped(es: seq<TlsExtension>, j: nat)
    requires j < |es|
    ensures multiset(TypeIds(es)) == multiset(TypeIds(Dropped(es, j))) + multiset{es[j].typeId}
  {
    assert TypeIds(Dropped(es, j)) == Dropped(TypeIds(es), j);
    hide Dropped;
    MultisetDropped(TypeIds(es), j);
  }

  lemma {:induction false} TypesOfMultiset(a: seq<TlsExtension>, b: seq<TlsExtension>)
    requires multiset(a) == multiset(b)
    ensures multiset(TypeIds(a)) == multiset(TypeIds(b))
    decreases |a|
  {
    hide TypeIds, Dropped;
    assert |multiset(a)| == |a| && |multiset(b)| == |b|;
    if a == [] {
      assert b == [];
    } else {
      var j := PlaceOf(a[0], b, a);
      MultisetDropped(a, 0);
      MultisetDropped(b, j);
      TypesOfMultiset(Dropped(a, 0), Dropped(b, j));
      TypesDropped(a, 0);
      TypesDropped(b, j);
    }
  }

  lemma PlaceOf(e: TlsExtension, b: seq<TlsExtension>, a: seq<TlsExtension>) returns (j: nat)
    requires multiset(a) == multiset(b) && e in a
    ensures j < |b| && b[j] == e
  {
    assert e in multiset(b);
    j :| 0 <= j < |b| && b[j] == e;
  }

  /** Where the same extension is found for every real type, everything the fingerprints look up is the same. */
  lemma SameLookups(h: ClientHello, k: ClientHello)
    requires forall t :: !IsGrease(t) ==> Extension(h.extensions, t) == Extension(k.extensions, t)
    requires h.legacyVersion == k.legacyVersion
    ensures SupportedGroups(h) == SupportedGroups(k) && PointFormats(h) == PointFormats(k)
    ensures VectorOf(h.extensions, 13) == VectorOf(k.extensions, 13) && OfferedProtocols(h) == OfferedProtocols(k)
    ensures Version(h) == Version(k) && Extension(h.extensions, 0) == Extension(k.extensions, 0)
  {
    hide Extension, Protocols, RawU16Vector, RawU8Vector, WholeVector, Real, Highest;
    assert !IsGrease(0) && !IsGrease(10) && !IsGrease(11) && !IsGrease(13) && !IsGrease(16) && !IsGrease(43);
  }

  lemma Ja3Depends(h: ClientHello, k: ClientHello)
    requires h.legacyVersion == k.legacyVersion && Real(h.cipherSuites) == Real(k.cipherSuites)
    requires Real(TypeIds(h.extensions)) == Real(TypeIds(k.extensions))
    requires SupportedGroups(h) == SupportedGroups(k) && PointFormats(h) == PointFormats(k)
    ensures Ja3(h) == Ja3(k)
  {
    hide Real, TypeIds, SupportedGroups, PointFormats;
  }

  lemma Ja4Depends(h: ClientHello, k: ClientHello)
    requires Sort(Real(h.cipherSuites), NumberLeq) == Sort(Real(k.cipherSuites), NumberLeq)
    requires Sort(Real(TypeIds(h.extensions)), NumberLeq) == Sort(Real(TypeIds(k.extensions)), NumberLeq)
    requires VectorOf(h.extensions, 13) == VectorOf(k.extensions, 13) && OfferedProtocols(h) == OfferedProtocols(k)
    requires Version(h) == Version(k) && Extension(h.extensions, 0) == Extension(k.extensions, 0)
    ensures Ja4(h) == Ja4(k)
  {
    hide Real, TypeIds, Sort, WithoutSniAndAlpn, Extension, OfferedProtocols, VectorOf, Version, AlpnMarker;
  }

  /** JA4 depends on the legacy version, the multiset of real ciphers and the multiset of real extensions only: any
      permutation of ciphers or of distinct extensions, and any insertion or removal of GREASE values among them,
      leaves the result, be it parts or an error, the same. */
  lemma Ja4Invariant(h: ClientHello, k: ClientHello)
    requires h.legacyVersion == k.legacyVersion
    requires multiset(Real(h.cipherSuites)) == multiset(Real(k.cipherSuites))
    requires Distinct(RealExtensions(h.extensions))
    requires multiset(RealExtensions(h.extensions)) == multiset(RealExtensions(k.extensions))
    ensures Ja4(h) == Ja4(k)
  {
    hide Real, RealExtensions, TypeIds, Extension, Sort, Ja4, Distinct, IsGrease;
    NumbersOrdered();
    SortCanonical(Real(h.cipherSuites), Real(k.cipherSuites), NumberLeq);
    RealOf(h.extensions);
    RealOf(k.extensions);
    TypesOfMultiset(RealExtensions(h.extensions), RealExtensions(k.extensions));
    SortCanonical(Real(TypeIds(h.extensions)), Real(TypeIds(k.extensions)), NumberLeq);
    forall t | !IsGrease(t)
      ensures Extension(h.extensions, t) == Extension(k.extensions, t)
    {
      SameExtension(h.extensions, k.extensions, t);
    }
    SameLookups(h, k);
    Ja4Depends(h, k);
  }

  lemma {:induction false} RealAppend(a: seq<nat>, b: seq<nat>)
    ensures Real(a + b) == Real(a) + Real(b)
  {
    if a == [] {
      assert a + b == b;
    } else {
      RealAppend(a[1..], b);
      var all := a + b;
      assert all[0] == a[0] && all[1..] == a[1..] + b;
      Associative(if IsGrease(a[0]) then [] else [a[0]], Real(a[1..]), Real(b));
    }
  }

  lemma {:induction false} RealExtensionsAppend(a: seq<TlsExtension>, b: seq<TlsExtension>)
    ensures RealExtensions(a + b) == RealExtensions(a) + RealExtensions(b)
  {
    if a == [] {
      assert a + b == b;
    } else {
      RealExtensionsAppend(a[1..], b);
      var all := a + b;
      assert all[0] == a[0] && all[1..] == a[1..] + b;
      Associative(if IsGrease(a[0].typeId) then [] else [a[0]], RealExtensions(a[1..]), RealExtensions(b));
    }
  }

  /** Inserting GREASE ciphers and GREASE extensions anywhere changes neither fingerprint. */
  lemma GreaseIsInvisible(h: ClientHello, i: nat, ciphers: seq<nat>, j: nat, extensions: seq<TlsExtension>, k: ClientHello)
    requires Greased(h, i, ciphers, j, extensions, k)
    ensures Ja3(h) == Ja3(k) && Ja4(h) == Ja4(k)
  {
    hide *;
    GreasedIsReal(h, i, ciphers, j, extensions, k);
    SameReal(h.extensions, k.extensions);
    SameLookups(h, k);
    Ja3Depends(h, k);
    Ja4Depends(h, k);
  }

  lemma {:induction false} AllGrease(values: seq<nat>)
    requires forall v <- values :: IsGrease(v)
    ensures Real(values) == []
  {
    if values != [] {
      assert values[0] in values && forall v <- values[1..] :: v in values;
      AllGrease(values[1..]);
    }
  }

  lemma {:induction false} AllGreaseExtensions(es: seq<TlsExtension>)
    requires forall e <- es :: IsGrease(e.typeId)
    ensures RealExtensions(es) == []
  {
    if es != [] {
      assert es[0] in es && forall e <- es[1..] :: e in es;
      AllGreaseExtensions(es[1..]);
    }
  }
}
