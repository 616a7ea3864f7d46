/** What a response message is, written without reference to the parser: lines, heads, framing
    by the rules of section 6.3 of RFC 9112, chunked coding by section 7.1. */
module ResponseGrammar {
  import opened Wrappers
  import opened Bytes
  import opened Numerals
  import Chunked
  import opened ResponseModel

  // ----- texts and their octets -----

  datatype HeadText = HeadText(status: bytes, fields: seq<bytes>)
  datatype ChunkText = ChunkText(size: bytes, data: bytes)
  datatype BodyText =
    | NoBody
    | Fixed(data: bytes)
    | Chunks(chunks: seq<ChunkText>, last: bytes, trailers: seq<bytes>)
    | ToEnd(data: bytes)
  datatype MessageText = MessageText(informational: seq<HeadText>, final: HeadText, body: BodyText)

  function LineWire(line: bytes): bytes {
    line + CRLF
  }

  function LinesWire(lines: seq<bytes>): bytes {
    if lines == [] then [] else LineWire(lines[0]) + LinesWire(lines[1..])
  }

  function HeadWire(h: HeadText): bytes {
    LineWire(h.status) + (LinesWire(h.fields) + CRLF)
  }

  function HeadsWire(hs: seq<HeadText>): bytes {
    if hs == [] then [] else HeadWire(hs[0]) + HeadsWire(hs[1..])
  }

  function ChunkWire(c: ChunkText): bytes {
    LineWire(c.size) + (c.data + CRLF)
  }

  function ChunksWire(cs: seq<ChunkText>): bytes {
    if cs == [] then [] else ChunkWire(cs[0]) + ChunksWire(cs[1..])
  }

  function BodyWire(b: BodyText): bytes {
    match b
    case NoBody => []
    case Fixed(data) => data
    case Chunks(chunks, last, trailers) => ChunksWire(chunks) + (LineWire(last) + (LinesWire(trailers) + CRLF))
    case ToEnd(data) => data
  }

  function MessageWire(m: MessageText): bytes {
    HeadsWire(m.informational) + (HeadWire(m.final) + BodyWire(m.body))
  }

  // ----- meaning -----

  predicate Clean(line: bytes) {
    CR !in line && LF !in line
  }

  predicate LineOk(line: bytes, limits: Limits) {
    Clean(line) && |line| <= limits.maxLine
  }

  /** Field lines and the fields they spell. */
  predicate FieldLines(lines: seq<bytes>, fields: seq<Field>, limits: Limits) {
    |lines| == |fields| &&
    forall i :: 0 <= i < |lines| ==>
      lines[i] != [] && LineOk(lines[i], limits) && ParseField(lines[i]) == Success(fields[i])
  }

  predicate HasField(fields: seq<Field>, name: bytes) {
    exists i :: 0 <= i < |fields| && Named(fields[i], name)
  }

  predicate HasOption(fields: seq<Field>, option: bytes) {
    exists i :: 0 <= i < |fields| && Named(fields[i], CONNECTION) && Lists(fields[i].value, option)
  }

  predicate Lists(value: bytes, option: bytes) {
    exists piece <- Pieces(value) :: EqIgnoreCase(Trim(piece), option)
  }

  predicate TokenList(value: bytes) {
    forall piece <- Pieces(value) :: IsToken(Trim(piece))
  }

  /** All `Content-Length` fields are numerals for `n`. */
  predicate LengthsAre(fields: seq<Field>, n: nat) {
    forall i :: 0 <= i < |fields| && Named(fields[i], CONTENT_LENGTH) ==> ParseDecimal(fields[i].value) == Some(n)
  }

  /** `length` is what the fields declare: nothing without a `Content-Length`, else the one value of all. */
  predicate Declares(fields: seq<Field>, length: Option<nat>) {
    match length
    case None => !HasField(fields, CONTENT_LENGTH)
    case Some(n) => HasField(fields, CONTENT_LENGTH) && LengthsAre(fields, n)
  }

  /** At most one `Transfer-Encoding`, and it is `chunked`. */
  predicate CodingOk(fields: seq<Field>) {
    && (forall i :: 0 <= i < |fields| && Named(fields[i], TRANSFER_ENCODING) ==> EqIgnoreCase(fields[i].value, CHUNKED))
    && (forall i, j :: 0 <= i < j < |fields| ==>
          !(Named(fields[i], TRANSFER_ENCODING) && Named(fields[j], TRANSFER_ENCODING)))
  }

  predicate OptionsOk(fields: seq<Field>) {
    forall i :: 0 <= i < |fields| && Named(fields[i], CONNECTION) ==> TokenList(fields[i].value)
  }

  /** Framing fields do not contradict each other or themselves. */
  ghost predicate FieldsAgree(fields: seq<Field>) {
    && (exists length :: Declares(fields, length))
    && CodingOk(fields)
    && !(HasField(fields, CONTENT_LENGTH) && HasField(fields, TRANSFER_ENCODING))
    && OptionsOk(fields)
  }

  ghost predicate HeadMeans(h: HeadText, limits: Limits, head: ResponseHead) {
    && LineOk(h.status, limits)
    && ParseStatusLine(h.status) == Success(StatusParts(head.version, head.status, head.reason))
    && FieldLines(h.fields, head.headers, limits)
    && |head.headers| <= limits.maxHeaders
    && FieldsAgree(head.headers)
    && |HeadWire(h)| <= limits.maxHead
  }

  predicate IsInformational(head: ResponseHead) {
    && 100 <= head.status <= 199 && head.status != 101
    && !HasField(head.headers, CONTENT_LENGTH) && !HasField(head.headers, TRANSFER_ENCODING)
  }

  ghost predicate HeadsMean(hs: seq<HeadText>, limits: Limits, heads: seq<ResponseHead>) {
    |hs| == |heads| &&
    forall i :: 0 <= i < |hs| ==> HeadMeans(hs[i], limits, heads[i]) && IsInformational(heads[i])
  }

  function DataOf(cs: seq<ChunkText>): bytes {
    if cs == [] then [] else cs[0].data + DataOf(cs[1..])
  }

  predicate ChunkOk(c: ChunkText, limits: Limits) {
    LineOk(c.size, limits) && c.data != [] && Chunked.ParseChunkSize(c.size) == Success(|c.data|)
  }

  predicate TrailersMean(lines: seq<bytes>, limits: Limits, trailers: seq<Field>) {
    && FieldLines(lines, trailers, limits)
    && (forall f <- trailers :: !IsForbiddenTrailer(f))
    && |trailers| <= limits.maxTrailers
    && |LinesWire(lines)| + 2 <= limits.maxTrailer
  }

  predicate ChunksMean(b: BodyText, limits: Limits, body: bytes, trailers: seq<Field>): (means: bool)
    requires b.Chunks?
    ensures means ==> body == DataOf(b.chunks) && |body| <= limits.maxBody
  {
    && (forall c <- b.chunks :: ChunkOk(c, limits))
    && LineOk(b.last, limits) && Chunked.ParseChunkSize(b.last) == Success(0)
    && body == DataOf(b.chunks) && |body| <= limits.maxBody
    && TrailersMean(b.trailers, limits, trailers)
  }

  /** The responses that never have a body. */
  predicate Bodiless(head: ResponseHead, semantics: Semantics) {
    head.status in {204, 205, 304} || semantics.Head?
  }

  /** The body the framing fields of the final head select. */
  ghost predicate BodyMeans(head: ResponseHead, semantics: Semantics, limits: Limits,
                            b: BodyText, body: bytes, trailers: seq<Field>) {
    var coded := HasField(head.headers, TRANSFER_ENCODING);
    && !(head.version.Http10? && coded)
    && (head.status == 204 ==> !coded && Declares(head.headers, None))
    && (head.status == 205 ==> !coded && (Declares(head.headers, None) || Declares(head.headers, Some(0))))
    && if Bodiless(head, semantics) then b.NoBody? && body == [] && trailers == []
       else if coded then b.Chunks? && ChunksMean(b, limits, body, trailers)
       else if Declares(head.headers, None) then b.ToEnd? && body == b.data && |body| <= limits.maxBody && trailers == []
       else
         && Declares(head.headers, Some(|body|)) && |body| <= limits.maxBody && trailers == []
         && b == (if body == [] then NoBody else Fixed(body))
  }

  predicate ClosesConnection(head: ResponseHead, b: BodyText) {
    || HasOption(head.headers, CLOSE)
    || (head.version.Http10? && !HasOption(head.headers, KEEP_ALIVE))
    || b.ToEnd?
  }

  /** The message text `m` spells the response `r` to a request with these semantics. */
  ghost predicate Means(m: MessageText, semantics: Semantics, limits: Limits, r: Response) {
    && |r.informational| <= limits.maxInformational
    && HeadsMean(m.informational, limits, r.informational)
    && HeadMeans(m.final, limits, r.head)
    && !(100 <= r.head.status <= 199)
    && BodyMeans(r.head, semantics, limits, m.body, r.body, r.trailers)
    && (r.connectionClose <==> ClosesConnection(r.head, m.body))
  }

  // ----- the fold over header fields computes the declared framing -----

  /** What the head under construction knows after the fields `fields`. */
  predicate Knows(c: CurrentHead, fields: seq<Field>) {
    && Declares(fields, c.contentLength)
    && (c.chunked <==> HasField(fields, TRANSFER_ENCODING))
    && (c.close <==> HasOption(fields, CLOSE))
    && (c.keepAlive <==> HasOption(fields, KEEP_ALIVE))
  }

  lemma {:induction false} OptionsMeaning(c: CurrentHead, pieces: seq<bytes>)
    ensures var r := ApplyOptions(c, pieces);
            && (r.Success? <==> forall piece <- pieces :: IsToken(Trim(piece)))
            && (r.Success? ==>
                  && (r.value.close <==> c.close || exists piece <- pieces :: EqIgnoreCase(Trim(piece), CLOSE))
                  && (r.value.keepAlive <==> c.keepAlive || exists piece <- pieces :: EqIgnoreCase(Trim(piece), KEEP_ALIVE)))
    decreases |pieces|
  {
    hide EqIgnoreCase, IsToken, Trim;
    if pieces != [] {
      var token := Trim(pieces[0]);
      var c1 := c.(close := c.close || EqIgnoreCase(token, CLOSE), keepAlive := c.keepAlive || EqIgnoreCase(token, KEEP_ALIVE));
      OptionsMeaning(c1, pieces[1..]);
      assert pieces == [pieces[0]] + pieces[1..];
    }
  }

  lemma NamesDiffer(f: Field)
    ensures Named(f, CONTENT_LENGTH) ==> !Named(f, TRANSFER_ENCODING) && !Named(f, CONNECTION)
    ensures Named(f, TRANSFER_ENCODING) ==> !Named(f, CONNECTION)
  {}

  lemma HasSnoc(fields: seq<Field>, f: Field, name: bytes)
    ensures HasField(fields + [f], name) <==> HasField(fields, name) || Named(f, name)
  {
    hide Named;
    var all := fields + [f];
    assert all[|fields|] == f;
    assert forall i :: 0 <= i < |fields| ==> all[i] == fields[i];
  }

  lemma OptionSnoc(fields: seq<Field>, f: Field, option: bytes)
    ensures HasOption(fields + [f], option) <==>
            HasOption(fields, option) || (Named(f, CONNECTION) && Lists(f.value, option))
  {
    hide Named, Lists;
    var all := fields + [f];
    assert all[|fields|] == f;
    assert forall i :: 0 <= i < |fields| ==> all[i] == fields[i];
  }

  lemma DeclaresSnoc(fields: seq<Field>, f: Field, length: Option<nat>)
    ensures !Named(f, CONTENT_LENGTH) ==> (Declares(fields + [f], length) <==> Declares(fields, length))
    ensures Named(f, CONTENT_LENGTH) ==>
              (Declares(fields + [f], length) <==>
               length.Some? && ParseDecimal(f.value) == length && (Declares(fields, None) || Declares(fields, length)))
  {
    hide Named, ParseDecimal;
    var all := fields + [f];
    HasSnoc(fields, f, CONTENT_LENGTH);
    assert all[|fields|] == f;
    assert forall i :: 0 <= i < |fields| ==> all[i] == fields[i];
  }

  lemma CodingSnoc(fields: seq<Field>, f: Field)
    ensures CodingOk(fields + [f]) <==>
            CodingOk(fields) &&
            (Named(f, TRANSFER_ENCODING) ==> EqIgnoreCase(f.value, CHUNKED) && !HasField(fields, TRANSFER_ENCODING))
  {
    hide Named, EqIgnoreCase;
    var all := fields + [f];
    assert all[|fields|] == f;
    assert forall i :: 0 <= i < |fields| ==> all[i] == fields[i];
  }

  lemma OptionsOkSnoc(fields: seq<Field>, f: Field)
    ensures OptionsOk(fields + [f]) <==> OptionsOk(fields) && (Named(f, CONNECTION) ==> TokenList(f.value))
  {
    hide Named, TokenList;
    var all := fields + [f];
    assert all[|fields|] == f;
    assert forall i :: 0 <= i < |fields| ==> all[i] == fields[i];
  }

  /** One more field is accepted exactly when the fields still agree, and the head then knows
      exactly what they declare. */
  lemma FieldMeaning(c: CurrentHead, fields: seq<Field>, f: Field)
    requires Knows(c, fields) && FieldsAgree(fields)
    ensures ApplyField(c, f).Success? <==> FieldsAgree(fields + [f])
    ensures ApplyField(c, f).Success? ==> Knows(ApplyField(c, f).value, fields + [f])
  {
    hide Named, ParseDecimal, EqIgnoreCase, Pieces;
    NamesDiffer(f);
    HasSnoc(fields, f, CONTENT_LENGTH);
    HasSnoc(fields, f, TRANSFER_ENCODING);
    OptionSnoc(fields, f, CLOSE);
    OptionSnoc(fields, f, KEEP_ALIVE);
    CodingSnoc(fields, f);
    OptionsOkSnoc(fields, f);
    OptionsMeaning(c, Pieces(f.value));
    OptionsKeepHead(c, Pieces(f.value));
    LengthsMeaning(c, fields, f);
  }

  lemma LengthsMeaning(c: CurrentHead, fields: seq<Field>, f: Field)
    requires Declares(fields, c.contentLength)
    ensures !Named(f, CONTENT_LENGTH) ==> Declares(fields + [f], c.contentLength)
    ensures Named(f, CONTENT_LENGTH) ==>
              var n := ParseDecimal(f.value);
              var ok := n.Some? && (c.contentLength.None? || c.contentLength == n);
              (ok <==> exists length :: Declares(fields + [f], length)) && (ok ==> Declares(fields + [f], n))
  {
    hide Named, ParseDecimal;
    var n := ParseDecimal(f.value);
    DeclaresSnoc(fields, f, c.contentLength);
    DeclaresSnoc(fields, f, n);
    DeclaredOnce(fields);
    forall length | Declares(fields + [f], length)
      ensures Named(f, CONTENT_LENGTH) ==> length == n && n.Some? && (c.contentLength.None? || c.contentLength == n)
    {
      DeclaresSnoc(fields, f, length);
    }
  }

  /** Fields declare at most one length. */
  lemma DeclaredOnce(fields: seq<Field>)
    ensures forall a, b :: Declares(fields, a) && Declares(fields, b) ==> a == b
  {
    hide Named, ParseDecimal;
  }

  lemma AgreePrefix(fields: seq<Field>, f: Field)
    requires FieldsAgree(fields + [f])
    ensures FieldsAgree(fields)
  {
    hide Named, ParseDecimal, EqIgnoreCase, TokenList;
    HasSnoc(fields, f, CONTENT_LENGTH);
    HasSnoc(fields, f, TRANSFER_ENCODING);
    CodingSnoc(fields, f);
    OptionsOkSnoc(fields, f);
    var length :| Declares(fields + [f], length);
    DeclaresSnoc(fields, f, length);
  }

  // ----- the two kinds of line, octet by octet -----

  function VersionWire(v: Version): bytes {
    if v.Http10? then HTTP_1_0 else HTTP_1_1
  }

  function ThreeDigits(n: nat): bytes
    requires n < 1000
  {
    [48 + n / 100, 48 + n / 10 % 10, 48 + n % 10]
  }

  function StatusLineWire(s: StatusParts): bytes
    requires s.status < 1000
  {
    VersionWire(s.version) + ([SP] + (ThreeDigits(s.status) + ([SP] + s.reason)))
  }

  /** A status line parses to `s` if and only if it is the line that spells `s`. */
  lemma StatusLineExact(line: bytes, s: StatusParts)
    ensures ParseStatusLine(line) == Success(s) <==>
            100 <= s.status <= 599 && IsFieldBytes(s.reason) && line == StatusLineWire(s)
  {
    hide IsFieldBytes, ParseStatusLine, StatusLineWire;
    if ParseStatusLine(line) == Success(s) {
      StatusLineSound(line);
    }
    if 100 <= s.status <= 599 && IsFieldBytes(s.reason) && line == StatusLineWire(s) {
      StatusLineComplete(s);
    }
  }

  lemma StatusLineSound(line: bytes)
    requires ParseStatusLine(line).Success?
    ensures var s := ParseStatusLine(line).value;
            100 <= s.status <= 599 && IsFieldBytes(s.reason) && line == StatusLineWire(s)
  {
    hide IsFieldBytes, ThreeDigits, VersionWire, AllDigits;
    var s := ParseStatusLine(line).value;
    VersionNames();
    DigitsSpell(line[9..12]);
    assert line[..8] == VersionWire(s.version);
    assert line == line[..8] + ([line[8]] + (line[9..12] + ([line[12]] + line[13..])));
  }

  lemma DigitsSpell(d: bytes)
    requires |d| == 3 && AllDigits(d)
    ensures var n := DigitOf(d[0]) * 100 + DigitOf(d[1]) * 10 + DigitOf(d[2]);
            n < 1000 && d == ThreeDigits(n)
  {
    var a, b, c := DigitOf(d[0]), DigitOf(d[1]), DigitOf(d[2]);
    Places(a, b, c);
    assert d == [48 + a, 48 + b, 48 + c];
  }

  lemma Places(a: nat, b: nat, c: nat)
    requires a < 10 && b < 10 && c < 10
    ensures var n := a * 100 + b * 10 + c;
            n < 1000 && n / 100 == a && n / 10 % 10 == b && n % 10 == c
  {}

  lemma VersionNames()
    ensures VersionWire(Http10) == HTTP_1_0 && VersionWire(Http11) == HTTP_1_1
  {}

  lemma StatusLineComplete(s: StatusParts)
    requires 100 <= s.status <= 599 && IsFieldBytes(s.reason)
    ensures ParseStatusLine(StatusLineWire(s)) == Success(s)
  {
    hide IsFieldBytes;
    StatusLineParts(StatusLineWire(s), s);
    hide StatusLineWire, AllDigits;
  }

  lemma StatusLineParts(line: bytes, s: StatusParts)
    requires 100 <= s.status <= 599 && line == StatusLineWire(s)
    ensures |line| >= 13 && line[8] == SP && line[12] == SP && line[..8] == VersionWire(s.version)
    ensures line[13..] == s.reason && AllDigits(line[9..12])
    ensures DigitOf(line[9]) * 100 + DigitOf(line[10]) * 10 + DigitOf(line[11]) == s.status
  {
    assert |VersionWire(s.version)| == 8;
    DigitsRead(s.status);
    hide VersionWire, ThreeDigits, AllDigits;
    FiveParts(VersionWire(s.version), ThreeDigits(s.status), s.reason, line);
  }

  lemma DigitsRead(n: nat)
    requires n < 1000
    ensures var d := ThreeDigits(n);
            |d| == 3 && AllDigits(d) && DigitOf(d[0]) * 100 + DigitOf(d[1]) * 10 + DigitOf(d[2]) == n
  {}

  lemma FiveParts(version: bytes, status: bytes, reason: bytes, line: bytes)
    requires |version| == 8 && |status| == 3 && line == version + ([SP] + (status + ([SP] + reason)))
    ensures |line| == 13 + |reason| && line[8] == SP && line[12] == SP
    ensures line[..8] == version && line[9..12] == status && line[13..] == reason
    ensures line[9] == status[0] && line[10] == status[1] && line[11] == status[2]
  {
    assert line[9..12] == status;
    assert line[9] == line[9..12][0] && line[10] == line[9..12][1] && line[11] == line[9..12][2];
  }

  function FieldLine(name: bytes, raw: bytes): bytes {
    name + ([COLON] + raw)
  }

  lemma TokenIsClean(s: bytes)
    requires IsToken(s)
    ensures Clean(s) && SP !in s && COLON !in s
  {}

  /** Any token, a colon and any field octets spell a field with the surrounding whitespace dropped. */
  lemma FieldLineComplete(name: bytes, raw: bytes)
    requires IsToken(name) && IsFieldBytes(raw)
    ensures FieldLine(name, raw) != [] && Clean(FieldLine(name, raw))
    ensures ParseField(FieldLine(name, raw)) == Success(Field(name, Trim(raw)))
  {
    hide Trim, IsFieldBytes;
    var line := FieldLine(name, raw);
    TokenIsClean(name);
    FieldBytesAreClean(raw);
    Chunked.FindAfter(name, COLON, raw);
    assert line == name + [COLON] + raw;
    assert line[0] == name[0] && IsTchar(name[0]);
    assert line[..|name|] == name && line[|name| + 1..] == raw;
  }

  lemma FieldBytesAreClean(s: bytes)
    requires IsFieldBytes(s)
    ensures Clean(s)
  {}

  /** Conversely, every field line that parses has that form. */
  lemma FieldLineSound(line: bytes) returns (before: bytes, after: bytes)
    requires ParseField(line).Success?
    ensures var f := ParseField(line).value;
            && line == FieldLine(f.name, before + f.value + after)
            && IsToken(f.name) && IsTrimmed(f.value) && IsFieldBytes(before + f.value + after)
            && AllOws(before) && AllOws(after)
  {
    hide Trim, IsFieldBytes, IsToken, IsTrimmed;
    var colon := Find(line, COLON, 0).value;
    var raw := line[colon + 1..];
    before, after := TrimMeaning(raw);
    assert line == line[..colon] + ([COLON] + raw);
  }
}
