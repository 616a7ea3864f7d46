/** The sender's chunked coding against the receiver's parser, in any fragmentation. */
module ChunkedExchange {
  import opened Bytes
  import opened Numerals
  import Chunked
  import opened ResponseModel
  import opened G = ResponseGrammar
  import opened R = ResponseMessages
  import W = RequestWriter
  import D = RequestDecoder

  /** A message of the grammar, cut anywhere and followed by anything, is read as one message; if its body is
      close-delimited, nothing may follow it and end of input yields its response. */
  lemma MessageSurvivesFragmentation(semantics: Semantics, limits: Limits, m: MessageText, r: Response, rest: bytes,
                                     pieces: seq<bytes>)
    requires Means(m, semantics, limits, r) && |MessageWire(m)| < USIZE && (m.body.ToEnd? ==> rest == [])
    requires Concat(pieces) == MessageWire(m) + rest
    ensures var (outcome, read) := FeedPieces(New(semantics, limits), pieces);
            var last := if m.body.ToEnd? && outcome.More? then FinishEof(outcome.parser) else outcome;
            && read == |MessageWire(m)| && (outcome.More? <==> m.body.ToEnd?)
            && last.Complete? && last.response == r
  {
    hide Run, Means, MessageWire;
    FragmentationIndependence(New(semantics, limits), pieces);
    ParserComplete(semantics, limits, m, r, rest);
  }

  /** The chunk texts `append_chunked_body` writes. */
  function Texts(chunks: seq<bytes>): seq<ChunkText> {
    if chunks == [] then [] else [ChunkText(Hex(|chunks[0]|), chunks[0])] + Texts(chunks[1..])
  }

  function SentBody(chunks: seq<bytes>): BodyText {
    Chunks(Texts(chunks), [48], [])
  }

  lemma LastIsSent()
    ensures LineWire([48]) + (LinesWire([]) + CRLF) == W.LAST_CHUNK
  {}

  lemma ChunkIsSent(chunk: bytes)
    ensures G.ChunkWire(ChunkText(Hex(|chunk|), chunk)) == W.ChunkWire(chunk)
  {
    hide Hex;
    Associative(Hex(|chunk|), CRLF, chunk + CRLF);
  }

  lemma {:induction false} TextsAreSent(chunks: seq<bytes>)
    ensures BodyWire(SentBody(chunks)) == W.ChunksWire(chunks)
    ensures DataOf(Texts(chunks)) == Concat(chunks)
  {
    hide Hex, LineWire, LinesWire, G.ChunkWire, W.ChunkWire;
    LastIsSent();
    if chunks != [] {
      TextsAreSent(chunks[1..]);
      ChunkIsSent(chunks[0]);
      var t := ChunkText(Hex(|chunks[0]|), chunks[0]);
      assert Texts(chunks)[1..] == Texts(chunks[1..]);
      Associative(G.ChunkWire(t), ChunksWire(Texts(chunks[1..])), W.LAST_CHUNK);
    }
  }

  lemma {:induction false} TextsAreOk(chunks: seq<bytes>, limits: Limits)
    requires limits.maxLine >= HEX_BUFFER && forall c <- chunks :: 0 < |c| < USIZE
    ensures forall t <- Texts(chunks) :: ChunkOk(t, limits)
  {
    hide Hex, Chunked.ParseChunkSize, Clean;
    if chunks != [] {
      assert chunks[0] in chunks;
      TextsAreOk(chunks[1..], limits);
      D.HexIsClean(|chunks[0]|);
      D.HexLineIs(|chunks[0]|);
      NumeralsFitBuffers(|chunks[0]|);
    }
  }

  /** A head that selects the chunked coding for its body. */
  ghost predicate SelectsChunked(h: HeadText, head: ResponseHead, semantics: Semantics, limits: Limits) {
    && HeadMeans(h, limits, head) && head.version.Http11? && !(100 <= head.status <= 199)
    && !Bodiless(head, semantics) && HasField(head.headers, TRANSFER_ENCODING)
  }

  /** Chunked round trip: after a head that selects chunked coding, what `append_chunked_body` writes for
      non-empty chunks within the limit is read back as their concatenation, however it is cut. */
  lemma ChunkedRoundTrip(semantics: Semantics, limits: Limits, h: HeadText, head: ResponseHead,
                         chunks: seq<bytes>, rest: bytes, pieces: seq<bytes>)
    requires SelectsChunked(h, head, semantics, limits)
    requires limits.maxLine >= HEX_BUFFER && limits.maxTrailer >= 2
    requires (forall c <- chunks :: c != []) && |Concat(chunks)| <= limits.maxBody
    requires |HeadWire(h)| + |W.ChunksWire(chunks)| < USIZE
    requires Concat(pieces) == HeadWire(h) + W.ChunksWire(chunks) + rest
    ensures var result := FeedPieces(New(semantics, limits), pieces);
            && result.0.Complete? && result.1 == |HeadWire(h)| + |W.ChunksWire(chunks)|
            && result.0.response.head == head && result.0.response.body == Concat(chunks)
            && result.0.response.trailers == []
  {
    hide HeadMeans, Hex, HeadWire, HasOption, HasField, Chunked.ParseChunkSize, ChunksMean, BodyWire, ChunkOk, Texts, DataOf,
      W.ChunksWire, FeedPieces;
    var m := MessageText([], h, SentBody(chunks));
    var r := Response(head, Concat(chunks), [], [], ClosesConnection(head, m.body));
    TextsAreSent(chunks);
    ChunksAreShort(chunks);
    TextsAreOk(chunks, limits);
    SentBodyMeans(chunks, limits);
    AgreeingHead(h, head, limits);
    assert Means(m, semantics, limits, r);
    hide Means, SelectsChunked;
    assert [] + (HeadWire(h) + W.ChunksWire(chunks)) == HeadWire(h) + W.ChunksWire(chunks);
    MessageSurvivesFragmentation(semantics, limits, m, r, rest, pieces);
  }

  lemma {:induction false} ChunksAreShort(chunks: seq<bytes>)
    requires forall c <- chunks :: c != []
    ensures forall c <- chunks :: 0 < |c| <= |Concat(chunks)|
  {
    if chunks != [] {
      assert chunks == [chunks[0]] + chunks[1..];
      assert forall c <- chunks[1..] :: c in chunks;
      ChunksAreShort(chunks[1..]);
    }
  }

  lemma SentBodyMeans(chunks: seq<bytes>, limits: Limits)
    requires (forall t <- Texts(chunks) :: ChunkOk(t, limits)) && DataOf(Texts(chunks)) == Concat(chunks)
    requires limits.maxLine >= HEX_BUFFER && limits.maxTrailer >= 2 && |Concat(chunks)| <= limits.maxBody
    ensures ChunksMean(SentBody(chunks), limits, Concat(chunks), [])
  {
    hide ChunkOk, Texts, DataOf, Chunked.ParseChunkSize;
    D.ZeroLineIs();
  }

  lemma AgreeingHead(h: HeadText, head: ResponseHead, limits: Limits)
    requires HeadMeans(h, limits, head)
    ensures HasField(head.headers, TRANSFER_ENCODING) ==> !HasField(head.headers, CONTENT_LENGTH)
  {}
}
