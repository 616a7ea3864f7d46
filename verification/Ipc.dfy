/** Length-prefixed frames between the parent and the profile worker. JSON is opaque here: a frame carries the
    encoded metadata, and encoding and decoding are functions that may fail. */
module Ipc {
  import opened Wrappers
  import opened Bytes
  import opened BigEndian

  const LENGTH_BYTES := 8

  datatype IpcError = Unreadable | Truncated | Overlong | MetadataLimit | BodyLimit | NoProgress | Unwritable | BadLimit | BadMetadata

  datatype Frame = Frame(metadata: bytes, body: bytes) {
    /** Python lengths fit a machine word, so `to_bytes` never overflows. */
    predicate Valid() {
      |metadata| < USIZE && |body| < USIZE
    }

    function Wire(): bytes {
      Digits(|metadata|, LENGTH_BYTES) + metadata + (Digits(|body|, LENGTH_BYTES) + body)
    }
  }

  /** One end of a pipe. A faultless one never raises, and a read from it returns at least one octet until the input
      ends; `pending` is what the peer ever sends, `position` how much of it was read. */
  class Pipe {
    const faultless: bool
    var pending: bytes
    var position: nat
    var written: bytes

    ghost predicate Valid()
      reads this
    {
      position <= |pending|
    }

    ghost function Rest(): bytes
      reads this
      requires Valid()
    {
      pending[position..]
    }

    constructor (pending: bytes, faultless: bool)
      ensures Valid() && this.faultless == faultless && this.pending == pending && position == 0 && written == []
    {
      this.faultless, this.pending, position, written := faultless, pending, 0, [];
    }

    /** Some octets that come next, none at the end of input; or a fault. */
    method Read(amount: nat) returns (r: Option<bytes>)
      requires Valid() && amount > 0
      modifies `position
      ensures Valid() && old(position) <= position
      ensures r.Some? && |r.value| <= amount ==>
                r.value == pending[old(position)..position] && (r.value == [] ==> position == old(position) == |pending|)
      ensures faultless ==> r.Some? && |r.value| <= amount
    {
      var faults: bool := *;
      var choice: int := *;
      if faults && !faultless {
        var junk: bytes := *;
        return if |junk| > amount then Some(junk) else None;
      }
      var available := |pending| - position;
      var most := if amount < available then amount else available;
      var n := if 0 < choice <= most then choice else most;
      r := Some(pending[position..position + n]);
      position := position + n;
    }

    /** Accepts some of the octets, or faults with a count that is not positive or too large. */
    method Write(data: bytes) returns (amount: int)
      requires data != []
      modifies `written
      ensures 0 < amount <= |data| ==> written == old(written) + data[..amount]
      ensures !(0 < amount <= |data|) ==> written == old(written)
      ensures faultless ==> 0 < amount <= |data|
    {
      amount := *;
      if faultless && !(0 < amount <= |data|) {
        amount := |data|;
      }
      if 0 < amount <= |data| {
        written := written + data[..amount];
      }
    }

    method Flush() returns (ok: bool)
      ensures faultless ==> ok
    {
      ok := *;
      ok := ok || faultless;
    }
  }

  /** `_read_exact`: exactly the next octets, however short the reads are; on a faultless pipe it fails only when the
      input ends too soon. */
  method ReadExact(pipe: Pipe, amount: nat) returns (r: Result<bytes, IpcError>)
    requires pipe.Valid()
    modifies pipe`position
    ensures pipe.Valid() && old(pipe.position) <= pipe.position
    ensures r.Success? ==>
              && pipe.position == old(pipe.position) + amount
              && r.value == pipe.pending[old(pipe.position)..pipe.position]
    ensures pipe.faultless ==> (r.Success? <==> amount <= |old(pipe.Rest())|)
  {
    var data: bytes := [];
    while |data| < amount
      invariant |data| <= amount && pipe.Valid() && pipe.position == old(pipe.position) + |data|
      invariant data == pipe.pending[old(pipe.position)..pipe.position]
    {
      var chunk := pipe.Read(amount - |data|);
      if chunk.None? {
        return Failure(Unreadable);
      }
      if |chunk.value| > amount - |data| {
        return Failure(Overlong);
      }
      if chunk.value == [] {
        return Failure(Truncated);
      }
      data := data + chunk.value;
    }
    return Success(data);
  }

  /** `_write_all`: everything or an error, with only a prefix written. */
  method WriteAll(pipe: Pipe, data: bytes) returns (ok: bool)
    modifies pipe`written
    ensures ok ==> pipe.written == old(pipe.written) + data
    ensures exists n :: 0 <= n <= |data| && pipe.written == old(pipe.written) + data[..n]
    ensures pipe.faultless ==> ok
  {
    var done: nat := 0;
    while done < |data|
      invariant done <= |data| && pipe.written == old(pipe.written) + data[..done]
    {
      var amount := pipe.Write(data[done..]);
      if amount <= 0 || amount > |data| - done {
        return false;
      }
      assert data[..done] + data[done..][..amount] == data[..done + amount];
      done := done + amount;
    }
    assert data[..done] == data;
    return true;
  }

  /** The frame that a byte string starts with, if it holds one within the limits, and its length. */
  function FirstFrame(s: bytes, maxMetadata: nat, maxBody: nat): Option<(Frame, nat)> {
    if |s| < 8 then None else
    var m := Value(s[..8]);
    if m > maxMetadata || |s| < 16 + m then None else
    var b := Value(s[8 + m..16 + m]);
    if b > maxBody || |s| < 16 + m + b then None
    else Some((Frame(s[8..8 + m], s[16 + m..16 + m + b]), 16 + m + b))
  }

  lemma LengthAt(s: bytes, p: nat, n: nat)
    requires n < USIZE
    ensures At(s, p, Digits(n, 8)) <==> p + 8 <= |s| && Value(s[p..p + 8]) == n
  {
    PowersOf256();
    ValueOfDigits(n, 8);
    if p + 8 <= |s| {
      DigitsOfValue(s[p..p + 8]);
      AtSlice(s, p, Digits(n, 8));
    }
  }

  /** Frames are self-delimiting: a byte string starts with at most one frame, and the reader finds exactly that. */
  lemma FirstFrameExact(s: bytes, maxMetadata: nat, maxBody: nat, f: Frame, n: nat)
    requires maxMetadata < USIZE && maxBody < USIZE
    ensures FirstFrame(s, maxMetadata, maxBody) == Some((f, n)) <==>
            && |f.metadata| <= maxMetadata && |f.body| <= maxBody
            && n == |f.Wire()| && At(s, 0, f.Wire())
  {
    hide Digits, Value;
    var m, b := |f.metadata|, |f.body|;
    var lead, tail := Digits(m, 8) + f.metadata, Digits(b, 8) + f.body;
    AtSplit(s, 0, lead, tail);
    AtSplit(s, 0, Digits(m, 8), f.metadata);
    AtSplit(s, 8 + m, Digits(b, 8), f.body);
    if m < USIZE && b < USIZE {
      LengthAt(s, 0, m);
      LengthAt(s, 8 + m, b);
      AtSlice(s, 8, f.metadata);
      AtSlice(s, 16 + m, f.body);
    }
    assert |s| >= 8 ==> s[0..8] == s[..8];
  }

  /** Whatever follows a written frame, the reader gets that frame back and stops at its end. */
  lemma FrameThenRest(f: Frame, rest: bytes, maxMetadata: nat, maxBody: nat)
    requires maxMetadata < USIZE && maxBody < USIZE
    ensures |f.metadata| <= maxMetadata && |f.body| <= maxBody <==>
            FirstFrame(f.Wire() + rest, maxMetadata, maxBody) == Some((f, |f.Wire()|))
  {
    FirstFrameExact(f.Wire() + rest, maxMetadata, maxBody, f, |f.Wire()|);
  }

  /** A frame cut short reads as no frame at all. */
  lemma CutFrameIsNoFrame(f: Frame, n: nat, maxMetadata: nat, maxBody: nat)
    requires f.Valid() && n < |f.Wire()| && maxMetadata < USIZE && maxBody < USIZE
    ensures FirstFrame(f.Wire()[..n], maxMetadata, maxBody) == None
  {
    hide FirstFrame, Frame.Wire;
    var s := f.Wire()[..n];
    if FirstFrame(s, maxMetadata, maxBody).Some? {
      var (g, k) := FirstFrame(s, maxMetadata, maxBody).value;
      FirstFrameExact(s, maxMetadata, maxBody, g, k);
      AtLonger(s, f.Wire()[n..], 0, g.Wire());
      assert f.Wire() == s + f.Wire()[n..];
      FirstFrameExact(f.Wire(), USIZE - 1, USIZE - 1, g, k);
      FirstFrameExact(f.Wire(), USIZE - 1, USIZE - 1, f, |f.Wire()|);
    }
  }

  /** `write_frame` writes the frame of the encoded metadata and flushes it; it writes nothing if the metadata cannot be
      encoded, and a prefix of the frame if the pipe fails. */
  method WriteFrame<M>(pipe: Pipe, metadata: M, body: bytes, encode: M -> Option<bytes>) returns (ok: bool)
    modifies pipe`written
    ensures encode(metadata).None? ==> !ok && pipe.written == old(pipe.written)
    ensures encode(metadata).Some? ==>
              var w := Frame(encode(metadata).value, body).Wire();
              && (exists n :: 0 <= n <= |w| && pipe.written == old(pipe.written) + w[..n])
              && (ok ==> pipe.written == old(pipe.written) + w) && (pipe.faultless ==> ok)
  {
    var encoded := encode(metadata);
    if encoded.None? {
      return false;
    }
    ok := WriteParts(pipe, Frame(encoded.value, body));
    if ok {
      ok := pipe.Flush();
    }
  }

  /** The loop over the four parts. */
  method WriteParts(pipe: Pipe, f: Frame) returns (ok: bool)
    modifies pipe`written
    ensures ok ==> pipe.written == old(pipe.written) + f.Wire()
    ensures exists n :: 0 <= n <= |f.Wire()| && pipe.written == old(pipe.written) + f.Wire()[..n]
    ensures pipe.faultless ==> ok
  {
    hide Digits, Concat, Frame.Wire;
    var parts := [Digits(|f.metadata|, LENGTH_BYTES), f.metadata, Digits(|f.body|, LENGTH_BYTES), f.body];
    AllParts(f, parts);
    var i := 0;
    ghost var done: bytes := [];
    while i < |parts|
      invariant i <= |parts| && pipe.written == old(pipe.written) + done
      invariant done == Concat(parts[..i])
    {
      ghost var before := pipe.written;
      ConcatStep(parts, i);
      ok := WriteAll(pipe, parts[i]);
      if !ok {
        ghost var n: int :| 0 <= n <= |parts[i]| && pipe.written == before + parts[i][..n];
        CutPart(f, parts, i, n);
        assert pipe.written == old(pipe.written) + f.Wire()[..|done| + n];
        return;
      }
      done := done + parts[i];
      i := i + 1;
    }
    assert f.Wire()[..|f.Wire()|] == f.Wire();
    return true;
  }

  lemma ConcatStep(parts: seq<bytes>, i: nat)
    requires i < |parts|
    ensures Concat(parts[..i + 1]) == Concat(parts[..i]) + parts[i]
  {
    assert parts[..i + 1] == parts[..i] + [parts[i]];
    ConcatSnoc(parts[..i], parts[i]);
  }

  lemma AllParts(f: Frame, parts: seq<bytes>)
    requires parts == [Digits(|f.metadata|, LENGTH_BYTES), f.metadata, Digits(|f.body|, LENGTH_BYTES), f.body]
    ensures Concat(parts[..0]) == [] && Concat(parts[..4]) == f.Wire()
  {
    hide Digits;
    ConcatStep(parts, 0);
    ConcatStep(parts, 1);
    ConcatStep(parts, 2);
    ConcatStep(parts, 3);
    assert parts[..4] == parts && parts[..0] == [];
  }

  /** The octets written when part `i` stops early are a prefix of the frame. */
  lemma CutPart(f: Frame, parts: seq<bytes>, i: nat, n: nat)
    requires parts == [Digits(|f.metadata|, LENGTH_BYTES), f.metadata, Digits(|f.body|, LENGTH_BYTES), f.body]
    requires i < 4 && n <= |parts[i]|
    ensures |Concat(parts[..i])| + n <= |f.Wire()|
    ensures Concat(parts[..i]) + parts[i][..n] == f.Wire()[..|Concat(parts[..i])| + n]
  {
    hide Digits;
    AllParts(f, parts);
    assert parts[..4] == parts;
    ConcatStep(parts, i);
    ConcatAppend(parts[..i + 1], parts[i + 1..]);
    assert parts == parts[..i + 1] + parts[i + 1..];
    var done, rest := Concat(parts[..i]), Concat(parts[i + 1..]);
    assert f.Wire() == done + parts[i] + rest;
    assert parts[i] == parts[i][..n] + parts[i][n..];
  }

  /** `read_frame`: the next frame of the pipe and nothing of what follows it, with its metadata decoded; on a faultless
      pipe it fails only when the limits are negative, the pipe holds no frame within them, or the metadata is none. */
  method ReadFrame<M>(pipe: Pipe, maxMetadata: int, maxBody: int, decode: bytes -> Option<M>)
    returns (r: Result<(M, bytes), IpcError>)
    requires pipe.Valid()
    modifies pipe`position
    ensures pipe.Valid() && old(pipe.position) <= pipe.position
    ensures maxMetadata < 0 || maxBody < 0 ==> r == Failure(BadLimit) && pipe.position == old(pipe.position)
    ensures maxMetadata >= 0 && maxBody >= 0 ==>
              var first := FirstFrame(old(pipe.Rest()), maxMetadata, maxBody);
              && (r.Success? ==>
                    && first.Some? && first.value.1 == pipe.position - old(pipe.position)
                    && decode(first.value.0.metadata) == Some(r.value.0) && r.value.1 == first.value.0.body)
              && (pipe.faultless ==> (r.Success? <==> first.Some? && decode(first.value.0.metadata).Some?))
  {
    hide FirstFrame;
    if maxMetadata < 0 || maxBody < 0 {
      return Failure(BadLimit);
    }
    var frame := ReadParts(pipe, maxMetadata, maxBody);
    if frame.Failure? {
      return Failure(frame.error);
    }
    var metadata := decode(frame.value.metadata);
    r := if metadata.Some? then Success((metadata.value, frame.value.body)) else Failure(BadMetadata);
  }

  lemma SliceOfRest(s: bytes, start: nat, from: nat, to: nat)
    requires from <= to && start + to <= |s|
    ensures s[start..][from..to] == s[start + from..start + to]
  {}

  /** The four reads of `read_frame`. */
  method ReadParts(pipe: Pipe, maxMetadata: nat, maxBody: nat) returns (r: Result<Frame, IpcError>)
    requires pipe.Valid()
    modifies pipe`position
    ensures pipe.Valid() && old(pipe.position) <= pipe.position
    ensures r.Success? ==>
              FirstFrame(old(pipe.Rest()), maxMetadata, maxBody) == Some((r.value, pipe.position - old(pipe.position)))
    ensures pipe.faultless ==> (r.Success? <==> FirstFrame(old(pipe.Rest()), maxMetadata, maxBody).Some?)
  {
    hide Value;
    ghost var s := pipe.Rest();
    var head := ReadExact(pipe, LENGTH_BYTES);
    if head.Failure? {
      return Failure(head.error);
    }
    assert head.value == s[..8];
    ghost var p0 := old(pipe.position);
    var metadataLength := Value(head.value);
    if metadataLength > maxMetadata {
      return Failure(MetadataLimit);
    }
    var metadata := ReadExact(pipe, metadataLength);
    if metadata.Failure? {
      return Failure(metadata.error);
    }
    SliceOfRest(pipe.pending, p0, 8, 8 + metadataLength);
    var middle := ReadExact(pipe, LENGTH_BYTES);
    if middle.Failure? {
      return Failure(middle.error);
    }
    SliceOfRest(pipe.pending, p0, 8 + metadataLength, 16 + metadataLength);
    var bodyLength := Value(middle.value);
    if bodyLength > maxBody {
      return Failure(BodyLimit);
    }
    var body := ReadExact(pipe, bodyLength);
    if body.Failure? {
      return Failure(body.error);
    }
    SliceOfRest(pipe.pending, p0, 16 + metadataLength, 16 + metadataLength + bodyLength);
    return Success(Frame(metadata.value, body.value));
  }
}
