/** The incremental ClientHello capture: a handshake message inside TLS records, cut anywhere.
    First as a machine of single octets, then as the buffering object that copies in bulk. */
module CaptureModel {
  import opened Wrappers
  import opened Bytes
  import opened WireReader
  import opened P = ClientHelloParser
  import C = ClientHelloCodec

  datatype CaptureError =
    ContentType | RecordLimit | HandshakeType | SizeLimit | EarlyClose | Incomplete | Argument | Timeout | Socket

  datatype CaptureLimits = CaptureLimits(maxCapture: nat, maxRecord: nat, maxHello: nat) {
    predicate Valid() {
      maxCapture >= 5 && maxRecord >= 5 && maxHello >= 5
    }
  }

  /** `header` is `None` between records; `pending` then holds fewer than five header octets. */
  datatype Acc = Acc(limits: CaptureLimits, pending: bytes, records: bytes, header: Option<bytes>, declared: nat,
                     payload: bytes, prefix: bytes, seen: nat, total: Option<nat>, complete: bool)

  function NewAcc(limits: CaptureLimits): Acc {
    Acc(limits, [], [], None, 0, [], [], 0, None, false)
  }

  /** Raw octets held. */
  function Held(a: Acc): nat {
    |a.records| + (if a.header.Some? then |a.header.value| + |a.payload| else 0) + |a.pending|
  }

  datatype Outcome = More(acc: Acc) | Done(acc: Acc) | Fail(error: CaptureError)

  /** A record ends: a truncated one gets the length of what was kept. */
  function FinishRecord(a: Acc, truncated: bool): Acc
    requires a.header.Some? && |a.header.value| == 5 && |a.payload| < 0x1_0000
  {
    var header := a.header.value;
    var sent := if truncated || |a.payload| != a.declared then header[..3] + FromU16(|a.payload|) else header;
    a.(records := a.records + (sent + a.payload), header := None, declared := 0, payload := [])
  }

  /** Five header octets are there. */
  function OpenRecord(a: Acc, header: bytes): Outcome
    requires |header| == 5
  {
    if header[0] != HANDSHAKE then Fail(ContentType)
    else if U16(header[3..5]) > a.limits.maxRecord then Fail(RecordLimit)
    else
      var b := a.(pending := [], header := Some(header), declared := U16(header[3..5]), payload := []);
      More(if b.declared == 0 then FinishRecord(b, false) else b)
  }

  /** `chunk` continues the handshake message; the first four octets fix its length. */
  function Observe(a: Acc, chunk: bytes): Outcome {
    if a.total.Some? then More(a.(seen := a.seen + |chunk|))
    else
      var prefix := a.prefix + chunk;
      var b := a.(prefix := prefix, seen := a.seen + |chunk|);
      if |prefix| != 4 then More(b)
      else if prefix[0] != CLIENT_HELLO then Fail(HandshakeType)
      else
        var total := 4 + U24(prefix[1..4]);
        if total > a.limits.maxHello then Fail(SizeLimit) else More(b.(total := Some(total)))
  }

  /** After payload octets: the message may be complete, or the record full. */
  function Settle(a: Acc): Outcome
    requires a.header.Some? && |a.header.value| == 5 && |a.payload| < 0x1_0000
  {
    if a.total == Some(a.seen) then Done(FinishRecord(a, true).(complete := true))
    else if |a.payload| == a.declared then More(FinishRecord(a, false))
    else More(a)
  }

  predicate Shaped(a: Acc) {
    && (a.header.Some? ==> |a.header.value| == 5 && |a.payload| < a.declared < 0x1_0000 && a.pending == [])
    && (a.header.None? ==> |a.pending| < 5 && a.payload == [] && a.declared == 0)
  }

  function Step(a: Acc, b: byte): Outcome
    requires Shaped(a)
  {
    if Held(a) >= a.limits.maxCapture then Fail(SizeLimit)
    else if a.header.None? then
      var pending := a.pending + [b];
      if |pending| < 5 then More(a.(pending := pending)) else OpenRecord(a, pending)
    else
      var o := Observe(a.(payload := a.payload + [b]), [b]);
      if o.More? then Settle(o.acc) else o
  }

  lemma StepShaped(a: Acc, b: byte)
    requires Shaped(a)
    ensures Step(a, b).More? ==> Shaped(Step(a, b).acc)
  {}

  /** Octet by octet until the message is complete or an error stands. */
  function Run(a: Acc, data: bytes, i: nat): (r: (Outcome, nat))
    requires Shaped(a) && i <= |data|
    ensures i <= r.1 <= |data|
    decreases |data| - i
  {
    if i == |data| then (More(a), i)
    else
      var o := Step(a, data[i]);
      StepShaped(a, data[i]);
      if o.More? then Run(o.acc, data, i + 1) else (o, i + 1)
  }

  /** One `feed`: a completed capture ignores further input. */
  function Feed(a: Acc, data: bytes): Outcome
    requires Shaped(a)
  {
    if a.complete then Done(a) else Run(a, data, 0).0
  }

  function FeedPieces(a: Acc, pieces: seq<bytes>): Outcome
    requires Shaped(a)
    decreases |pieces|
  {
    if pieces == [] then More(a)
    else
      var o := Feed(a, pieces[0]);
      RunShaped(a, pieces[0], 0);
      if o.More? then FeedPieces(o.acc, pieces[1..]) else o
  }

  lemma {:induction false} RunShaped(a: Acc, data: bytes, i: nat)
    requires Shaped(a) && i <= |data|
    ensures Run(a, data, i).0.More? ==> Shaped(Run(a, data, i).0.acc)
    decreases |data| - i
  {
    hide Step;
    if i < |data| && Step(a, data[i]).More? {
      StepShaped(a, data[i]);
      RunShaped(Step(a, data[i]).acc, data, i + 1);
    }
  }

  lemma StepGoesOn(a: Acc, b: byte)
    requires Shaped(a)
    ensures Step(a, b).More? ==> Step(a, b).acc.complete == a.complete && Step(a, b).acc.limits == a.limits
  {}

  lemma {:induction false} RunConcat(a: Acc, x: bytes, y: bytes, i: nat)
    requires Shaped(a) && i <= |x|
    ensures Run(a, x, i).0.More? ==> Shaped(Run(a, x, i).0.acc)
    ensures Run(a, x + y, i) ==
            var first := Run(a, x, i); if first.0.More? then Run(first.0.acc, x + y, |x|) else first
    ensures Run(a, x, i).0.More? ==> Run(a, x, i).0.acc.complete == a.complete && Run(a, x, i).1 == |x|
    decreases |x| - i
  {
    hide Step;
    if i < |x| {
      assert (x + y)[i] == x[i];
      StepShaped(a, x[i]);
      StepGoesOn(a, x[i]);
      if Step(a, x[i]).More? {
        RunConcat(Step(a, x[i]).acc, x, y, i + 1);
      }
    }
  }

  lemma {:induction false} RunShift(a: Acc, x: bytes, y: bytes, i: nat)
    requires Shaped(a) && i <= |y|
    ensures Run(a, x + y, |x| + i) == (Run(a, y, i).0, |x| + Run(a, y, i).1)
    decreases |y| - i
  {
    hide Step;
    if i < |y| {
      assert (x + y)[|x| + i] == y[i];
      StepShaped(a, y[i]);
      if Step(a, y[i]).More? {
        RunShift(Step(a, y[i]).acc, x, y, i + 1);
      }
    }
  }

  /** However the input is cut into `feed` calls, the capture completes with the same records or
      fails with the same kind of error. */
  lemma {:induction false} FragmentationIndependence(a: Acc, pieces: seq<bytes>)
    requires Shaped(a) && !a.complete
    ensures FeedPieces(a, pieces) == Feed(a, Concat(pieces))
    decreases |pieces|
  {
    hide Step;
    if pieces != [] {
      var head, rest := pieces[0], Concat(pieces[1..]);
      RunConcat(a, head, rest, 0);
      var first := Run(a, head, 0).0;
      if first.More? {
        FragmentationIndependence(first.acc, pieces[1..]);
        RunShift(first.acc, head, rest, 0);
      }
    }
  }

  // ----- what the state says about the input -----

  /** The octets accepted so far, exactly as they came. */
  function Raw(a: Acc): bytes {
    a.records + ((if a.header.Some? then a.header.value + a.payload else []) + a.pending)
  }

  /** The handshake octets seen: those in finished records, joined as the parser joins them, then the current ones. */
  function Seen(a: Acc): bytes
    requires ParseRecords(a.records, 0).Success?
  {
    ParseRecords(a.records, 0).value + a.payload
  }

  /** What every state before completion or error satisfies. */
  ghost predicate Consistent(a: Acc) {
    && Shaped(a) && Held(a) <= a.limits.maxCapture && !a.complete
    && ParseRecords(a.records, 0).Success?
    && (a.header.Some? ==>
          a.header.value[0] == HANDSHAKE && a.declared == U16(a.header.value[3..5]) <= a.limits.maxRecord)
    && SeenWell(a, Seen(a))
  }

  /** The first four octets seen are the prefix, and they fix the total. */
  predicate SeenWell(a: Acc, all: bytes) {
    && a.seen == |all|
    && (if |all| < 4 then a.total.None? && a.prefix == all
        else
          && a.prefix == all[..4] && all[0] == CLIENT_HELLO
          && a.total == Some(4 + U24(all[1..4])) && |all| < a.total.value <= a.limits.maxHello)
  }

  lemma NewIsConsistent(limits: CaptureLimits)
    ensures Consistent(NewAcc(limits)) && Raw(NewAcc(limits)) == []
  {}

  /** Raw octets held are exactly the octets accepted. */
  lemma HeldIsRaw(a: Acc)
    requires Shaped(a)
    ensures Held(a) == |Raw(a)|
  {}

  // ----- records in front of octets -----

  lemma {:induction false} RecordsThen(s: bytes, w: bytes, p: nat)
    requires p <= |s| && ParseRecords(s, p).Success?
    ensures ParseRecords(s + w, p).Success? <==> ParseRecords(s + w, |s|).Success?
    ensures ParseRecords(s + w, p).Success? ==>
              ParseRecords(s + w, p).value == ParseRecords(s, p).value + ParseRecords(s + w, |s|).value
    decreases |s| - p
  {
    hide TakeRecord, RecordWire;
    if p == |s| {
      assert ParseRecords(s, p).value == [];
    } else {
      var r := TookRecord(s, p);
      var wire := RecordWire(r.version, r.payload);
      AtLonger(s, w, p, wire);
      RecordAt(s + w, p, r);
      RecordsThen(s, w, p + |wire|);
    }
  }

  lemma LoneRecord(s: bytes, version: bytes, payload: bytes)
    requires |version| == 2 && |payload| < 0x1_0000
    requires ParseRecords(s, 0).Success?
    ensures ParseRecords(s + RecordWire(version, payload), 0) == Success(ParseRecords(s, 0).value + payload)
  {
    hide TakeRecord, RecordWire;
    var w := RecordWire(version, payload);
    RecordsThen(s, w, 0);
    AtBehind(s, w);
    RecordAt(s + w, |s|, Record(version, payload));
    assert payload + [] == payload;
    WireLength(version, payload);
  }

  lemma WireLength(version: bytes, payload: bytes)
    requires |version| == 2 && |payload| < 0x1_0000
    ensures |RecordWire(version, payload)| == 5 + |payload|
  {}

  lemma AtBehind(s: bytes, w: bytes)
    ensures At(s + w, |s|, w)
  {}

  /** A header is content type, version and length. */
  lemma HeaderIs(header: bytes, payload: bytes)
    requires |header| == 5 && header[0] == HANDSHAKE && |payload| < 0x1_0000
    ensures header[..3] + FromU16(|payload|) + payload == RecordWire(header[1..3], payload)
    ensures |payload| == U16(header[3..5]) ==> header + payload == RecordWire(header[1..3], payload)
  {
    assert header[..3] == [HANDSHAKE] + header[1..3];
    FromU16Of(header[3..5]);
    assert header == header[..3] + header[3..5];
  }

  /** Finishing a record adds exactly its payload to what the parser would join. */
  lemma FinishJoins(a: Acc, truncated: bool)
    requires a.header.Some? && |a.header.value| == 5 && a.header.value[0] == HANDSHAKE
    requires |a.payload| <= a.declared == U16(a.header.value[3..5]) && ParseRecords(a.records, 0).Success?
    ensures var f := FinishRecord(a, truncated);
            && ParseRecords(f.records, 0) == Success(ParseRecords(a.records, 0).value + a.payload)
            && |f.records| == |a.records| + 5 + |a.payload|
            && (!truncated && |a.payload| == a.declared ==> f.records == a.records + (a.header.value + a.payload))
  {
    hide ParseRecords, RecordWire;
    HeaderIs(a.header.value, a.payload);
    LoneRecord(a.records, a.header.value[1..3], a.payload);
  }

  lemma OpenKeepsConsistent(a: Acc, b: byte)
    requires Consistent(a) && a.header.None? && |a.pending| == 4 && Held(a) < a.limits.maxCapture
    ensures var o := OpenRecord(a, a.pending + [b]);
            o.More? ==> Consistent(o.acc) && Raw(o.acc) == Raw(a) + [b]
  {
    hide ParseRecords;
    var header := a.pending + [b];
    var o := OpenRecord(a, header);
    if o.More? {
      var c := a.(pending := [], header := Some(header), declared := U16(header[3..5]), payload := []);
      if c.declared == 0 {
        FinishJoins(c, false);
        assert ParseRecords(a.records, 0).value + [] == ParseRecords(a.records, 0).value;
        assert header + [] == header;
      }
      assert a.records + (([] + a.pending)) + [b] == a.records + ((header + []) + []);
    }
  }

  lemma ObserveKeeps(a: Acc, b: byte)
    requires Consistent(a) && a.header.Some?
    ensures var c := a.(payload := a.payload + [b]);
            var o := Observe(c, [b]);
            && !o.Done?
            && (o.More? ==> o.acc == c.(prefix := o.acc.prefix, seen := o.acc.seen, total := o.acc.total)
                            && Seen(c) == Seen(a) + [b] && o.acc.seen == |Seen(c)|
                            && (if |Seen(c)| < 4 then o.acc.total.None? && o.acc.prefix == Seen(c)
                                else
                                  && o.acc.prefix == Seen(c)[..4] && Seen(c)[0] == CLIENT_HELLO
                                  && o.acc.total == Some(4 + U24(Seen(c)[1..4])) && |Seen(c)| <= o.acc.total.value <= a.limits.maxHello))
  {
    hide ParseRecords;
    var c := a.(payload := a.payload + [b]);
    var all, was := Seen(c), Seen(a);
    assert all == was + [b];
    if |all| >= 4 {
      if |was| < 4 {
        assert all[..4] == all && all[..4][1..4] == all[1..4];
      } else {
        assert all[..4] == was[..4] && all[1..4] == was[1..4];
      }
    }
  }

  /** Every octet keeps the invariant and is kept. */
  lemma StepKeepsConsistent(a: Acc, b: byte)
    requires Consistent(a)
    ensures Step(a, b).More? ==> Consistent(Step(a, b).acc) && Raw(Step(a, b).acc) == Raw(a) + [b]
  {
    hide ParseRecords, OpenRecord, Observe;
    if Held(a) < a.limits.maxCapture {
      if a.header.None? {
        if |a.pending| == 4 {
          OpenKeepsConsistent(a, b);
        } else {
          assert a.records + ([] + (a.pending + [b])) == a.records + ([] + a.pending) + [b];
        }
      } else {
        var c := a.(payload := a.payload + [b]);
        ObserveKeeps(a, b);
        var o := Observe(c, [b]);
        if o.More? {
          SettleKeeps(a, b, o.acc);
        }
      }
    }
  }

  lemma SettleKeeps(a: Acc, b: byte, c: Acc)
    requires Consistent(a) && a.header.Some? && Held(a) < a.limits.maxCapture
    requires c == a.(payload := a.payload + [b], prefix := c.prefix, seen := c.seen, total := c.total)
    requires c.seen == |Seen(c)| && (c.total != Some(c.seen) ==> SeenWell(c, Seen(c)))
    ensures Settle(c).More? ==> Consistent(Settle(c).acc) && Raw(Settle(c).acc) == Raw(a) + [b]
  {
    hide ParseRecords;
    var h := a.header.value;
    assert a.records + ((h + a.payload) + []) + [b] == a.records + ((h + (a.payload + [b])) + []);
    if Settle(c).More? && |c.payload| == c.declared {
      FinishJoins(c, false);
      var f := FinishRecord(c, false);
      assert f.records + ([] + []) == a.records + ((h + (a.payload + [b])) + []);
      assert f.payload == [] && f.header.None?;
      assert ParseRecords(f.records, 0).value + [] == ParseRecords(f.records, 0).value;
      assert Seen(f) == Seen(c);
    }
  }

  // ----- completion -----

  /** The octets that completed a capture: full records, then a header and the payload up to the
      end of the message; and the result holds the whole message and nothing else. */
  ghost predicate Captured(limits: CaptureLimits, input: bytes, result: bytes, body: bytes) {
    && |body| < 0x100_0000 && 4 + |body| <= limits.maxHello
    && ParseRecords(result, 0) == Success(Handshake(body))
    && exists records: bytes, header: bytes, tail: bytes ::
         && |header| == 5 && header[0] == HANDSHAKE && |tail| <= U16(header[3..5])
         && ParseRecords(records, 0).Success? && ParseRecords(records, 0).value + tail == Handshake(body)
         && input == records + (header + tail)
         && result == records + (header[..3] + FromU16(|tail|) + tail)
  }

  /** `result` is the capture of some message at the front of the handshake octets in `input`. */
  ghost predicate Spells(limits: CaptureLimits, input: bytes, result: bytes) {
    exists body :: Captured(limits, input, result, body)
  }

  lemma StepCaptures(a: Acc, b: byte) returns (body: bytes)
    requires Consistent(a) && Step(a, b).Done?
    ensures Captured(a.limits, Raw(a) + [b], Step(a, b).acc.records, body) && Step(a, b).acc.complete
    ensures a.header.Some? && |body| < 0x100_0000 && Handshake(body) == Seen(a) + [b]
    ensures ParseRecords(Step(a, b).acc.records, 0) == Success(Handshake(body))
  {
    hide ParseRecords, Observe;
    ObserveKeeps(a, b);
    var c := Observe(a.(payload := a.payload + [b]), [b]).acc;
    var all, header := Seen(c), a.header.value;
    FinishJoins(c, true);
    body := all[4..];
    assert all == [all[0]] + (all[1..4] + all[4..]);
    FromU24Of(all[1..4]);
    assert Handshake(body) == all;
    assert Raw(a) + [b] == a.records + (header + c.payload);
    assert Step(a, b).acc.records == c.records + (header[..3] + FromU16(|c.payload|) + c.payload);
  }

  lemma {:induction false} RunKeepsConsistent(a: Acc, data: bytes, i: nat)
    requires Consistent(a) && i <= |data| && Raw(a) == data[..i]
    ensures var (o, n) := Run(a, data, i);
            && (o.More? ==> Consistent(o.acc) && Raw(o.acc) == data && o.acc.limits == a.limits)
            && (o.Done? ==> o.acc.complete && Spells(a.limits, data[..n], o.acc.records))
    decreases |data| - i
  {
    hide Step, Captured, Consistent, Raw;
    ConsistentIsShaped(a);
    if i < |data| {
      var o := Step(a, data[i]);
      assert data[..i + 1] == data[..i] + [data[i]];
      StepKeepsConsistent(a, data[i]);
      StepGoesOn(a, data[i]);
      if o.More? {
        RunKeepsConsistent(o.acc, data, i + 1);
      } else if o.Done? {
        var body := StepCaptures(a, data[i]);
      }
    } else {
      assert data[..i] == data;
    }
  }

  lemma ConsistentIsShaped(a: Acc)
    requires Consistent(a)
    ensures Shaped(a)
  {}

  /** Soundness: a completed `result()` passes every record and handshake framing check of the strict parser,
      which then parses exactly the first handshake message of the input. */
  lemma CaptureSound(limits: CaptureLimits, data: bytes) returns (n: nat, body: bytes)
    requires Run(NewAcc(limits), data, 0).0.Done?
    ensures n <= |data| && Captured(limits, data[..n], Run(NewAcc(limits), data, 0).0.acc.records, body)
    ensures ParseWire(Run(NewAcc(limits), data, 0).0.acc.records) == C.ParseHello(body, 9)
  {
    hide Run, ParseRecords, C.ParseHello, Captured, Consistent, Raw, Handshake;
    NewIsConsistent(limits);
    assert data[..0] == [];
    RunKeepsConsistent(NewAcc(limits), data, 0);
    n := Run(NewAcc(limits), data, 0).1;
    body :| Captured(limits, data[..n], Run(NewAcc(limits), data, 0).0.acc.records, body);
    CapturedParses(limits, data[..n], Run(NewAcc(limits), data, 0).0.acc.records, body);
  }

  lemma CapturedParses(limits: CaptureLimits, input: bytes, result: bytes, body: bytes)
    requires Captured(limits, input, result, body)
    ensures ParseWire(result) == C.ParseHello(body, 9)
  {
    hide ParseRecords, C.ParseHello;
    HandshakeExact(Handshake(body), 5, body);
  }

  // ----- completeness -----

  /** What the strict parser and the limits must find in an input for the capture to be complete. */
  ghost predicate Acceptable(limits: CaptureLimits, w: bytes, rs: seq<Record>, body: bytes) {
    && AllRecords(rs) && w == RecordsWire(rs) && |w| <= limits.maxCapture
    && (forall i :: 0 <= i < |rs| ==> |rs[i].payload| <= limits.maxRecord)
    && |body| < 0x100_0000 && Payloads(rs) == Handshake(body) && 4 + |body| <= limits.maxHello
  }

  lemma {:induction false} WireSplit(rs: seq<Record>, k: nat)
    requires AllRecords(rs) && k <= |rs|
    ensures RecordsWire(rs) == RecordsWire(rs[..k]) + RecordsWire(rs[k..])
    ensures Payloads(rs) == Payloads(rs[..k]) + Payloads(rs[k..])
    decreases k
  {
    hide RecordWire;
    if k == 0 {
      assert rs[..0] == [] && rs[0..] == rs;
      assert [] + RecordsWire(rs) == RecordsWire(rs) && [] + Payloads(rs) == Payloads(rs);
    } else {
      var tail := rs[1..];
      WireSplit(tail, k - 1);
      assert rs[..k][1..] == tail[..k - 1] && tail[k - 1..] == rs[k..] && rs[..k][0] == rs[0];
      assert RecordsWire(rs) == RecordWire(rs[0].version, rs[0].payload) + RecordsWire(tail);
      assert RecordsWire(rs[..k]) == RecordWire(rs[0].version, rs[0].payload) + RecordsWire(tail[..k - 1]);
      assert Payloads(rs) == rs[0].payload + Payloads(tail) && Payloads(rs[..k]) == rs[0].payload + Payloads(tail[..k - 1]);
      hide RecordsWire, Payloads;
      Associative(RecordWire(rs[0].version, rs[0].payload), RecordsWire(tail[..k - 1]), RecordsWire(rs[k..]));
      Associative(rs[0].payload, Payloads(tail[..k - 1]), Payloads(rs[k..]));
    }
  }

  /** Record boundaries are unique: a prefix of the input that is itself a sequence of records ends between
      two records of the input. */
  lemma {:induction false} BoundaryFound(rs: seq<Record>, s: bytes, rest: bytes, p: nat, j: nat) returns (k: nat)
    requires AllRecords(rs) && j <= |rs| && p <= |s| && ParseRecords(s, p).Success?
    requires s[p..] + rest == RecordsWire(rs[j..])
    ensures j <= k <= |rs| && rest == RecordsWire(rs[k..])
    ensures ParseRecords(s, p).value == Payloads(rs[j..k])
    decreases |rs| - j
  {
    hide TakeRecord, RecordWire, Payloads;
    if p == |s| {
      k := j;
      assert s[p..] + rest == rest;
      PayloadsFrom(rs, j, j);
    } else {
      var r := TookRecord(s, p);
      var wire := RecordWire(r.version, r.payload);
      WireLength(r.version, r.payload);
      AtLonger(s, rest, p, wire);
      var tail := s[p..] + rest;
      assert At(tail, 0, wire);
      assert j < |rs|;
      FirstRecord(rs, j, tail);
      RecordAt(tail, 0, r);
      RecordAt(tail, 0, rs[j]);
      assert r.payload == rs[j].payload;
      WireLength(rs[j].version, rs[j].payload);
      assert s[p + |wire|..] + rest == tail[|wire|..] == RecordsWire(rs[j + 1..]);
      k := BoundaryFound(rs, s, rest, p + |wire|, j + 1);
      PayloadsFrom(rs, j, k);
    }
  }

  lemma PayloadsFrom(rs: seq<Record>, j: nat, k: nat)
    requires j <= k <= |rs|
    ensures Payloads(rs[j..k]) == if j == k then [] else rs[j].payload + Payloads(rs[j + 1..k])
  {
    if j < k {
      assert rs[j..k][0] == rs[j] && rs[j..k][1..] == rs[j + 1..k];
    }
  }

  lemma FirstRecord(rs: seq<Record>, j: nat, s: bytes)
    requires AllRecords(rs) && j < |rs| && s == RecordsWire(rs[j..])
    ensures var w := RecordWire(rs[j].version, rs[j].payload);
            && s == w + RecordsWire(rs[j + 1..]) && At(s, 0, w) && s[|w|..] == RecordsWire(rs[j + 1..])
    ensures Payloads(rs[j..]) == rs[j].payload + Payloads(rs[j + 1..])
  {
    hide RecordWire;
    assert rs[j..][1..] == rs[j + 1..] && rs[j..][0] == rs[j];
  }

  /** Where the capture stands in an acceptable input: what is left starts at the current record. */
  lemma Position(a: Acc, w: bytes, i: nat, rs: seq<Record>, body: bytes) returns (k: nat, left: bytes)
    requires Consistent(a) && Acceptable(a.limits, w, rs, body) && i <= |w| && Raw(a) == w[..i]
    ensures k <= |rs| && w == a.records + left && left == RecordsWire(rs[k..])
    ensures left == (if a.header.Some? then a.header.value + a.payload else []) + a.pending + w[i..]
    ensures Handshake(body) == ParseRecords(a.records, 0).value + Payloads(rs[k..])
  {
    hide ParseRecords, RecordsWire, Payloads;
    var held := (if a.header.Some? then a.header.value + a.payload else []) + a.pending;
    left := held + w[i..];
    assert w == w[..i] + w[i..];
    assert w == a.records + left;
    assert a.records[0..] == a.records && rs[0..] == rs;
    k := BoundaryFound(rs, a.records, left, 0, 0);
    WireSplit(rs, k);
    assert rs[0..k] == rs[..k];
  }

  lemma RecordParts(rs: seq<Record>, k: nat, left: bytes)
    requires AllRecords(rs) && k < |rs| && left == RecordsWire(rs[k..])
    ensures |left| >= 5 && left[0] == HANDSHAKE && U16(left[3..5]) == |rs[k].payload|
    ensures 5 + |rs[k].payload| <= |left| && left[5..5 + |rs[k].payload|] == rs[k].payload
  {
    FirstRecord(rs, k, left);
    var r := rs[k];
    var w := RecordWire(r.version, r.payload);
    WireLength(r.version, r.payload);
    assert left[0] == w[0] == HANDSHAKE;
    assert left[3..5] == w[3..5] == FromU16(|r.payload|);
    assert left[5..5 + |r.payload|] == w[5..] == r.payload;
  }

  /** All octets seen are a prefix of the message. */
  lemma SeenIsPrefix(a: Acc, w: bytes, i: nat, rs: seq<Record>, body: bytes)
    requires Consistent(a) && Acceptable(a.limits, w, rs, body) && i < |w| && Raw(a) == w[..i] && a.header.Some?
    ensures Seen(a) + [w[i]] <= Handshake(body)
  {
    hide ParseRecords, RecordsWire, Payloads, Handshake;
    var k, left := Position(a, w, i, rs, body);
    var h := a.header.value;
    assert left == (h + a.payload) + w[i..];
    assert k < |rs| by {
      if k == |rs| {
        assert rs[k..] == [];
        NoWire();
      }
    }
    RecordParts(rs, k, left);
    FirstRecord(rs, k, left);
    assert left[3..5] == h[3..5];
    PayloadStarts(left, h, a.payload, w[i..], rs[k].payload);
    PrefixUnder(ParseRecords(a.records, 0).value, a.payload, w[i], rs[k].payload, Payloads(rs[k + 1..]));
  }

  /** The octets after a record header are the start of the record's payload. */
  lemma PayloadStarts(left: bytes, h: bytes, got: bytes, rest: bytes, payload: bytes)
    requires |h| == 5 && left == (h + got) + rest && rest != [] && |got| < |payload|
    requires 5 + |payload| <= |left| && left[5..5 + |payload|] == payload
    ensures payload[..|got|] == got && payload[|got|] == rest[0]
  {
    assert forall i :: 0 <= i < |payload| ==> payload[i] == left[5 + i];
  }

  lemma PrefixUnder(joined: bytes, got: bytes, b: byte, payload: bytes, after: bytes)
    requires |got| < |payload| && payload[..|got|] == got && payload[|got|] == b
    ensures joined + got + [b] <= joined + (payload + after)
  {
    assert payload == (got + [b]) + payload[|got| + 1..];
  }

  lemma NoWire()
    ensures RecordsWire([]) == [] && Payloads([]) == []
  {}

  lemma HandshakeParts(body: bytes, all: bytes)
    requires |body| < 0x100_0000 && all <= Handshake(body) && |all| >= 4
    ensures all[0] == CLIENT_HELLO && 4 + U24(all[1..4]) == |Handshake(body)|
  {
    var h := Handshake(body);
    assert h[1..4] == FromU24(|body|);
    assert all[1..4] == h[1..4];
  }

  /** No octet of an acceptable input is refused. */
  lemma StepAccepts(a: Acc, w: bytes, i: nat, rs: seq<Record>, body: bytes)
    requires Consistent(a) && Acceptable(a.limits, w, rs, body) && i < |w| && Raw(a) == w[..i]
    ensures !Step(a, w[i]).Fail?
  {
    hide ParseRecords, RecordsWire, Payloads, Handshake;
    HeldIsRaw(a);
    if a.header.Some? {
      var c := a.(payload := a.payload + [w[i]]);
      SeenIsPrefix(a, w, i, rs, body);
      assert Seen(c) == Seen(a) + [w[i]];
      if |Seen(c)| >= 4 {
        HandshakeParts(body, Seen(c));
        HandshakeLength(body);
      }
      assert a.total.None? && |Seen(c)| == 4 ==> Seen(c)[..4] == Seen(c) && a.prefix + [w[i]] == Seen(c);
    } else if |a.pending| == 4 {
      var k, left := Position(a, w, i, rs, body);
      assert left == [] + a.pending + w[i..];
      assert k < |rs| by {
        if k == |rs| {
          assert rs[k..] == [];
          NoWire();
        }
      }
      RecordParts(rs, k, left);
      assert left[..5] == a.pending + [w[i]];
      assert left[3..5] == (a.pending + [w[i]])[3..5];
    }
  }

  lemma HandshakeLength(body: bytes)
    requires |body| < 0x100_0000
    ensures |Handshake(body)| == 4 + |body|
  {}

  lemma FrontOf(left: bytes, header: bytes)
    requires |header| == 5 && |left| >= 5 && left[..5] == header
    ensures left[3..5] == header[3..5]
  {
    assert left[3..5] == left[..5][3..5];
  }

  /** An acceptable input cannot be used up without completing the capture. */
  lemma NotLeftOver(a: Acc, w: bytes, rs: seq<Record>, body: bytes)
    requires Consistent(a) && Acceptable(a.limits, w, rs, body)
    ensures Raw(a) != w
  {
    hide ParseRecords, RecordsWire, Payloads, Handshake;
    if Raw(a) == w {
      assert w[..|w|] == w && w[|w|..] == [];
      var k, left := Position(a, w, |w|, rs, body);
      if k < |rs| {
        RecordParts(rs, k, left);
        if a.header.Some? {
          FrontOf(a.header.value + a.payload, a.header.value);
        }
      } else {
        assert rs[k..] == [];
        NoWire();
        assert Seen(a) == Handshake(body);
        HandshakeLength(body);
        HandshakeParts(body, Seen(a));
      }
    }
  }

  lemma {:induction false} RunAccepts(a: Acc, w: bytes, i: nat, rs: seq<Record>, body: bytes)
    requires Consistent(a) && Acceptable(a.limits, w, rs, body) && i <= |w| && Raw(a) == w[..i]
    ensures Run(a, w, i).0.Done?
    ensures ParseRecords(Run(a, w, i).0.acc.records, 0) == Success(Handshake(body))
    decreases |w| - i
  {
    hide Step, Consistent, Raw, Acceptable, ParseRecords, Handshake;
    ConsistentIsShaped(a);
    if i == |w| {
      assert w[..i] == w;
      NotLeftOver(a, w, rs, body);
    } else {
      assert w[..i + 1] == w[..i] + [w[i]];
      StepAccepts(a, w, i, rs, body);
      var o := Step(a, w[i]);
      if o.More? {
        StepKeepsConsistent(a, w[i]);
        StepGoesOn(a, w[i]);
        RunAccepts(o.acc, w, i + 1, rs, body);
      } else {
        DoneIsWhole(a, w, i, rs, body);
      }
    }
  }

  lemma DoneIsWhole(a: Acc, w: bytes, i: nat, rs: seq<Record>, body: bytes)
    requires Consistent(a) && Acceptable(a.limits, w, rs, body) && i < |w| && Raw(a) == w[..i] && Step(a, w[i]).Done?
    ensures ParseRecords(Step(a, w[i]).acc.records, 0) == Success(Handshake(body))
  {
    hide ParseRecords, RecordsWire, Payloads, Handshake, Step, Captured, Consistent, Acceptable, Raw, Seen;
    ConsistentIsShaped(a);
    var captured := StepCaptures(a, w[i]);
    SeenIsPrefix(a, w, i, rs, body);
    AcceptableBody(a.limits, w, rs, body);
    HandshakeLength(captured);
    HandshakeLength(body);
    HandshakeParts(body, Handshake(captured));
    HandshakeParts(captured, Handshake(captured));
    var x, y := Handshake(captured), Handshake(body);
    assert |x| == |y| && x == y[..|x|] && y[..|y|] == y;
  }

  lemma AcceptableBody(limits: CaptureLimits, w: bytes, rs: seq<Record>, body: bytes)
    requires Acceptable(limits, w, rs, body)
    ensures |body| < 0x100_0000
  {}

  /** Completeness: any wire image the strict parser accepts, within the limits, completes the capture,
      and parsing `result()` gives the same ClientHello. */
  lemma CaptureComplete(limits: CaptureLimits, w: bytes, rs: seq<Record>, body: bytes)
    requires Acceptable(limits, w, rs, body) && ParseWire(w).Success?
    ensures Run(NewAcc(limits), w, 0).0.Done?
    ensures ParseWire(Run(NewAcc(limits), w, 0).0.acc.records) == ParseWire(w)
  {
    hide Run, ParseRecords, C.ParseHello, Handshake, RecordsWire;
    NewIsConsistent(limits);
    assert w[..0] == [];
    RunAccepts(NewAcc(limits), w, 0, rs, body);
    AtWhole(w);
    RecordsAt(w, 0, rs);
    HandshakeExact(Handshake(body), 5, body);
    EmptyRecords();
    HandshakeLength(body);
  }

  lemma EmptyRecords()
    ensures ParseRecords([], 0) == Success([])
  {}

  /** The records and the message body `Acceptable` asks for exist in every input the parser accepts. */
  lemma AcceptedParts(w: bytes) returns (rs: seq<Record>, body: bytes)
    requires ParseWire(w).Success?
    ensures AllRecords(rs) && w == RecordsWire(rs) && |body| < 0x100_0000 && Payloads(rs) == Handshake(body)
  {
    hide C.Encode, RecordsWire, Payloads;
    var block;
    rs, block := RecordsOfParse(w);
    body := C.Encode(ParseWire(w).value, block);
  }
}

/** The buffering object itself: it accepts what fits, then moves octets in bulk. */
module Capture {
  import opened Wrappers
  import opened Bytes
  import opened WireReader
  import opened M = CaptureModel
  import P = ClientHelloParser

  // ----- bulk moves are single steps -----

  lemma {:induction false} PendingSteps(a: Acc, data: bytes, i: nat, k: nat)
    requires Shaped(a) && a.header.None? && i + k <= |data|
    requires |a.pending| + k < 5 && Held(a) + k <= a.limits.maxCapture
    ensures Run(a, data, i) == Run(a.(pending := a.pending + data[i..i + k]), data, i + k)
    decreases k
  {
    hide OpenRecord, Observe;
    if k == 0 {
      assert a.pending + data[i..i] == a.pending;
    } else {
      var q := a.(pending := a.pending + [data[i]]);
      assert Step(a, data[i]) == More(q);
      PendingSteps(q, data, i + 1, k - 1);
      assert q.pending + data[i + 1..i + k] == a.pending + data[i..i + k];
    }
  }

  /** Continue after an outcome. */
  function Resume(o: Outcome, data: bytes, i: nat): (Outcome, nat)
    requires i <= |data| && (o.More? ==> Shaped(o.acc))
  {
    if o.More? then Run(o.acc, data, i) else (o, i)
  }

  lemma OpenShaped(a: Acc, header: bytes)
    requires |header| == 5
    ensures OpenRecord(a, header).More? ==> Shaped(OpenRecord(a, header).acc)
  {}

  /** Taking five header octets at once. */
  lemma HeaderSteps(a: Acc, data: bytes, i: nat)
    requires Shaped(a) && a.header.None? && a.pending == [] && i + 5 <= |data| && Held(a) + 5 <= a.limits.maxCapture
    ensures OpenRecord(a, data[i..i + 5]).More? ==> Shaped(OpenRecord(a, data[i..i + 5]).acc)
    ensures Run(a, data, i) == Resume(OpenRecord(a, data[i..i + 5]), data, i + 5)
  {
    hide OpenRecord, Step;
    OpenShaped(a, data[i..i + 5]);
    PendingSteps(a, data, i, 4);
    var q := a.(pending := a.pending + data[i..i + 4]);
    assert q.pending + [data[i + 4]] == data[i..i + 5];
    FifthOctet(a, q, data[i + 4]);
  }

  lemma FifthOctet(a: Acc, q: Acc, b: byte)
    requires Shaped(a) && a.header.None? && a.pending == [] && Held(a) + 5 <= a.limits.maxCapture
    requires |q.pending| == 4 && q == a.(pending := q.pending)
    ensures Step(q, b) == OpenRecord(a, q.pending + [b])
  {}

  lemma {:induction false} QuietPayload(a: Acc, data: bytes, i: nat, k: nat)
    requires Shaped(a) && a.header.Some? && i + k <= |data|
    requires |a.payload| + k < a.declared && Held(a) + k <= a.limits.maxCapture
    requires if a.total.None? then |a.prefix| + k < 4 else a.seen + k < a.total.value
    ensures Run(a, data, i) == Run(Grown(a, data[i..i + k]), data, i + k)
    decreases k
  {
    hide Step, Run;
    if k == 0 {
      GrownNone(a);
      assert data[i..i + k] == [];
    } else {
      var front, rest := [data[i]], data[i + 1..i + k];
      QuietStep(a, data[i]);
      RunOnce(a, data, i);
      QuietPayload(Grown(a, front), data, i + 1, k - 1);
      GrownTwice(a, front, rest);
      assert data[i..i + k] == front + rest;
    }
  }

  lemma GrownNone(a: Acc)
    requires Shaped(a) && a.header.Some? && |a.payload| < a.declared
    ensures Grown(a, []) == a
  {
    assert a.payload + [] == a.payload && a.prefix + [] == a.prefix;
  }

  /** `a` with `chunk` more payload, nothing decided. */
  function Grown(a: Acc, chunk: bytes): (b: Acc)
    requires Shaped(a) && a.header.Some? && |a.payload| + |chunk| < a.declared
    ensures Shaped(b)
  {
    a.(payload := a.payload + chunk, seen := a.seen + |chunk|, prefix := if a.total.None? then a.prefix + chunk else a.prefix)
  }

  lemma GrownTwice(a: Acc, x: bytes, y: bytes)
    requires Shaped(a) && a.header.Some? && |a.payload| + |x| + |y| < a.declared
    ensures Grown(Grown(a, x), y) == Grown(a, x + y)
  {
    assert a.payload + x + y == a.payload + (x + y) && a.prefix + x + y == a.prefix + (x + y);
  }

  lemma QuietStep(a: Acc, b: byte)
    requires Shaped(a) && a.header.Some? && |a.payload| + 1 < a.declared && Held(a) + 1 <= a.limits.maxCapture
    requires if a.total.None? then |a.prefix| + 1 < 4 else a.seen + 1 < a.total.value
    ensures Step(a, b) == More(Grown(a, [b]))
  {}

  /** What a chunk of payload leads to: the message's prefix is checked, then the record settled. */
  function TakeChunk(a: Acc, chunk: bytes): Outcome
    requires Shaped(a) && a.header.Some? && |a.payload| + |chunk| <= a.declared
  {
    var o := Observe(a.(payload := a.payload + chunk), chunk);
    if o.More? then Settle(o.acc) else o
  }

  lemma TakeChunkShaped(a: Acc, chunk: bytes)
    requires Shaped(a) && a.header.Some? && 0 < |chunk| && |a.payload| + |chunk| <= a.declared
    ensures TakeChunk(a, chunk).More? ==> Shaped(TakeChunk(a, chunk).acc)
  {}

  /** A chunk that ends no later than the record, the length prefix and the message is its octets one by one. */
  lemma ChunkSteps(a: Acc, data: bytes, i: nat, k: nat)
    requires Shaped(a) && a.header.Some? && 0 < k && i + k <= |data|
    requires |a.payload| + k <= a.declared && Held(a) + k <= a.limits.maxCapture
    requires if a.total.None? then |a.prefix| + k <= 4 else a.seen + k <= a.total.value
    ensures TakeChunk(a, data[i..i + k]).More? ==> Shaped(TakeChunk(a, data[i..i + k]).acc)
    ensures Run(a, data, i) == Resume(TakeChunk(a, data[i..i + k]), data, i + k)
  {
    hide *;
    var front, chunk := data[i..i + (k - 1)], data[i..i + k];
    assert chunk == front + [data[i + (k - 1)]];
    TakeChunkShaped(a, chunk);
    QuietPayload(a, data, i, k - 1);
    StepIsChunk(a, front, data[i + (k - 1)]);
    RunOnce(Grown(a, front), data, i + (k - 1));
  }

  lemma RunOnce(a: Acc, data: bytes, i: nat)
    requires Shaped(a) && i < |data|
    ensures Step(a, data[i]).More? ==> Shaped(Step(a, data[i]).acc)
    ensures Run(a, data, i) == Resume(Step(a, data[i]), data, i + 1)
  {
    StepShaped(a, data[i]);
    hide Step;
  }

  lemma StepIsChunk(a: Acc, front: bytes, last: byte)
    requires Shaped(a) && a.header.Some? && |a.payload| + |front| < a.declared && Held(a) + |front| < a.limits.maxCapture
    requires if a.total.None? then |a.prefix| + |front| < 4 else a.seen + |front| < a.total.value
    ensures Step(Grown(a, front), last) == TakeChunk(a, front + [last])
  {
    hide Settle;
    assert a.payload + front + [last] == a.payload + (front + [last]);
    assert a.prefix + front + [last] == a.prefix + (front + [last]);
  }

  lemma DoneIsShaped(a: Acc, b: byte)
    requires Shaped(a) && Step(a, b).Done? && (a.header.Some? ==> a.pending == [])
    ensures Shaped(Step(a, b).acc)
  {}

  lemma {:induction false} RunKeepsRaw(a: Acc, data: bytes, i: nat)
    requires Consistent(a) && i <= |data|
    ensures var o := Run(a, data, i).0;
            && (o.More? ==> Consistent(o.acc) && Held(o.acc) == Held(a) + (|data| - i) && o.acc.limits == a.limits)
            && (o.Done? ==> o.acc.complete && Shaped(o.acc))
    decreases |data| - i
  {
    hide Step, Consistent, Raw;
    ConsistentIsShaped(a);
    if i < |data| {
      StepKeepsConsistent(a, data[i]);
      StepGoesOn(a, data[i]);
      var o := Step(a, data[i]);
      if o.More? {
        ConsistentIsShaped(o.acc);
        HeldIsRaw(a);
        HeldIsRaw(o.acc);
        RunKeepsRaw(o.acc, data, i + 1);
      } else if o.Done? {
        var body := StepCaptures(a, data[i]);
        DoneIsShaped(a, data[i]);
      }
    }
  }

  /** The message is not complete: its length is unknown, or not yet reached. */
  predicate Counted(a: Acc) {
    if a.total.None? then |a.prefix| < 4 && a.seen == |a.prefix| else a.seen < a.total.value
  }

  // ----- the object -----

  lemma Slices(data: bytes, i: nat, k: nat)
    requires i + k <= |data|
    ensures data[i..][..k] == data[i..i + k] && data[i..][k..] == data[i + k..]
  {}

  class ClientHelloAccumulator {
    const limits: CaptureLimits
    var pending: bytes
    var records: seq<bytes>
    var header: Option<bytes>
    var declared: nat
    var payload: bytes
    var prefix: bytes
    var seen: nat
    var total: Option<nat>
    var complete: bool
    /** The octets fed so far that the capture wanted. */
    ghost var taken: bytes

    ghost function View(): Acc
      reads this
    {
      Acc(limits, pending, Concat(records), header, declared, payload, prefix, seen, total, complete)
    }

    /** The state with nothing waiting to be processed. */
    ghost function Drained(): Acc
      reads this
    {
      View().(pending := [])
    }

    ghost predicate Valid()
      reads this
    {
      && Shaped(View())
      && if complete then Spells(limits, taken, Concat(records))
         else Consistent(View()) && Raw(View()) == taken
    }

    /** An accumulator that holds nothing. */
    constructor (limits: CaptureLimits)
      requires limits.Valid()
      ensures Valid() && View() == NewAcc(limits) && taken == []
    {
      this.limits := limits;
      pending, records, header, declared, payload := [], [], None, 0, [];
      prefix, seen, total, complete, taken := [], 0, None, false, [];
      new;
      NewIsConsistent(limits);
    }

    /** `_raw_bytes_held`: the lengths of all parts, added up. */
    method RawBytesHeld() returns (n: nat)
      ensures n == Held(View())
    {
      n := 0;
      assert records[..0] == [];
      for i := 0 to |records|
        invariant n == |Concat(records[..i])|
      {
        assert records[..i + 1] == records[..i] + [records[i]];
        ConcatSnoc(records[..i], records[i]);
        n := n + |records[i]|;
      }
      assert records[..|records|] == records;
      if header.Some? {
        n := n + |header.value| + |payload|;
      }
      n := n + |pending|;
    }

    method CloseRecord(truncated: bool)
      requires header.Some? && |header.value| == 5 && |payload| < 0x1_0000
      modifies this`records, this`header, this`declared, this`payload
      ensures View() == FinishRecord(old(View()), truncated)
    {
      var sent := header.value;
      if truncated || |payload| != declared {
        sent := header.value[..3] + FromU16(|payload|);
      }
      ConcatSnoc(records, sent + payload);
      records := records + [sent + payload];
      header, declared, payload := None, 0, [];
    }

    method ObserveHandshake(chunk: bytes) returns (r: Result<(), CaptureError>)
      modifies this`prefix, this`seen, this`total
      ensures match Observe(old(View()), chunk)
              case Fail(e) => r == Failure(e)
              case More(a) => r == Success(()) && View() == a
              case Done(_) => false
    {
      if total.None? {
        prefix := prefix + chunk;
        if |prefix| == 4 {
          if prefix[0] != P.CLIENT_HELLO {
            return Failure(HandshakeType);
          }
          var whole := 4 + U24(prefix[1..4]);
          if whole > limits.maxHello {
            return Failure(SizeLimit);
          }
          total := Some(whole);
        }
      }
      seen := seen + |chunk|;
      r := Success(());
    }

    /** A record header is waiting: check it and open the record. */
    method TakeHeader() returns (r: Result<(), CaptureError>)
      requires header.None? && |pending| >= 5 && Shaped(Drained())
      modifies this
      ensures taken == old(taken)
      ensures match OpenRecord(old(Drained()), old(pending)[..5])
              case Fail(e) => r == Failure(e)
              case More(a) => r == Success(()) && Drained() == a && pending == old(pending)[5..]
              case Done(_) => false
    {
      var h := pending[..5];
      pending := pending[5..];
      if h[0] != P.HANDSHAKE {
        return Failure(ContentType);
      }
      var length := U16(h[3..5]);
      if length > limits.maxRecord {
        return Failure(RecordLimit);
      }
      header, declared, payload := Some(h), length, [];
      if declared - |payload| == 0 {
        CloseRecord(false);
      }
      r := Success(());
    }

    /** Move as much waiting payload as the record and the message still want. */
    method TakePayload() returns (r: Result<(), CaptureError>, ghost k: nat)
      requires header.Some? && pending != [] && !complete && Shaped(Drained())
      requires if total.None? then |prefix| < 4 else seen < total.value
      modifies this
      ensures taken == old(taken)
      ensures 0 < k <= |old(pending)| && |old(payload)| + k <= old(declared)
      ensures if old(total).None? then |old(prefix)| + k <= 4 else old(seen) + k <= old(total).value
      ensures match TakeChunk(old(Drained()), old(pending)[..k])
              case Fail(e) => r == Failure(e)
              case More(a) => r == Success(()) && Drained() == a && pending == old(pending)[k..]
              case Done(a) => r == Success(()) && Drained() == a
    {
      hide Observe;
      var remaining := declared - |payload|;
      var wanted := if total.None? then 4 - |prefix| else total.value - seen;
      var amount := remaining;
      if |pending| < amount {
        amount := |pending|;
      }
      if wanted < amount {
        amount := wanted;
      }
      k := amount;
      var chunk := pending[..amount];
      ghost var was := Drained();
      pending := pending[amount..];
      payload := payload + chunk;
      r := ObserveChunk(was, chunk);
      if r.Failure? {
        return;
      }
      if total == Some(seen) {
        CloseRecord(true);
        complete := true;
      } else if |payload| == declared {
        CloseRecord(false);
      }
    }

    method ObserveChunk(ghost was: Acc, chunk: bytes) returns (r: Result<(), CaptureError>)
      requires Drained() == was.(payload := was.payload + chunk)
      modifies this`prefix, this`seen, this`total
      ensures match Observe(was.(payload := was.payload + chunk), chunk)
              case Fail(e) => r == Failure(e)
              case More(a) => r == Success(()) && Drained() == a
              case Done(_) => false
    {
      r := ObserveHandshake(chunk);
    }

    /** `_process`: drain what is waiting, or stop at completion or the first error. */
    method Process() returns (r: Result<(), CaptureError>)
      requires !complete && Shaped(Drained()) && Held(View()) <= limits.maxCapture
      requires Counted(Drained())
      modifies this
      ensures taken == old(taken)
      ensures match Run(old(Drained()), old(pending), 0).0
              case Fail(e) => r == Failure(e)
              case More(a) => r == Success(()) && View() == a && !complete
              case Done(a) => r == Success(()) && Drained() == a && complete
    {
      hide Run, OpenRecord, TakeChunk, Concat;
      ghost var data, start := pending, Drained();
      ghost var i := 0;
      while true
        invariant !complete && i <= |data| && pending == data[i..] && Shaped(Drained())
        invariant Counted(Drained()) && taken == old(taken)
        invariant Held(Drained()) + |pending| <= limits.maxCapture
        invariant Run(start, data, 0) == Run(Drained(), data, i)
        decreases |data| - i
      {
        ghost var a := Drained();
        if header.None? {
          if |pending| < 5 {
            PendingSteps(a, data, i, |data| - i);
            RunEnd(View(), data);
            assert View() == a.(pending := a.pending + data[i..i + (|data| - i)]);
            return Success(());
          }
          HeaderSteps(a, data, i);
          OpenFacts(a, data[i..i + 5]);
          Slices(data, i, 5);
          r := TakeHeader();
          if r.Failure? {
            return;
          }
          i := i + 5;
        } else {
          if pending == [] {
            RunEnd(View(), data);
            return Success(());
          }
          ghost var k;
          r, k := TakePayload();
          Slices(data, i, k);
          ChunkSteps(a, data, i, k);
          ChunkFacts(a, data[i..i + k]);
          if r.Failure? {
            return;
          }
          if complete {
            return;
          }
          i := i + k;
        }
      }
    }

    /** One `feed`: accept what the capture limit allows, process it, and report whether the message is
        complete; the answer is that of the octet machine on the same input. */
    method Feed(data: bytes) returns (r: Result<bool, CaptureError>)
      requires Valid()
      modifies this
      ensures r.Success? ==> Valid() && (r.value <==> complete)
      ensures r.Success? && old(complete) ==> taken == old(taken)
      ensures r.Success? && !old(complete) ==> taken == old(taken) + data[..Run(old(View()), data, 0).1]
      ensures match M.Feed(old(View()), data)
              case Fail(e) => r == Failure(e)
              case More(a) => r == Success(false) && View() == a && !complete
              case Done(a) => r == Success(true) && complete && Concat(records) == a.records
    {
      hide Run, Consistent, Raw, Spells;
      if complete {
        return Success(true);
      }
      ghost var a := View();
      ConsistentFacts(a);
      RunTakes(a, taken, data);
      taken := taken + data[..Run(a, data, 0).1];
      var held := RawBytesHeld();
      var available := limits.maxCapture - held;
      var accepted := if |data| < available then |data| else available;
      ghost var now := data[..accepted];
      ghost var waiting := pending;
      pending := pending + data[..accepted];
      var dropped := accepted != |data|;
      Waiting(a, waiting, now);
      RunKeepsRaw(a, now, 0);
      RunPart(a, data, accepted);
      var processed := Process();
      if processed.Failure? {
        return Failure(processed.error);
      }
      if complete {
        pending := [];
        assert Run(a, data, 0).0.acc.records == Concat(records);
        return Success(true);
      }
      if dropped {
        OverLimit(View(), data, accepted);
        return Failure(SizeLimit);
      }
      assert now == data;
      r := Success(false);
    }

    /** `result`: only a completed capture has one, and it holds the message that the octets taken spell. */
    method Result() returns (r: Wrappers.Result<bytes, CaptureError>)
      requires Valid()
      ensures if complete then r.Success? && r.value == View().records else r == Failure(Incomplete)
      ensures r.Success? ==> Spells(limits, taken, r.value)
    {
      r := if complete then Success(Concat(records)) else Failure(Incomplete);
    }

    method Finish() returns (r: Wrappers.Result<bytes, CaptureError>)
      requires Valid()
      ensures if complete then r.Success? && r.value == View().records else r == Failure(EarlyClose)
      ensures r.Success? ==> Spells(limits, taken, r.value)
    {
      if !complete {
        return Failure(EarlyClose);
      }
      r := Result();
    }
  }

  /** How a peer that sent its octets ends: it closes, falls silent, or the socket breaks. */
  datatype Ending = Closed | Silent | Broken

  /** The answer to a capture that ended this way. */
  function Answer(o: Outcome, ending: Ending): Wrappers.Result<bytes, CaptureError> {
    match o
    case Fail(e) => Failure(e)
    case Done(a) => Success(a.records)
    case More(a) =>
      match ending
      case Closed => if a.complete then Success(a.records) else Failure(EarlyClose)
      case Silent => Failure(Timeout)
      case Broken => Failure(Socket)
  }

  lemma ValidFacts(a: ClientHelloAccumulator)
    requires a.Valid()
    ensures Shaped(a.View()) && a.View().complete == a.complete && a.View().records == Concat(a.records)
  {}

  /** What `a` comes to on the pieces from the `i`-th on. */
  ghost function Rest(a: Acc, pieces: seq<bytes>, i: nat): Outcome
    requires Shaped(a) && i <= |pieces|
  {
    FeedPieces(a, pieces[i..])
  }

  /** `before` and the first `i` pieces. */
  ghost function Front(before: bytes, pieces: seq<bytes>, i: nat): bytes
    requires i <= |pieces|
  {
    before + Concat(pieces[..i])
  }

  /** `now` are the octets `before` and some front of all the pieces. */
  predicate Between(before: bytes, now: bytes, pieces: seq<bytes>) {
    before <= now <= before + Concat(pieces)
  }

  lemma NextPiece(a: Acc, before: bytes, pieces: seq<bytes>, i: nat)
    requires Shaped(a) && i < |pieces|
    ensures var o := M.Feed(a, pieces[i]);
            var now := Front(before, pieces, i) + pieces[i][..Run(a, pieces[i], 0).1];
            && (o.More? ==> Shaped(o.acc) && !a.complete && now == Front(before, pieces, i + 1))
            && Between(before, Front(before, pieces, i), pieces) && Between(before, now, pieces)
            && Rest(a, pieces, i) == if o.More? then Rest(o.acc, pieces, i + 1) else o
  {
    hide Run, Shaped;
    RunShaped(a, pieces[i], 0);
    RunConcat(a, pieces[i], [], 0);
    assert pieces[i..][0] == pieces[i] && pieces[i..][1..] == pieces[i + 1..];
    assert pieces[..i + 1] == pieces[..i] + [pieces[i]];
    assert pieces == pieces[..i + 1] + pieces[i + 1..];
    ConcatSnoc(pieces[..i], pieces[i]);
    ConcatAppend(pieces[..i + 1], pieces[i + 1..]);
  }

  lemma AllPieces(a: Acc, before: bytes, pieces: seq<bytes>)
    requires Shaped(a)
    ensures Rest(a, pieces, 0) == FeedPieces(a, pieces) && Rest(a, pieces, |pieces|) == More(a)
    ensures Front(before, pieces, 0) == before
    ensures Between(before, Front(before, pieces, |pieces|), pieces)
  {
    assert pieces[0..] == pieces == pieces[..|pieces|] && pieces[..0] == [];
  }

  /** The receiving loop: feed what arrives until the message is complete. */
  method Receive(a: ClientHelloAccumulator, pieces: seq<bytes>, ending: Ending)
    returns (r: Wrappers.Result<bytes, CaptureError>)
    requires a.Valid()
    modifies a
    ensures r == Answer(FeedPieces(old(a.View()), pieces), ending)
    ensures r.Success? ==> Spells(a.limits, a.taken, r.value) && Between(old(a.taken), a.taken, pieces)
  {
    hide ClientHelloAccumulator.Valid, ClientHelloAccumulator.View, Run, Spells, FeedPieces, M.Feed, Concat, Shaped;
    hide Rest, Front, Between;
    ghost var start, before := a.View(), a.taken;
    ValidFacts(a);
    AllPieces(start, before, pieces);
    var i := 0;
    while i < |pieces|
      invariant i <= |pieces| && a.Valid() && Shaped(a.View())
      invariant FeedPieces(start, pieces) == Rest(a.View(), pieces, i)
      invariant a.taken == Front(before, pieces, i)
    {
      ValidFacts(a);
      NextPiece(a.View(), before, pieces, i);
      var fed := a.Feed(pieces[i]);
      if fed.Failure? {
        return Failure(fed.error);
      }
      ValidFacts(a);
      if fed.value {
        r := a.Result();
        return;
      }
      i := i + 1;
    }
    AllPieces(a.View(), before, pieces);
    ValidFacts(a);
    match ending {
      case Closed => r := a.Finish();
      case Silent => r := Failure(Timeout);
      case Broken => r := Failure(Socket);
    }
  }

  /** `capture_socket`, for what a peer sends in pieces of any size: the arguments are checked, then the capture of the
      whole text is the answer, however it was cut. */
  method CaptureSocket(timeout: real, recvSize: int, a: ClientHelloAccumulator, pieces: seq<bytes>, ending: Ending)
    returns (r: Wrappers.Result<bytes, CaptureError>)
    requires a.Valid()
    requires forall p <- pieces :: p != []
    modifies a
    ensures timeout <= 0.0 || recvSize < 1 ==> r == Failure(Argument)
    ensures timeout > 0.0 && recvSize >= 1 ==> r == Answer(FeedPieces(old(a.View()), pieces), ending)
    ensures timeout > 0.0 && recvSize >= 1 && !old(a.complete) ==>
              r == Answer(M.Feed(old(a.View()), Concat(pieces)), ending)
    ensures r.Success? ==> Spells(a.limits, a.taken, r.value) && Between(old(a.taken), a.taken, pieces)
  {
    hide Spells, FeedPieces, M.Feed, Between, Answer;
    if timeout <= 0.0 || recvSize < 1 {
      return Failure(Argument);
    }
    if !a.complete {
      FragmentationIndependence(a.View(), pieces);
    }
    r := Receive(a, pieces, ending);
  }

  /** `__init__`: a limit below five is refused. */
  method NewAccumulator(maxCapture: int, maxRecord: int, maxHello: int) returns (r: Option<ClientHelloAccumulator>)
    ensures r.Some? <==> maxCapture >= 5 && maxRecord >= 5 && maxHello >= 5
    ensures r.Some? ==>
              fresh(r.value) && r.value.Valid() && r.value.View() == NewAcc(CaptureLimits(maxCapture, maxRecord, maxHello))
  {
    if maxCapture < 5 || maxRecord < 5 || maxHello < 5 {
      return None;
    }
    var a := new ClientHelloAccumulator(CaptureLimits(maxCapture, maxRecord, maxHello));
    return Some(a);
  }

  /** What a run adds to the octets taken so far. */
  lemma RunTakes(a: Acc, taken: bytes, data: bytes)
    requires Consistent(a) && Raw(a) == taken
    ensures Shaped(a)
    ensures var (o, n) := Run(a, data, 0);
            && (o.More? ==> Consistent(o.acc) && Raw(o.acc) == taken + data && n == |data|)
            && (o.Done? ==> Spells(a.limits, taken + data[..n], o.acc.records))
  {
    hide Run, Consistent, Raw, Captured;
    ConsistentIsShaped(a);
    var all := taken + data;
    assert all[..|taken|] == taken;
    RunKeepsConsistent(a, all, |taken|);
    RunShift(a, taken, data, 0);
    RunConcat(a, data, [], 0);
    var n := Run(a, data, 0).1;
    assert all[..|taken| + n] == taken + data[..n];
  }

  lemma ConsistentFacts(a: Acc)
    requires Consistent(a)
    ensures Shaped(a) && Shaped(a.(pending := [])) && Counted(a) && Held(a) <= a.limits.maxCapture && !a.complete
  {
    hide P.ParseRecords;
  }

  /** Header octets left over from the last call come first. */
  lemma Waiting(a: Acc, waiting: bytes, taken: bytes)
    requires Shaped(a) && Shaped(a.(pending := [])) && waiting == a.pending && Held(a) <= a.limits.maxCapture
    ensures Run(a.(pending := []), waiting + taken, 0).0 == Run(a, taken, 0).0
  {
    hide Run;
    var b := a.(pending := []);
    if a.header.None? {
      var whole := waiting + taken;
      PendingSteps(b, whole, 0, |waiting|);
      assert b.pending + whole[0..|waiting|] == a.pending;
      RunShift(a, waiting, taken, 0);
    } else {
      assert waiting + taken == taken;
      assert b == a;
    }
  }

  lemma RunPart(a: Acc, data: bytes, n: nat)
    requires Shaped(a) && n <= |data|
    ensures Run(a, data[..n], 0).0.More? ==> Shaped(Run(a, data[..n], 0).0.acc)
    ensures Run(a, data, 0) ==
            var first := Run(a, data[..n], 0); if first.0.More? then Run(first.0.acc, data, n) else first
  {
    hide Run;
    assert data == data[..n] + data[n..];
    RunConcat(a, data[..n], data[n..], 0);
  }

  /** The first octet past the capture limit is an error. */
  lemma OverLimit(a: Acc, data: bytes, n: nat)
    requires Shaped(a) && n < |data| && Held(a) >= a.limits.maxCapture
    ensures Run(a, data, n).0 == Fail(SizeLimit)
  {}

  lemma RunEnd(a: Acc, data: bytes)
    requires Shaped(a)
    ensures Run(a, data, |data|) == (More(a), |data|)
  {}

  lemma OpenFacts(a: Acc, header: bytes)
    requires |header| == 5 && a.header.None?
    ensures var o := OpenRecord(a, header);
            !o.Done? && (o.More? ==> o.acc.total == a.total && o.acc.seen == a.seen && o.acc.prefix == a.prefix &&
                                     o.acc.complete == a.complete && Held(o.acc) == Held(a.(pending := [])) + 5)
  {}

  lemma ChunkFacts(a: Acc, chunk: bytes)
    requires Shaped(a) && a.header.Some? && 0 < |chunk| && |a.payload| + |chunk| <= a.declared && !a.complete
    requires Counted(a)
    requires if a.total.None? then |a.prefix| + |chunk| <= 4 else a.seen + |chunk| <= a.total.value
    ensures var o := TakeChunk(a, chunk);
            && (o.Done? ==> o.acc.complete)
            && (o.More? ==> !o.acc.complete && Held(o.acc) == Held(a) + |chunk| && Counted(o.acc))
  {}
}
