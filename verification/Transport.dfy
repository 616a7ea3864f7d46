/** Streams and connector as the client sees them: any operation may fail, writes and reads may be
    short, and a read or write may even report a count its buffer cannot hold. */
module Transport {
  import opened Wrappers
  import opened Bytes

  datatype Scheme = Http | Https
  datatype VerificationMode = Default | InsecureTestOnly
  datatype Origin = Origin(scheme: Scheme, host: string, port: nat, profile: string, verification: VerificationMode)

  datatype TransportError = InvalidArgument | BadState | Io | Timeout | Tls | Certificate | Unsupported

  /** `incoming` is every octet the peer will ever send, `position` how many were read,
      `written` every octet accepted for sending. */
  datatype Stream = Stream(id: nat, openedFor: Origin, incoming: bytes, position: nat, written: bytes) {
    predicate Valid() {
      position <= |incoming| < USIZE
    }

    predicate SameAs(other: Stream) {
      id == other.id && openedFor == other.openedFor && incoming == other.incoming
    }
  }

  /** A read reports a count; a truthful one delivers that many of the next octets. Zero is end of input. */
  method Read(s: Stream, capacity: nat) returns (r: Result<(nat, bytes), TransportError>, after: Stream)
    requires s.Valid()
    ensures after.SameAs(s) && after.written == s.written && after.Valid() && s.position <= after.position
    ensures r.Success? && r.value.0 <= capacity ==>
              && after.position == s.position + r.value.0
              && r.value.1 == s.incoming[s.position..after.position]
  {
    var fails: bool := *;
    var choice: int := *;
    var amount: nat := if choice < 0 then 0 else choice;
    after := s;
    if fails {
      var e: TransportError := *;
      return Failure(e), after;
    }
    if amount > |s.incoming| - s.position {
      amount := if amount > capacity then amount else |s.incoming| - s.position;
    }
    if amount > capacity {
      return Success((amount, [])), after;
    }
    after := s.(position := s.position + amount);
    r := Success((amount, s.incoming[s.position..after.position]));
  }

  /** A write reports how much it took; what a failing or overreporting write took is unknown. */
  method Write(s: Stream, source: bytes) returns (r: Result<nat, TransportError>, after: Stream)
    ensures after.SameAs(s) && after.position == s.position
    ensures r.Success? && r.value <= |source| ==> after.written == s.written + source[..r.value]
  {
    var fails: bool := *;
    var choice: int := *;
    var amount: nat := if choice < 0 then 0 else choice;
    if fails || amount > |source| {
      var w: bytes := *;
      var e: TransportError := *;
      r := if fails then Failure(e) else Success(amount);
      after := s.(written := w);
    } else {
      r := Success(amount);
      after := s.(written := s.written + source[..amount]);
    }
  }

  class Connector {
    var connects: nat

    constructor ()
      ensures connects == 0
    {
      connects := 0;
    }

    /** A successful connect opens a fresh stream for exactly this target. */
    method Connect(target: Origin) returns (r: Result<Stream, TransportError>)
      modifies this
      ensures r.Success? ==>
                && connects == old(connects) + 1
                && r.value.id == old(connects) && r.value.openedFor == target
                && r.value.position == 0 && r.value.written == [] && r.value.Valid()
      ensures r.Failure? ==> connects == old(connects)
    {
      var fails: bool := *;
      var incoming: bytes := *;
      if fails || |incoming| >= USIZE {
        var e: TransportError := *;
        return Failure(e);
      }
      r := Success(Stream(connects, target, incoming, 0, []));
      connects := connects + 1;
    }
  }
}
