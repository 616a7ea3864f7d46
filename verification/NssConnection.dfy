/** Ownership inside one connect call: the descriptor it opens and the runtime reference it takes. */
module NssConnection {
  import opened Wrappers
  import opened NssRuntime

  /** The descriptors that are open on the foreign side. Closing one twice is an error there, so `Close` forbids it. */
  class Descriptors {
    var open: set<nat>
    var next: nat

    ghost predicate Valid()
      reads this
    {
      forall d <- open :: d < next
    }

    constructor ()
      ensures Valid() && open == {}
    {
      open, next := {}, 0;
    }

    method Open() returns (d: Option<nat>)
      requires Valid()
      modifies this
      ensures Valid()
      ensures d.Some? ==> d.value !in old(open) && open == old(open) + {d.value}
      ensures d.None? ==> open == old(open)
    {
      var works: bool := *;
      if !works {
        return None;
      }
      d := Some(next);
      open, next := open + {next}, next + 1;
    }

    method Close(d: nat)
      requires Valid() && d in open
      modifies `open
      ensures Valid() && open == old(open) - {d}
    {
      open := open - {d};
    }
  }

  /** A connection object; its category is OK until an error is recorded. */
  datatype Connection = Connection(fd: Option<nat>, category: Outcome)

  /** Any result of a foreign call: it works, or fails with one of the categories the code maps errors to. */
  method Attempt() returns (r: Outcome)
  {
    r := *;
  }

  /** The stages between the allocation and the success or cleanup exit. A failing stage records its category and
      leaves at most one descriptor open, in the connection. */
  method Establish(descriptors: Descriptors) returns (r: Outcome, connection: Connection)
    requires descriptors.Valid()
    modifies descriptors
    ensures descriptors.Valid() && connection.category == r
    ensures r == Ok ==> connection.fd.Some?
    ensures descriptors.open == old(descriptors.open) + (if connection.fd.Some? then {connection.fd.value} else {})
    ensures connection.fd.Some? ==> connection.fd.value !in old(descriptors.open)
  {
    connection := Connection(None, Ok);
    var socket := descriptors.Open();
    if socket.None? {
      return IoFailure, connection.(category := IoFailure);
    }
    var transport := socket.value;
    var importing := Attempt();
    var unblocking := Attempt();
    var probing := Attempt();
    if importing != Ok || unblocking != Ok || probing != Ok {
      descriptors.Close(transport);
      return IoFailure, connection.(category := IoFailure);
    }
    var wrapping := Attempt();
    if wrapping != Ok {
      descriptors.Close(transport);
      return TlsFailure, connection.(category := TlsFailure);
    }
    connection := connection.(fd := Some(transport));
    var checking := Attempt();
    var naming := Attempt();
    if checking != Ok || naming != Ok {
      return TlsFailure, connection.(category := TlsFailure);
    }
    var configuring := Attempt();
    if configuring != Ok {
      return configuring, connection.(category := configuring);
    }
    var hooking := Attempt();
    var resetting := Attempt();
    if hooking != Ok || resetting != Ok {
      return TlsFailure, connection.(category := TlsFailure);
    }
    r := Attempt();
    connection := connection.(category := r);
  }

  /** `foxreq_nss_connect`; `accepted` is what its argument checks decide. On every path the descriptor is closed exactly
      once or owned by a successful connection, and a connection comes back, holding one runtime reference, unless the
      arguments were refused or memory ran out; a failed connection is returned too, without a descriptor. */
  method Connect(descriptors: Descriptors, accepted: bool, references: nat)
    returns (r: Outcome, out: Option<Connection>, after: nat)
    requires descriptors.Valid()
    modifies descriptors
    ensures descriptors.Valid()
    ensures out.Some? ==> out.value.category == r && (out.value.fd.Some? <==> r == Ok)
    ensures !accepted ==> out.None? && r == InvalidArgument
    ensures accepted && out.None? ==> r == OutOfMemory
    ensures after == references + (if out.Some? then 1 else 0)
    ensures descriptors.open == old(descriptors.open) + (if r == Ok then {out.value.fd.value} else {})
    ensures r == Ok ==> out.value.fd.value !in old(descriptors.open)
  {
    out, after := None, references;
    if !accepted {
      return InvalidArgument, None, references;
    }
    var exhausted: bool := *;
    if exhausted {
      return OutOfMemory, None, references;
    }
    var connection;
    r, connection := Establish(descriptors);
    if r == Ok {
      return Ok, Some(connection), references + 1;
    }
    if connection.fd.Some? {
      descriptors.Close(connection.fd.value);
      connection := connection.(fd := None);
    }
    if connection.category != Ok {
      out, after := Some(connection), references + 1;
    }
  }

  /** `foxreq_nss_connection_free` closes the descriptor, if there is one, and gives the reference back. */
  method FreeConnection(descriptors: Descriptors, connection: Connection, references: nat) returns (after: nat)
    requires descriptors.Valid() && references > 0
    requires connection.fd.Some? ==> connection.fd.value in descriptors.open
    modifies descriptors
    ensures descriptors.Valid() && after == references - 1
    ensures descriptors.open == old(descriptors.open) - (if connection.fd.Some? then {connection.fd.value} else {})
  {
    if connection.fd.Some? {
      descriptors.Close(connection.fd.value);
    }
    after := references - 1;
  }

  /** A connection that is opened and freed leaves no descriptor and no reference behind, whatever fails. */
  method ConnectThenFree(descriptors: Descriptors, accepted: bool, references: nat) returns (after: nat)
    requires descriptors.Valid()
    modifies descriptors
    ensures descriptors.Valid() && descriptors.open == old(descriptors.open) && after == references
  {
    var r, out;
    r, out, after := Connect(descriptors, accepted, references);
    if out.Some? {
      after := FreeConnection(descriptors, out.value, after);
    }
  }
}
