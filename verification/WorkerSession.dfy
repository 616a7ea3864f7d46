/** The parent of one isolated profile worker and its children, frame by frame. The parent is serialised by its lock;
    children run, answer and die on their own, including after the parent has given them up. A call may also end by an
    exception that the parent does not handle, which leaves process and pipes as they are. */
module WorkerSession {
  import opened Wrappers
  import opened Bytes

  /** `Torn` is the front of a frame whose write was interrupted, of request `about` if it was one; `Garbage` are the
      octets left over when a torn frame was completed with those of the next. */
  datatype Message = Init | Request(id: nat, payload: bytes) | Close | Torn(about: Option<nat>) | Garbage

  datatype Reply =
    | Ready
    | Response(id: nat, data: bytes)
    | NativeError(about: Option<nat>, data: bytes)
    | WorkerFailed(id: nat)
    | Closed

  datatype Phase = Booting | Serving | Handling(id: nat, payload: bytes) | Exited(code: int)

  /** A child process and its two pipes; frames still in a pipe have not been read. */
  datatype Child = Child(phase: Phase, inbox: seq<Message>, outbox: seq<Reply>)

  /** Where the parent is inside a call that holds its lock. */
  datatype Parent = Resting | Starting(payload: bytes) | Awaiting(id: nat, payload: bytes) | Closing

  /** One answer of a child, or one result handed to a caller. */
  datatype Exchange = Exchange(pid: nat, id: nat, payload: bytes, reply: Reply)

  /** What a request id was used for; the payload only if the whole frame was written. */
  datatype Ticket = Ticket(pid: nat, payload: Option<bytes>)

  /** `process` is the parent's handle, `strays` the reader threads that interrupted calls left behind on its pipe;
      `tickets`, `handled` and `returned` record what was asked, what the children answered, and what callers received
      as a response or as a remote native error. */
  datatype System = System(
    process: Option<nat>, closed: bool, nextId: nat, parent: Parent, strays: nat, children: map<nat, Child>,
    tickets: map<nat, Ticket>, handled: seq<Exchange>, returned: seq<Exchange>)

  /** How writing a frame ends: in the pipe, with an error that the parent handles, or by an exception that escapes. */
  datatype Write = Whole | Refused | Interrupted(partial: bool)

  datatype Event =
    // The parent.
    | RefuseClosed                                // a request after close
    | RefuseStart                                 // no process, and none can be started
    | Spawn(pid: nat, payload: bytes, how: Write) // a fresh process and its init frame
    | FindExited                                  // the request finds that the process has exited
    | Send(payload: bytes, how: Write)            // the request frame
    | TakeReady(how: Write)                       // the ready frame arrives and the request frame follows
    | TakeReply                                   // a frame arrives while a response is awaited
    | GiveUp                                      // a timeout, an unreadable frame, or the wrong frame at start or close
    | Escape(reader: bool)                        // an unhandled exception, maybe with the reader thread running on
    | StrayRead                                   // a reader thread nobody waits for takes a frame
    | CloseIdle                                   // close without a usable process
    | SendClose(how: Write)
    | TakeClosed
    // A child.
    | Boot(pid: nat, works: bool, data: bytes)
    | Receive(pid: nat, other: Option<bytes>)
    | Answer(pid: nat, reply: Reply)
    | Die(pid: nat, code: int)

  ghost predicate Initial(s: System) {
    s == System(None, false, 1, Resting, 0, map[], map[], [], [])
  }

  /** `_abort_process`: the handle is dropped first; whether the process really stops does not matter here. */
  function Aborted(s: System): System {
    s.(process := None, parent := Resting, strays := 0)
  }

  predicate HasProcess(s: System) {
    s.process.Some? && s.process.value in s.children
  }

  function Current(s: System): Child
    requires HasProcess(s)
  {
    s.children[s.process.value]
  }

  function Change(s: System, pid: nat, c: Child): System {
    s.(children := s.children[pid := c])
  }

  function Pop(s: System): System
    requires HasProcess(s) && Current(s).outbox != []
  {
    Change(s, s.process.value, Current(s).(outbox := Current(s).outbox[1..]))
  }

  /** What a write leaves in the pipe. */
  function Written(m: Message, how: Write): seq<Message> {
    match how
    case Whole => [m]
    case Refused => []
    case Interrupted(partial) => if partial then [Torn(if m.Request? then Some(m.id) else None)] else []
  }

  function Push(s: System, m: Message, how: Write): System
    requires HasProcess(s)
  {
    Change(s, s.process.value, Current(s).(inbox := Current(s).inbox + Written(m, how)))
  }

  /** The request takes the next id. Only a handled error aborts the process. */
  function Sent(s: System, payload: bytes, how: Write): System
    requires HasProcess(s)
  {
    var id := s.nextId;
    var ticket := Ticket(s.process.value, if how.Whole? then Some(payload) else None);
    var t := Push(s, Request(id, payload), how).(nextId := id + 1, tickets := s.tickets[id := ticket]);
    match how
    case Whole => t.(parent := Awaiting(id, payload))
    case Refused => Aborted(t)
    case Interrupted(_) => t.(parent := Resting)
  }

  function IdOf(r: Reply): Option<nat> {
    match r
    case Response(id, _) => Some(id)
    case NativeError(about, _) => about
    case WorkerFailed(id) => Some(id)
    case _ => None
  }

  /** The frames that answer request `id` with something to hand to the caller. */
  predicate Answers(r: Reply, id: nat) {
    IdOf(r) == Some(id) && !r.WorkerFailed?
  }

  /** `_decode_response`: the id is checked first, then the kind; anything else aborts. */
  function Decoded(s: System, id: nat, payload: bytes, r: Reply): System
    requires s.process.Some?
  {
    if Answers(r, id) then s.(parent := Resting, returned := s.returned + [Exchange(s.process.value, id, payload, r)])
    else Aborted(s)
  }

  ghost predicate ParentNext(s: System, e: Event, t: System) {
    match e
    case RefuseClosed => s.parent.Resting? && s.closed && t == s
    case RefuseStart => s.parent.Resting? && !s.closed && s.process.None? && t == s
    case Spawn(pid, payload, how) =>
      && s.parent.Resting? && !s.closed && s.process.None? && pid !in s.children
      && var born := Change(s, pid, Child(Booting, Written(Init, how), [])).(process := Some(pid), strays := 0);
         t == if how.Whole? then born.(parent := Starting(payload)) else if how.Refused? then Aborted(born) else born
    case FindExited =>
      && s.parent.Resting? && !s.closed && HasProcess(s) && Current(s).phase.Exited?
      && t == if Current(s).phase.code == 0 then Aborted(s) else s
    case Send(payload, how) =>
      && s.parent.Resting? && !s.closed && HasProcess(s) && !Current(s).phase.Exited?
      && t == Sent(s, payload, how)
    case TakeReady(how) =>
      && s.parent.Starting? && HasProcess(s) && Current(s).outbox != [] && Current(s).outbox[0] == Ready
      && t == Sent(Pop(s), s.parent.payload, how)
    case TakeReply =>
      && s.parent.Awaiting? && HasProcess(s) && Current(s).outbox != []
      && t == Decoded(Pop(s), s.parent.id, s.parent.payload, Current(s).outbox[0])
    case GiveUp => !s.parent.Resting? && t == Aborted(s)
    case Escape(reader) => !s.parent.Resting? && t == s.(parent := Resting, strays := s.strays + if reader then 1 else 0)
    case StrayRead => s.strays > 0 && HasProcess(s) && Current(s).outbox != [] && t == Pop(s).(strays := s.strays - 1)
    case CloseIdle =>
      && s.parent.Resting? && !s.closed && (HasProcess(s) ==> Current(s).phase.Exited?)
      && t == Aborted(s).(closed := true)
    case SendClose(how) =>
      && s.parent.Resting? && !s.closed && HasProcess(s) && !Current(s).phase.Exited?
      && var u := Push(s, Close, how).(closed := true);
         t == if how.Whole? then u.(parent := Closing) else if how.Refused? then Aborted(u) else u
    case TakeClosed =>
      && s.parent.Closing? && HasProcess(s) && Current(s).outbox != [] && Current(s).outbox[0] == Closed
      && t == Aborted(Pop(s))
    case _ => false
  }

  /** A torn frame blocks the child until more octets follow; it then takes what it needs from the next frame, and what
      is left of that frame no longer reads as one. Every refusal of a frame is a death of the child. */
  ghost predicate ChildNext(s: System, e: Event, t: System) {
    match e
    case Boot(pid, works, data) =>
      && pid in s.children && s.children[pid].phase.Booting?
      && var c := s.children[pid];
         && (Head(c, Init) || (works && TornHead(c)))
         && t == Change(s, pid, if works then Child(Serving, Remaining(c), c.outbox + [Ready])
                                else Child(Exited(1), Remaining(c), c.outbox + [NativeError(None, data)]))
    case Receive(pid, other) =>
      && pid in s.children && s.children[pid].phase.Serving?
      && var c := s.children[pid];
         && c.inbox != []
         && (match c.inbox[0]
            case Request(id, payload) => t == Change(s, pid, c.(phase := Handling(id, payload), inbox := Remaining(c)))
            case Close =>
              t == Change(s, pid, if other.None? then Child(Exited(0), Remaining(c), c.outbox + [Closed])
                                  else Child(Exited(1), Remaining(c), c.outbox + [NativeError(None, other.value)]))
            case Torn(about) =>
              && TornHead(c) && about.Some? && other.Some?
              && t == Change(s, pid, c.(phase := Handling(about.value, other.value), inbox := Remaining(c)))
            case _ => false)
    case Answer(pid, reply) =>
      && pid in s.children && s.children[pid].phase.Handling?
      && var c := s.children[pid];
         && IdOf(reply) == Some(c.phase.id)
         && t == Change(s, pid, c.(phase := if reply.WorkerFailed? then Exited(3) else Serving, outbox := c.outbox + [reply]))
                 .(handled := s.handled + [Exchange(pid, c.phase.id, c.phase.payload, reply)])
    case Die(pid, code) =>
      && pid in s.children && !s.children[pid].phase.Exited?
      && t == Change(s, pid, s.children[pid].(phase := Exited(code)))
    case _ => false
  }

  predicate Head(c: Child, m: Message) {
    c.inbox != [] && c.inbox[0] == m
  }

  predicate TornHead(c: Child) {
    |c.inbox| > 1 && c.inbox[0].Torn?
  }

  /** The inbox after its first frame was read. */
  function Remaining(c: Child): seq<Message>
    requires c.inbox != []
  {
    if TornHead(c) then [Garbage] + c.inbox[2..] else c.inbox[1..]
  }

  ghost predicate Next(s: System, e: Event, t: System) {
    ParentNext(s, e, t) || ChildNext(s, e, t)
  }

  /** The steps in which an exception leaves the parent that it does not handle. */
  predicate Escapes(e: Event) {
    e.Escape? || ((e.Spawn? || e.Send? || e.TakeReady? || e.SendClose?) && e.how.Interrupted?)
  }

  // ----- what every run keeps -----

  function MessageId(m: Message): Option<nat> {
    match m
    case Request(id, _) => Some(id)
    case Torn(about) => about
    case _ => None
  }

  /** `id` was given to a request for `pid`, with this payload if its frame was written whole. */
  predicate Issued(tickets: map<nat, Ticket>, id: nat, pid: nat, payload: bytes) {
    id in tickets && tickets[id].pid == pid && (tickets[id].payload.Some? ==> tickets[id].payload.value == payload)
  }

  predicate Carried(tickets: map<nat, Ticket>, pid: nat, m: Message) {
    MessageId(m).Some? ==>
      && MessageId(m).value in tickets && tickets[MessageId(m).value].pid == pid
      && tickets[MessageId(m).value].payload == (if m.Request? then Some(m.payload) else None)
  }

  /** Request `n` came before everything the child still has in hand or in its pipe. */
  predicate Past(c: Child, n: nat) {
    && (c.phase.Handling? ==> n < c.phase.id)
    && forall m <- c.inbox :: MessageId(m).Some? ==> n < MessageId(m).value
  }

  /** A child reads requests in the order of their ids. */
  predicate InOrder(c: Child) {
    && (forall j, k :: 0 <= j < k < |c.inbox| && MessageId(c.inbox[j]).Some? && MessageId(c.inbox[k]).Some? ==>
                         MessageId(c.inbox[j]).value < MessageId(c.inbox[k]).value)
    && (c.phase.Handling? ==> forall m <- c.inbox :: MessageId(m).Some? ==> c.phase.id < MessageId(m).value)
  }

  ghost predicate WasHandled(handled: seq<Exchange>, pid: nat, r: Reply) {
    IdOf(r).Some? ==> exists payload :: Exchange(pid, IdOf(r).value, payload, r) in handled
  }

  ghost predicate ChildSound(pid: nat, c: Child, tickets: map<nat, Ticket>, handled: seq<Exchange>) {
    && InOrder(c)
    && (forall m <- c.inbox :: Carried(tickets, pid, m))
    && (c.phase.Handling? ==> Issued(tickets, c.phase.id, pid, c.phase.payload))
    && (forall r <- c.outbox :: WasHandled(handled, pid, r))
    && (forall x <- handled :: x.pid == pid ==> Past(c, x.id))
  }

  /** No id is used twice, and no request is answered twice. */
  ghost predicate Recorded(nextId: nat, tickets: map<nat, Ticket>, handled: seq<Exchange>) {
    && (forall id <- tickets :: id < nextId)
    && (forall x <- handled :: Issued(tickets, x.id, x.pid, x.payload))
    && (forall i, j :: 0 <= i < j < |handled| ==> handled[i].id != handled[j].id)
  }

  /** Every result a caller got is what a child answered to that very request. */
  ghost predicate Genuine(returned: seq<Exchange>, handled: seq<Exchange>) {
    forall x <- returned :: x in handled && Answers(x.reply, x.id)
  }

  ghost predicate AllSound(children: map<nat, Child>, tickets: map<nat, Ticket>, handled: seq<Exchange>) {
    forall pid <- children :: ChildSound(pid, children[pid], tickets, handled)
  }

  ghost predicate Sound(s: System) {
    AllSound(s.children, s.tickets, s.handled)
  }

  /** The parent's own view: it holds an existing process, and awaits a request it wrote whole. */
  ghost predicate Placed(s: System) {
    && (s.process.Some? ==> s.process.value in s.children)
    && (!s.parent.Resting? ==> s.process.Some?)
    && (s.parent.Awaiting? ==>
          s.parent.id in s.tickets && s.tickets[s.parent.id] == Ticket(s.process.value, Some(s.parent.payload)))
  }

  ghost predicate Invariant(s: System) {
    && Placed(s) && Sound(s) && Recorded(s.nextId, s.tickets, s.handled) && Genuine(s.returned, s.handled)
  }

  // ----- what runs without an escaping exception keep -----

  /** Both pipes are on a frame boundary with nothing in them, and the child waits for a request or is gone. */
  predicate Quiet(c: Child) {
    c.inbox == [] && c.outbox == [] && (c.phase.Serving? || c.phase.Exited?)
  }

  predicate Greeting(c: Child) {
    || (c.inbox == [Init] && c.outbox == [] && (c.phase.Booting? || c.phase.Exited?))
    || (c.inbox == [] && c.outbox == [Ready] && (c.phase.Serving? || c.phase.Exited?))
    || (c.inbox == [] && c.phase.Exited? && |c.outbox| == 1 && c.outbox[0].NativeError?)
  }

  /** The one request that is out: in the child's pipe, in its hands, answered, or lost with it. */
  predicate Exchanging(c: Child, id: nat, payload: bytes) {
    || (c.inbox == [Request(id, payload)] && c.outbox == [] && (c.phase.Serving? || c.phase.Exited?))
    || (c.inbox == [] && c.outbox == [] && (c.phase == Handling(id, payload) || c.phase.Exited?))
    || (c.inbox == [] && (c.phase.Serving? || c.phase.Exited?) && |c.outbox| == 1 && IdOf(c.outbox[0]) == Some(id))
  }

  /** What the current child may be doing while the parent is where it is. */
  predicate InStep(s: System) {
    && s.strays == 0
    && (s.process.Some? ==>
          && s.process.value in s.children
          && match s.parent
             case Resting => Quiet(Current(s))
             case Starting(_) => Greeting(Current(s))
             case Awaiting(id, payload) => Exchanging(Current(s), id, payload)
             case Closing => true)
  }

  // ----- steps -----

  lemma ChangeKeeps(s: System, pid: nat, c: Child)
    requires Sound(s) && ChildSound(pid, c, s.tickets, s.handled)
    ensures Sound(Change(s, pid, c))
  {
    hide ChildSound;
  }

  lemma SoundWithTicket(pid: nat, c: Child, tickets: map<nat, Ticket>, handled: seq<Exchange>, id: nat, t: Ticket)
    requires ChildSound(pid, c, tickets, handled) && id !in tickets
    ensures ChildSound(pid, c, tickets[id := t], handled)
  {
    hide Past, InOrder, WasHandled;
  }

  /** A new ticket disturbs nothing. */
  lemma TicketKeeps(s: System, t: Ticket)
    requires Sound(s) && Recorded(s.nextId, s.tickets, s.handled)
    ensures var u := s.(nextId := s.nextId + 1, tickets := s.tickets[s.nextId := t]);
            Sound(u) && Recorded(u.nextId, u.tickets, u.handled)
  {
    hide ChildSound;
    forall pid <- s.children
      ensures ChildSound(pid, s.children[pid], s.tickets[s.nextId := t], s.handled)
    {
      SoundWithTicket(pid, s.children[pid], s.tickets, s.handled, s.nextId, t);
    }
  }

  /** The newest request goes behind everything its child still has. */
  lemma PushSound(pid: nat, c: Child, tickets: map<nat, Ticket>, handled: seq<Exchange>, id: nat, t: Ticket, m: Message)
    requires ChildSound(pid, c, tickets, handled) && (forall i <- tickets :: i < id)
    requires forall x <- handled :: x.id in tickets
    requires MessageId(m) == Some(id) && Carried(tickets[id := t], pid, m)
    ensures ChildSound(pid, c.(inbox := c.inbox + [m]), tickets[id := t], handled)
  {
    SoundWithTicket(pid, c, tickets, handled, id, t);
    var d := c.(inbox := c.inbox + [m]);
    forall k | 0 <= k < |c.inbox| && MessageId(c.inbox[k]).Some?
      ensures MessageId(c.inbox[k]).value < id
    {
      assert Carried(tickets, pid, c.inbox[k]);
    }
    hide WasHandled, Carried;
    assert InOrder(d);
    forall x <- handled | x.pid == pid
      ensures Past(d, x.id)
    {
      assert Past(c, x.id);
    }
  }

  /** A frame without an id changes nothing about the others. */
  lemma PlainSound(pid: nat, c: Child, tickets: map<nat, Ticket>, handled: seq<Exchange>, ms: seq<Message>)
    requires ChildSound(pid, c, tickets, handled) && forall m <- ms :: MessageId(m).None?
    ensures ChildSound(pid, c.(inbox := c.inbox + ms), tickets, handled)
  {
    hide WasHandled;
    forall x <- handled | x.pid == pid
      ensures Past(c.(inbox := c.inbox + ms), x.id)
    {
      assert Past(c, x.id);
    }
  }

  lemma ReadInOrder(c: Child, d: Child)
    requires InOrder(c) && !c.phase.Handling? && c.inbox != [] && d.inbox == Remaining(c)
    requires d.phase.Handling? ==> MessageId(c.inbox[0]) == Some(d.phase.id)
    ensures InOrder(d) && forall n :: Past(c, n) ==> Past(d, n)
    ensures forall m <- d.inbox :: m == Garbage || m in c.inbox
  {
    var n := if TornHead(c) then 1 else 0;
    assert forall k :: n <= k < |d.inbox| ==> d.inbox[k] == c.inbox[k + 1];
    assert n == 1 ==> d.inbox[0] == Garbage;
  }

  /** A child that has read its next frame. */
  lemma ReadSound(pid: nat, c: Child, d: Child, tickets: map<nat, Ticket>, handled: seq<Exchange>)
    requires ChildSound(pid, c, tickets, handled) && !c.phase.Handling? && c.inbox != [] && d.inbox == Remaining(c)
    requires d.phase.Handling? ==>
               MessageId(c.inbox[0]) == Some(d.phase.id) && Issued(tickets, d.phase.id, pid, d.phase.payload)
    requires forall r <- d.outbox :: r in c.outbox || IdOf(r).None?
    ensures ChildSound(pid, d, tickets, handled)
  {
    hide WasHandled, InOrder, Past, Remaining, Issued;
    ReadInOrder(c, d);
    forall r <- d.outbox
      ensures WasHandled(handled, pid, r)
    {
      if r !in c.outbox {
        NothingHandled(handled, pid, r);
      }
    }
  }

  lemma NothingHandled(handled: seq<Exchange>, pid: nat, r: Reply)
    requires IdOf(r).None?
    ensures WasHandled(handled, pid, r)
  {}

  /** A child that only lost its pending work or an unread reply. */
  lemma LessSound(pid: nat, c: Child, d: Child, tickets: map<nat, Ticket>, handled: seq<Exchange>)
    requires ChildSound(pid, c, tickets, handled) && d.inbox == c.inbox && (d.phase == c.phase || !d.phase.Handling?)
    requires forall r <- d.outbox :: r in c.outbox
    ensures ChildSound(pid, d, tickets, handled)
  {
    hide WasHandled;
    forall x <- handled | x.pid == pid
      ensures Past(d, x.id)
    {
      assert Past(c, x.id);
    }
  }

  lemma SentKeeps(s: System, payload: bytes, how: Write)
    requires Invariant(s.(parent := Resting)) && HasProcess(s)
    ensures Invariant(Sent(s, payload, how))
  {
    var pid, c, id := s.process.value, Current(s), s.nextId;
    var ticket := Ticket(pid, if how.Whole? then Some(payload) else None);
    var u := s.(nextId := id + 1, tickets := s.tickets[id := ticket]);
    hide ChildSound, Genuine;
    TicketKeeps(s, ticket);
    var d := c.(inbox := c.inbox + Written(Request(id, payload), how));
    assert ChildSound(pid, c, s.tickets, s.handled);
    if how.Refused? || (how.Interrupted? && !how.partial) {
      assert d == c;
      ChangeKeeps(u, pid, d);
    } else {
      PushSound(pid, c, s.tickets, s.handled, id, ticket, Written(Request(id, payload), how)[0]);
      ChangeKeeps(u, pid, d);
    }
  }

  lemma ParentStepKeeps(s: System, e: Event, t: System)
    requires Invariant(s) && ParentNext(s, e, t)
    ensures Invariant(t)
  {
    hide AllSound, Recorded, Genuine, Sent, Decoded;
    match e
    case Spawn(pid, payload, how) => SpawnKeeps(s, pid, Written(Init, how));
    case Send(payload, how) => SentKeeps(s, payload, how);
    case TakeReady(how) => ReadyKeeps(s, how);
    case TakeReply => ReplyKeeps(s);
    case StrayRead => PopKeeps(s);
    case TakeClosed => PopKeeps(s);
    case SendClose(how) => CloseKeeps(s, how);
    case _ =>
  }

  lemma ReadyKeeps(s: System, how: Write)
    requires Invariant(s) && s.parent.Starting? && HasProcess(s) && Current(s).outbox != []
    ensures Invariant(Sent(Pop(s), s.parent.payload, how))
  {
    hide AllSound, Recorded, Genuine;
    PopKeeps(s);
    hide Sent;
    SentKeeps(Pop(s), s.parent.payload, how);
  }

  lemma SpawnKeeps(s: System, pid: nat, inbox: seq<Message>)
    requires Sound(s) && Recorded(s.nextId, s.tickets, s.handled) && pid !in s.children
    requires forall m <- inbox :: MessageId(m).None?
    ensures Sound(Change(s, pid, Child(Booting, inbox, [])))
  {}

  lemma PopKeeps(s: System)
    requires Sound(s) && HasProcess(s) && Current(s).outbox != []
    ensures Sound(Pop(s))
  {
    var c := Current(s);
    var d := c.(outbox := c.outbox[1..]);
    LessSound(s.process.value, c, d, s.tickets, s.handled);
    ChangeKeeps(s, s.process.value, d);
  }

  lemma CloseKeeps(s: System, how: Write)
    requires Sound(s) && HasProcess(s)
    ensures Sound(Push(s, Close, how))
  {
    var c := Current(s);
    PlainSound(s.process.value, c, s.tickets, s.handled, Written(Close, how));
    ChangeKeeps(s, s.process.value, c.(inbox := c.inbox + Written(Close, how)));
  }

  /** The frame that answers the awaited id was made from the awaited request: the id identifies the request. */
  lemma ReplyKeeps(s: System)
    requires Invariant(s) && s.parent.Awaiting? && HasProcess(s) && Current(s).outbox != []
    ensures Invariant(Decoded(Pop(s), s.parent.id, s.parent.payload, Current(s).outbox[0]))
  {
    PopKeeps(s);
    var r, pid, id := Current(s).outbox[0], s.process.value, s.parent.id;
    assert ChildSound(pid, Current(s), s.tickets, s.handled);
    assert WasHandled(s.handled, pid, r);
    if Answers(r, id) {
      var payload :| Exchange(pid, id, payload, r) in s.handled;
      assert Issued(s.tickets, id, pid, payload);
    }
    hide ChildSound, Recorded, WasHandled;
  }

  lemma HandledGrows(pid: nat, c: Child, tickets: map<nat, Ticket>, handled: seq<Exchange>, x: Exchange)
    requires ChildSound(pid, c, tickets, handled) && (x.pid == pid ==> Past(c, x.id))
    ensures ChildSound(pid, c, tickets, handled + [x])
  {
    hide Past, InOrder;
    forall r <- c.outbox
      ensures WasHandled(handled + [x], pid, r)
    {
      WasHandledGrows(handled, x, pid, r);
    }
  }

  lemma WasHandledGrows(handled: seq<Exchange>, x: Exchange, pid: nat, r: Reply)
    requires WasHandled(handled, pid, r)
    ensures WasHandled(handled + [x], pid, r)
  {
    if IdOf(r).Some? {
      var payload :| Exchange(pid, IdOf(r).value, payload, r) in handled;
      assert Exchange(pid, IdOf(r).value, payload, r) in handled + [x];
    }
  }

  /** An answer is recorded once: the id belongs to this child, and everything the child answered before is older. */
  lemma AnswerKeeps(s: System, e: Event, t: System)
    requires Invariant(s) && ChildNext(s, e, t) && e.Answer?
    ensures Invariant(t)
  {
    var pid, c := e.pid, s.children[e.pid];
    var x := Exchange(pid, c.phase.id, c.phase.payload, e.reply);
    assert ChildSound(pid, c, s.tickets, s.handled);
    var idle := c.(phase := t.children[pid].phase);
    LessSound(pid, c, idle, s.tickets, s.handled);
    HandledGrows(pid, idle, s.tickets, s.handled, x);
    AnsweredSound(pid, idle, s.tickets, s.handled + [x], e.reply, c.phase.payload);
    forall q <- s.children | q != pid
      ensures ChildSound(q, s.children[q], s.tickets, s.handled + [x])
    {
      HandledGrows(q, s.children[q], s.tickets, s.handled, x);
    }
    forall y <- s.handled
      ensures y.id != x.id
    {
      assert Issued(s.tickets, y.id, y.pid, y.payload);
      assert y.pid == pid ==> Past(c, y.id);
    }
    hide ChildSound;
  }

  lemma AnsweredSound(pid: nat, c: Child, tickets: map<nat, Ticket>, handled: seq<Exchange>, r: Reply, payload: bytes)
    requires ChildSound(pid, c, tickets, handled)
    requires IdOf(r).Some? && Exchange(pid, IdOf(r).value, payload, r) in handled
    ensures ChildSound(pid, c.(outbox := c.outbox + [r]), tickets, handled)
  {
    var d := c.(outbox := c.outbox + [r]);
    assert WasHandled(handled, pid, r);
    hide WasHandled;
    assert InOrder(d);
    forall x <- handled | x.pid == pid
      ensures Past(d, x.id)
    {
      assert Past(c, x.id);
    }
  }

  lemma MovedSound(s: System, e: Event, t: System)
    requires ChildNext(s, e, t) && !e.Answer? && ChildSound(e.pid, s.children[e.pid], s.tickets, s.handled)
    ensures t == Change(s, e.pid, t.children[e.pid]) && ChildSound(e.pid, t.children[e.pid], s.tickets, s.handled)
  {
    var c, d := s.children[e.pid], t.children[e.pid];
    if e.Die? {
      LessSound(e.pid, c, d, s.tickets, s.handled);
    } else {
      assert Carried(s.tickets, e.pid, c.inbox[0]);
      hide ChildSound;
      ReadSound(e.pid, c, d, s.tickets, s.handled);
    }
  }

  lemma ChildMoveKeeps(s: System, e: Event, t: System)
    requires Invariant(s) && ChildNext(s, e, t) && !e.Answer?
    ensures Invariant(t)
  {
    hide ChildSound, Recorded, Genuine;
    MovedSound(s, e, t);
    hide ChildNext;
    ChangeKeeps(s, e.pid, t.children[e.pid]);
  }

  lemma StepKeeps(s: System, e: Event, t: System)
    requires Invariant(s) && Next(s, e, t)
    ensures Invariant(t)
  {
    hide Invariant, ParentNext, ChildNext;
    if ParentNext(s, e, t) {
      ParentStepKeeps(s, e, t);
    } else if e.Answer? {
      AnswerKeeps(s, e, t);
    } else {
      ChildMoveKeeps(s, e, t);
    }
  }

  lemma ChildStepInStep(s: System, e: Event, t: System)
    requires InStep(s) && ChildNext(s, e, t)
    ensures InStep(t)
  {}

  lemma SentInStep(s: System, payload: bytes, how: Write)
    requires s.strays == 0 && HasProcess(s) && Quiet(Current(s)) && !how.Interrupted?
    ensures InStep(Sent(s, payload, how))
  {}

  /** Without an escaping exception, parent and child stay in step. */
  lemma ParentStepInStep(s: System, e: Event, t: System)
    requires InStep(s) && ParentNext(s, e, t) && !Escapes(e)
    ensures InStep(t)
  {
    if e.Send? {
      SentInStep(s, e.payload, e.how);
    } else if e.TakeReady? {
      SentInStep(Pop(s), s.parent.payload, e.how);
    }
  }

  // ----- what holds in every run -----

  ghost predicate IsRun(states: seq<System>, events: seq<Event>) {
    && |states| == |events| + 1 && Initial(states[0])
    && forall i :: 0 <= i < |events| ==> Next(states[i], events[i], states[i + 1])
  }

  /** No exception escaped before state `i`. */
  predicate Calm(events: seq<Event>, i: nat) {
    forall k :: 0 <= k < i && k < |events| ==> !Escapes(events[k])
  }

  lemma {:induction false} RunKeeps(states: seq<System>, events: seq<Event>, i: nat)
    requires IsRun(states, events) && i < |states|
    ensures Invariant(states[i])
  {
    hide Next, Invariant;
    if i == 0 {
      FirstKeeps(states[0]);
    } else {
      RunKeeps(states, events, i - 1);
      StepKeeps(states[i - 1], events[i - 1], states[i]);
    }
  }

  lemma FirstKeeps(s: System)
    requires Initial(s)
    ensures Invariant(s) && InStep(s)
  {}

  lemma {:induction false} CalmRunKeeps(states: seq<System>, events: seq<Event>, i: nat)
    requires IsRun(states, events) && i < |states| && Calm(events, i)
    ensures InStep(states[i])
  {
    hide InStep, ParentNext, ChildNext;
    if i == 0 {
      FirstKeeps(states[0]);
    } else {
      CalmRunKeeps(states, events, i - 1);
      if ParentNext(states[i - 1], events[i - 1], states[i]) {
        ParentStepInStep(states[i - 1], events[i - 1], states[i]);
      } else {
        ChildStepInStep(states[i - 1], events[i - 1], states[i]);
      }
    }
  }

  /** What a caller received for a request is the one answer a child gave to that very request, in every run, also when
      interrupted calls left stale replies behind. */
  lemma ResponsesMatchRequests(states: seq<System>, events: seq<Event>, i: nat, x: Exchange, y: Exchange)
    requires IsRun(states, events) && i < |states|
    requires x in states[i].returned && y in states[i].handled && y.id == x.id
    ensures x == y && Answers(x.reply, x.id)
    ensures x.id in states[i].tickets && states[i].tickets[x.id].pid == x.pid
  {
    RunKeeps(states, events, i);
    hide AllSound, Placed;
    var handled := states[i].handled;
    assert x in handled;
    var j :| 0 <= j < |handled| && handled[j] == x;
    var k :| 0 <= k < |handled| && handled[k] == y;
    assert Issued(states[i].tickets, x.id, x.pid, x.payload);
  }

  /** The payload of a returned exchange is the one the awaiting call had written. */
  lemma ReturnedIsAwaited(states: seq<System>, events: seq<Event>, i: nat)
    requires IsRun(states, events) && i < |events| && events[i] == TakeReply
    ensures var s, t := states[i], states[i + 1];
            var r := Current(s).outbox[0];
            && (Answers(r, s.parent.id) <==> t.process.Some?)
            && t.returned == s.returned +
                 (if Answers(r, s.parent.id) then [Exchange(s.process.value, s.parent.id, s.parent.payload, r)] else [])
            && (Answers(r, s.parent.id) ==> Exchange(s.process.value, s.parent.id, s.parent.payload, r) in s.handled)
  {
    RunKeeps(states, events, i);
    RunKeeps(states, events, i + 1);
    hide AllSound, Placed, Recorded;
    var s, t := states[i], states[i + 1];
    assert ParentNext(s, TakeReply, t);
    if Answers(Current(s).outbox[0], s.parent.id) {
      var x := Exchange(s.process.value, s.parent.id, s.parent.payload, Current(s).outbox[0]);
      assert x in t.returned;
      assert t.handled == s.handled;
    } else {
      assert s.returned + [] == s.returned;
    }
  }

  /** While no exception escaped, the frame that arrives always carries the awaited id, and only the child's report of
      its own failure makes the parent abort. */
  lemma IdsAlwaysMatch(states: seq<System>, events: seq<Event>, i: nat)
    requires IsRun(states, events) && i < |events| && events[i] == TakeReply && Calm(events, i)
    ensures var s, t := states[i], states[i + 1];
            && IdOf(Current(s).outbox[0]) == Some(s.parent.id)
            && (t.process.None? <==> Current(s).outbox[0].WorkerFailed?)
  {
    CalmRunKeeps(states, events, i);
    assert ParentNext(states[i], TakeReply, states[i + 1]);
    assert Exchanging(Current(states[i]), states[i].parent.id, states[i].parent.payload);
  }

  /** While no exception escaped, a process that was kept has both pipes on a frame boundary whenever no call is in
      progress, whatever the last call returned or raised; a remote native error in particular keeps it. */
  lemma FrameBoundaryAtRest(states: seq<System>, events: seq<Event>, i: nat)
    requires IsRun(states, events) && i < |states| && Calm(events, i)
    requires states[i].parent.Resting? && states[i].process.Some?
    ensures HasProcess(states[i]) && Quiet(Current(states[i]))
  {
    CalmRunKeeps(states, events, i);
  }

  /** Nothing that `pid` may still write reached a caller between the two states. */
  ghost predicate Unused(s: System, t: System, pid: nat) {
    && pid in t.children && t.process != Some(pid) && s.returned <= t.returned
    && forall k :: |s.returned| <= k < |t.returned| ==> t.returned[k].pid != pid
  }

  lemma StepKeepsDiscarded(s: System, e: Event, t: System, pid: nat)
    requires Next(s, e, t) && pid in s.children && s.process != Some(pid)
    ensures Unused(s, t, pid)
  {
    if ParentNext(s, e, t) {
      hide ChildNext, Next;
      ParentKeepsDiscarded(s, e, t, pid);
    } else {
      hide ParentNext;
    }
  }

  lemma ParentKeepsDiscarded(s: System, e: Event, t: System, pid: nat)
    requires ParentNext(s, e, t) && pid in s.children && s.process != Some(pid)
    ensures Unused(s, t, pid)
  {
    hide Decoded, Written;
    if e.TakeReply? {
      DecodedUnused(s, pid);
    }
  }

  lemma DecodedUnused(s: System, pid: nat)
    requires HasProcess(s) && s.parent.Awaiting? && Current(s).outbox != []
    requires pid in s.children && s.process != Some(pid)
    ensures Unused(s, Decoded(Pop(s), s.parent.id, s.parent.payload, Current(s).outbox[0]), pid)
  {
    hide Answers;
  }

  /** A process that was given up, after a timeout or a framing error, is never used again: nothing it still writes
      reaches a later request. */
  lemma {:induction false} DiscardedStaysDiscarded(states: seq<System>, events: seq<Event>, i: nat, j: nat, pid: nat)
    requires IsRun(states, events) && i <= j < |states| && pid in states[i].children && states[i].process != Some(pid)
    ensures Unused(states[i], states[j], pid)
    decreases j
  {
    hide Next;
    if i < j {
      DiscardedStaysDiscarded(states, events, i, j - 1, pid);
      StepKeepsDiscarded(states[j - 1], events[j - 1], states[j], pid);
    }
  }

  /** The request finds a child that exited with a non-zero status. */
  predicate FoundCrashed(s: System) {
    s.parent.Resting? && !s.closed && HasProcess(s) && Current(s).phase.Exited? && Current(s).phase.code != 0
  }

  /** The steps that end a request without a result. */
  predicate FailsRequest(s: System, e: Event, t: System) {
    && t.parent.Resting? && t.returned == s.returned
    && (e.RefuseStart? || e.Spawn? || e.FindExited? || e.Send? || e.TakeReady? || e.TakeReply?
        || ((e.GiveUp? || e.Escape?) && !s.parent.Closing?))
  }

  /** A failed request keeps its process in exactly two cases: it found the child already crashed, or it ended by an
      exception the parent does not handle. */
  lemma FailureDiscards(states: seq<System>, events: seq<Event>, i: nat)
    requires IsRun(states, events) && i < |events| && FailsRequest(states[i], events[i], states[i + 1])
    ensures states[i + 1].process.Some? <==> FoundCrashed(states[i]) || Escapes(events[i])
  {
    RunKeeps(states, events, i);
    hide AllSound, Recorded, Genuine;
    var s, e, t := states[i], events[i], states[i + 1];
    assert ParentNext(s, e, t);
    assert e.TakeReply? && t.process.Some? ==> |t.returned| == |s.returned| + 1;
  }

  lemma StepKeepsCrashed(s: System, e: Event, t: System)
    requires Next(s, e, t) && FoundCrashed(s)
    ensures t.closed || (FoundCrashed(t) && t.process == s.process)
    ensures t.returned == s.returned
  {}

  /** A crashed child is never replaced: from then on no request returns anything until the session is closed. */
  lemma {:induction false} CrashedUntilClosed(states: seq<System>, events: seq<Event>, i: nat, j: nat)
    requires IsRun(states, events) && i <= j < |states| && FoundCrashed(states[i])
    requires forall k :: i <= k <= j ==> !states[k].closed
    ensures FoundCrashed(states[j]) && states[j].process == states[i].process
    ensures states[j].returned == states[i].returned
    decreases j
  {
    hide Next;
    if i < j {
      CrashedUntilClosed(states, events, i, j - 1);
      StepKeepsCrashed(states[j - 1], events[j - 1], states[j]);
    }
  }

  // ----- two runs -----

  lemma Longer(states: seq<System>, events: seq<Event>, e: Event, t: System)
    returns (more: seq<System>, moreEvents: seq<Event>)
    requires IsRun(states, events) && |states| == |events| + 1 && Next(states[|events|], e, t)
    ensures more == states + [t] && moreEvents == events + [e] && IsRun(more, moreEvents)
  {
    hide Next;
    more, moreEvents := states + [t], events + [e];
    forall i | 0 <= i < |moreEvents|
      ensures Next(more[i], moreEvents[i], more[i + 1])
    {
      if i < |events| {
        assert Next(states[i], events[i], states[i + 1]);
      }
    }
  }

  function Only(parent: Parent, nextId: nat, c: Child, tickets: map<nat, Ticket>): System {
    System(Some(0), false, nextId, parent, 0, map[0 := c], tickets, [], [])
  }

  function Asked(p: bytes): System {
    Only(Awaiting(1, p), 2, Child(Serving, [Request(1, p)], []), map[1 := Ticket(0, Some(p))])
  }

  lemma Starts(p: bytes)
    ensures Next(System(None, false, 1, Resting, 0, map[], map[], [], []), Spawn(0, p, Whole),
                 Only(Starting(p), 1, Child(Booting, [Init], []), map[]))
  {}

  lemma Boots(p: bytes)
    ensures Next(Only(Starting(p), 1, Child(Booting, [Init], []), map[]), Boot(0, true, p),
                 Only(Starting(p), 1, Child(Serving, [], [Ready]), map[]))
  {
    var c := Child(Booting, [Init], []);
    assert Remaining(c) == [] && c.outbox + [Ready] == [Ready];
  }

  lemma Asks(p: bytes)
    ensures Next(Only(Starting(p), 1, Child(Serving, [], [Ready]), map[]), TakeReady(Whole), Asked(p))
  {
    var s := Only(Starting(p), 1, Child(Serving, [], [Ready]), map[]);
    var popped := Only(Starting(p), 1, Child(Serving, [], []), map[]);
    assert [Ready][1..] == [] && Pop(s).children == popped.children;
    assert [] + [Request(1, p)] == [Request(1, p)];
    assert Push(popped, Request(1, p), Whole).children == Asked(p).children;
  }

  lemma FirstRequestGoesOut(p: bytes) returns (states: seq<System>, events: seq<Event>)
    ensures IsRun(states, events) && |states| == |events| + 1 && states[|events|] == Asked(p)
  {
    Starts(p);
    Boots(p);
    Asks(p);
    hide Next;
    states := [System(None, false, 1, Resting, 0, map[], map[], [], []), Only(Starting(p), 1, Child(Booting, [Init], []), map[]),
               Only(Starting(p), 1, Child(Serving, [], [Ready]), map[]), Asked(p)];
    events := [Spawn(0, p, Whole), Boot(0, true, p), TakeReady(Whole)];
  }

  /** The child takes request 1, whatever the parent is doing, and answers it. */
  lemma AnswersFirst(s: System, p: bytes, r: Reply) returns (t: System, u: System)
    requires s.children == map[0 := Child(Serving, [Request(1, p)], [])] && r == Response(1, p)
    ensures Next(s, Receive(0, None), t) && Next(t, Answer(0, r), u)
    ensures u == s.(children := map[0 := Child(Serving, [], [r])], handled := s.handled + [Exchange(0, 1, p, r)])
  {
    var c := s.children[0];
    t := Change(s, 0, c.(phase := Handling(1, p), inbox := Remaining(c)));
    var d := t.children[0];
    u := Change(t, 0, d.(phase := Serving, outbox := d.outbox + [r]))
         .(handled := t.handled + [Exchange(0, 1, p, r)]);
    assert d.inbox == [] && d.outbox + [r] == [r];
    assert u.children == map[0 := Child(Serving, [], [r])];
  }

  lemma TakesFirst(u: System, p: bytes, r: Reply) returns (v: System, w: System)
    requires u.parent == Awaiting(1, p) && !u.closed && u.process == Some(0) && u.returned == [] && r == Response(1, p)
    requires u.children == map[0 := Child(Serving, [], [r])]
    ensures Next(u, TakeReply, v) && Next(v, Die(0, 1), w) && FoundCrashed(w) && |w.returned| == 1
  {
    v := Decoded(Pop(u), 1, p, r);
    w := Change(v, 0, v.children[0].(phase := Exited(1)));
  }

  /** The crashed situation does arise: one answered request, then a crash between requests. */
  lemma CrashedSessionExists() returns (states: seq<System>, events: seq<Event>)
    ensures IsRun(states, events) && FoundCrashed(states[|events|]) && |states[|events|].returned| == 1
  {
    hide Next, FoundCrashed, IsRun;
    var p: bytes := [];
    states, events := FirstRequestGoesOut(p);
    var r := Response(1, p);
    var t, u := AnswersFirst(Asked(p), p, r);
    var v, w := TakesFirst(u, p, r);
    states, events := Longer(states, events, Receive(0, None), t);
    states, events := Longer(states, events, Answer(0, r), u);
    states, events := Longer(states, events, TakeReply, v);
    states, events := Longer(states, events, Die(0, 1), w);
  }

  /** The frame about to be read is not the reply to the awaited request. */
  predicate Stale(s: System) {
    s.parent.Awaiting? && HasProcess(s) && Current(s).outbox != [] && IdOf(Current(s).outbox[0]) != Some(s.parent.id)
  }

  predicate RestsOffBoundary(s: System) {
    s.parent.Resting? && HasProcess(s) && !Quiet(Current(s))
  }

  lemma ReadsStale(u: System, p: bytes, r: Reply) returns (v: System, w: System)
    requires u.parent.Resting? && !u.closed && u.process == Some(0) && u.nextId == 2 && r == Response(1, p)
    requires u.children == map[0 := Child(Serving, [], [r])]
    ensures Next(u, Send(p, Whole), v) && Next(v, TakeReply, w)
    ensures RestsOffBoundary(u) && Stale(v) && w.process.None?
  {
    v := Sent(u, p, Whole);
    w := Decoded(Pop(v), 2, p, r);
  }

  lemma EscapesAsked(p: bytes)
    ensures Next(Asked(p), Escape(false), Asked(p).(parent := Resting))
  {}

  /** An escaping exception does leave a reply behind: the pipe is not on a frame boundary at rest, and the next request
      reads the reply to the one before, which the id check refuses. */
  lemma StaleReplyExists() returns (states: seq<System>, events: seq<Event>, i: nat)
    ensures IsRun(states, events) && 0 < i < |events| && events[i] == TakeReply
    ensures RestsOffBoundary(states[i - 1]) && Stale(states[i]) && states[i + 1].process.None?
  {
    var p: bytes := [];
    states, events := FirstRequestGoesOut(p);
    var r := Response(1, p);
    var e := Asked(p).(parent := Resting);
    EscapesAsked(p);
    hide Next, RestsOffBoundary, Stale, IsRun;
    var t, u := AnswersFirst(e, p, r);
    var v, w := ReadsStale(u, p, r);
    states, events := Longer(states, events, Escape(false), e);
    states, events := Longer(states, events, Receive(0, None), t);
    states, events := Longer(states, events, Answer(0, r), u);
    states, events := Longer(states, events, Send(p, Whole), v);
    states, events := Longer(states, events, TakeReply, w);
    i := |events| - 1;
  }
}
