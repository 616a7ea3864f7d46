/** The native session worker: callers share a locked sender, one thread owns the backend, and replies travel on
    one-shot channels. Every interleaving of callers and worker is a run of `Next`. */
module Worker {
  import opened Wrappers
  import opened Bytes

  datatype Failure = Closed | WorkerPanic | Backend(message: bytes)
  type Answer = Result<bytes, Failure>

  datatype Op = Request(request: bytes) | Close

  /** A command in the channel, with the reply channel it carries named by `id`. */
  datatype Command = Command(id: nat, issuer: nat, op: Op)

  /** How the backend left a command. */
  datatype Outcome = Returned(answer: Answer) | Panicked

  function Told(o: Outcome): Answer {
    if o.Returned? then o.answer else Failure(WorkerPanic)
  }

  datatype Slot = Empty | Sent(answer: Answer) | Dropped

  datatype Thread = Waiting | Executing(command: Command) | Leaving | Gone(panicked: bool)

  /** Where a caller is inside `request` or `close`; `Done` remembers the reply channel it read, if any. */
  datatype Caller =
    | Idle
    | WantSender(op: Op)
    | Holding(op: Op)
    | AwaitReply(id: nat)
    | WantJoin(result: Answer)
    | Joining(result: Answer)
    | Done(answer: Answer, channel: Option<nat>)

  /** `issued` are all commands ever sent, `started` those the backend was given, `produced` what it made of them. */
  datatype System = System(
    sender: bool, senderLock: Option<nat>, join: bool, joinLock: Option<nat>,
    queue: seq<Command>, replies: map<nat, Slot>, worker: Thread, callers: seq<Caller>,
    issued: seq<Command>, started: seq<Command>, produced: map<nat, Outcome>)

  datatype Event =
    | Call(c: nat, op: Op)
    | LockSender(c: nat)
    | Dispatch(c: nat)
    | TakeReply(c: nat)
    | Receive
    | Disconnect
    | Finish(answer: Answer)
    | Panic
    | Exit(panicked: bool)
    | LockJoin(c: nat)
    | Joined(c: nat)

  ghost predicate Init(s: System) {
    && s.sender && s.join && s.senderLock.None? && s.joinLock.None? && s.queue == [] && s.replies == map[]
    && s.worker == Waiting && s.issued == [] && s.started == [] && s.produced == map[]
    && forall x <- s.callers :: x == Idle
  }

  function Put(s: System, c: nat, x: Caller): System
    requires c < |s.callers|
  {
    s.(callers := s.callers[c := x])
  }

  function Sending(s: System, c: nat, op: Op): System
    requires c < |s.callers|
  {
    var command := Command(|s.issued|, c, op);
    Put(s, c, AwaitReply(command.id)).(
      queue := s.queue + [command], issued := s.issued + [command], replies := s.replies[command.id := Empty])
  }

  /** The body of `request` or `close` once the sender lock is held. */
  function Dispatched(s: System, c: nat, op: Op): System
    requires c < |s.callers|
  {
    var free := s.(senderLock := None);
    if op.Request? then
      if !s.sender then Put(free, c, Done(Failure(Closed), None))
      else if s.worker.Gone? then Put(free, c, Done(Failure(WorkerPanic), None)).(sender := false)
      else Sending(s, c, op)
    else if s.sender && !s.worker.Gone? then Sending(s.(sender := false), c, op)
    else Put(free, c, WantJoin(Success([]))).(sender := false)
  }

  /** What a caller makes of its reply channel. */
  function Replied(s: System, c: nat, id: nat): System
    requires c < |s.callers| && id < |s.issued| && id in s.replies
  {
    var free := s.(senderLock := None);
    var slot := s.replies[id];
    if s.issued[id].op.Close? then Put(free, c, WantJoin(if slot.Sent? then slot.answer else Success([])))
    else if slot.Sent? then Put(free, c, Done(slot.answer, Some(id)))
    else Put(free, c, Done(Failure(WorkerPanic), Some(id))).(sender := false)
  }

  function Answered(s: System, command: Command, o: Outcome, next: Thread): System {
    s.(replies := s.replies[command.id := Sent(Told(o))], produced := s.produced[command.id := o], worker := next)
  }

  /** No sender is left: the shared one is gone and no closer still holds the one it took. */
  ghost predicate Disconnected(s: System) {
    && !s.sender
    && forall c :: 0 <= c < |s.callers| && s.callers[c].AwaitReply? && s.callers[c].id < |s.issued| ==>
                     !s.issued[s.callers[c].id].op.Close?
  }

  ghost predicate Next(s: System, e: Event, t: System) {
    match e
    case Call(c, op) =>
      && c < |s.callers| && (s.callers[c].Idle? || s.callers[c].Done?)
      && t == Put(s, c, WantSender(op))
    case LockSender(c) =>
      && c < |s.callers| && s.callers[c].WantSender? && s.senderLock.None?
      && t == Put(s, c, Holding(s.callers[c].op)).(senderLock := Some(c))
    case Dispatch(c) =>
      && c < |s.callers| && s.callers[c].Holding?
      && t == Dispatched(s, c, s.callers[c].op)
    case TakeReply(c) =>
      && c < |s.callers| && s.callers[c].AwaitReply?
      && var id := s.callers[c].id;
         id < |s.issued| && id in s.replies && !s.replies[id].Empty? && t == Replied(s, c, id)
    case Receive =>
      && s.worker.Waiting? && s.queue != []
      && t == s.(queue := s.queue[1..], worker := Executing(s.queue[0]), started := s.started + [s.queue[0]])
    case Disconnect =>
      s.worker.Waiting? && s.queue == [] && Disconnected(s) && t == s.(worker := Leaving)
    case Finish(answer) =>
      && s.worker.Executing?
      && t == Answered(s, s.worker.command, Returned(answer), if s.worker.command.op.Close? then Leaving else Waiting)
    case Panic =>
      && s.worker.Executing?
      && t == Answered(s, s.worker.command, Panicked, Leaving)
    case Exit(panicked) =>
      && s.worker.Leaving?
      && t == s.(worker := Gone(panicked), queue := [],
                 replies := map id | id in s.replies :: if exists q <- s.queue :: q.id == id then Dropped else s.replies[id])
    case LockJoin(c) =>
      && c < |s.callers| && s.callers[c].WantJoin? && s.joinLock.None?
      && t == if s.join then Put(s, c, Joining(s.callers[c].result)).(join := false, joinLock := Some(c))
              else Put(s, c, Done(s.callers[c].result, None))
    case Joined(c) =>
      && c < |s.callers| && s.callers[c].Joining? && s.worker.Gone?
      && var result := s.callers[c].result;
         t == Put(s, c, Done(if result.Success? && s.worker.panicked then Failure(WorkerPanic) else result, None))
                .(joinLock := None)
  }

  // ----- the invariant -----

  ghost predicate LocksHeld(callers: seq<Caller>, senderLock: Option<nat>, joinLock: Option<nat>, sender: bool) {
    && (senderLock.Some? ==> senderLock.value < |callers|)
    && (joinLock.Some? ==> joinLock.value < |callers|)
    && forall c :: 0 <= c < |callers| ==>
                     && (callers[c].Holding? || callers[c].AwaitReply? <==> senderLock == Some(c))
                     && (callers[c].Joining? <==> joinLock == Some(c))
                     && (callers[c].WantJoin? || callers[c].Joining? ==> !sender)
  }

  /** The caller that awaits a reply, with the command it issued; it holds the sender lock. */
  function InFlight(s: System): Option<(nat, nat)> {
    if s.senderLock.Some? && s.senderLock.value < |s.callers| && s.callers[s.senderLock.value].AwaitReply?
    then Some((s.senderLock.value, s.callers[s.senderLock.value].id))
    else None
  }

  ghost predicate WasStarted(started: seq<Command>, id: nat) {
    exists k :: 0 <= k < |started| && started[k].id == id
  }

  /** The one command in flight is where its reply channel says it is; with none in flight, nothing is under way. */
  ghost predicate Flight(s: System) {
    match InFlight(s)
    case None => s.queue == [] && !s.worker.Executing?
    case Some((c, id)) =>
      && |s.issued| == id + 1 && s.issued[id].issuer == c && id in s.replies
      && (s.issued[id].op.Close? <==> !s.sender)
      && match s.replies[id]
         case Empty =>
           || (s.queue == [s.issued[id]] && (s.worker.Waiting? || s.worker.Leaving?) && !WasStarted(s.started, id))
           || (s.queue == [] && s.worker == Executing(s.issued[id]))
         case Sent(a) => s.queue == [] && !s.worker.Executing? && id in s.produced && Told(s.produced[id]) == a
         case Dropped => s.queue == [] && s.worker.Gone? && !WasStarted(s.started, id)
  }

  /** A command after which the worker stops: a close, or one the backend panicked on. */
  predicate Ends(c: Command, produced: map<nat, Outcome>) {
    c.op.Close? || (c.id in produced && produced[c.id] == Panicked)
  }

  /** Commands are numbered in order, and none follows a close. */
  ghost predicate Issuing(issued: seq<Command>, sender: bool) {
    && (forall k :: 0 <= k < |issued| ==> issued[k].id == k)
    && (forall k :: 0 <= k < |issued| && issued[k].op.Close? ==> k == |issued| - 1 && !sender)
  }

  /** The backend is given issued commands only, each at most once, in order, and none after one that ends the worker. */
  ghost predicate Starting(issued: seq<Command>, started: seq<Command>, produced: map<nat, Outcome>, worker: Thread) {
    && (forall k :: 0 <= k < |started| ==> started[k].id < |issued| && started[k] == issued[started[k].id])
    && (forall i, j :: 0 <= i < j < |started| ==> started[i].id < started[j].id)
    && (forall id <- produced :: WasStarted(started, id))
    && (forall k :: 0 <= k < |started| && Ends(started[k], produced) ==>
                      k == |started| - 1 && !worker.Waiting?)
    && (worker.Executing? ==>
          started != [] && started[|started| - 1] == worker.command && worker.command.id !in produced)
  }

  /** What a caller was told through a reply channel is what the backend made of that caller's own request, or that
      the worker stopped before it got the request. */
  ghost predicate Truthful(x: Caller, c: nat, issued: seq<Command>, started: seq<Command>,
                           produced: map<nat, Outcome>, worker: Thread) {
    x.Done? && x.channel.Some? ==>
      var id := x.channel.value;
      && id < |issued| && issued[id].issuer == c && issued[id].op.Request?
      && if id in produced then x.answer == Told(produced[id])
         else x.answer == Failure(WorkerPanic) && worker.Gone? && !WasStarted(started, id)
  }

  ghost predicate AllTruthful(callers: seq<Caller>, issued: seq<Command>, started: seq<Command>,
                              produced: map<nat, Outcome>, worker: Thread) {
    forall c :: 0 <= c < |callers| ==> Truthful(callers[c], c, issued, started, produced, worker)
  }

  ghost predicate Locked(s: System) {
    LocksHeld(s.callers, s.senderLock, s.joinLock, s.sender)
  }

  ghost predicate Honest(s: System) {
    AllTruthful(s.callers, s.issued, s.started, s.produced, s.worker)
  }

  ghost predicate Invariant(s: System) {
    && Locked(s) && Flight(s) && Issuing(s.issued, s.sender)
    && Starting(s.issued, s.started, s.produced, s.worker) && Honest(s)
  }

  /** A caller moves without touching the channel; only locks and the two handles may change with it. */
  lemma MoveKeeps(s: System, c: nat, x: Caller, t: System)
    requires Invariant(s) && c < |s.callers| && !s.callers[c].AwaitReply? && !x.AwaitReply?
    requires t == s.(callers := s.callers[c := x], sender := t.sender, senderLock := t.senderLock,
                     join := t.join, joinLock := t.joinLock)
    requires x.Done? ==> x.channel.None?
    requires Locked(t) && (t.sender ==> s.sender) && (InFlight(s).Some? ==> t.sender == s.sender)
    requires InFlight(s).Some? ==> t.senderLock == s.senderLock
    ensures Invariant(t)
  {
    hide Starting, WasStarted;
    assert InFlight(t) == InFlight(s);
    hide LocksHeld;
  }

  lemma SendLocked(s: System, c: nat, op: Op, sender: bool)
    requires Locked(s) && c < |s.callers| && s.callers[c] == Holding(op) && s.sender
    ensures Locked(Sending(s.(sender := sender), c, op))
  {
    var t := Sending(s.(sender := sender), c, op);
    assert t.callers == s.callers[c := AwaitReply(|s.issued|)];
  }

  lemma SendKeeps(s: System, c: nat, op: Op, sender: bool)
    requires Invariant(s) && c < |s.callers| && s.callers[c] == Holding(op) && s.sender && !s.worker.Gone?
    requires sender <==> op.Request?
    ensures Invariant(Sending(s.(sender := sender), c, op))
  {
    SendLocked(s, c, op, sender);
    SendFlies(s, c, op, sender);
    SendIssued(s.issued, Command(|s.issued|, c, op), s.sender, sender);
    SendHonest(s, c, op, sender);
    hide LocksHeld, Flight, Issuing, Starting, AllTruthful;
  }

  lemma SendFlies(s: System, c: nat, op: Op, sender: bool)
    requires Locked(s) && Flight(s) && Starting(s.issued, s.started, s.produced, s.worker)
    requires c < |s.callers| && s.callers[c] == Holding(op) && !s.worker.Gone? && (sender <==> op.Request?)
    ensures Flight(Sending(s.(sender := sender), c, op))
  {
    var t := Sending(s.(sender := sender), c, op);
    var id := |s.issued|;
    assert InFlight(s) == None && InFlight(t) == Some((c, id));
    hide LocksHeld;
    assert !WasStarted(s.started, id);
    hide Starting, WasStarted;
  }

  lemma SendIssued(issued: seq<Command>, x: Command, before: bool, sender: bool)
    requires Issuing(issued, before) && before && x.id == |issued| && (sender <==> x.op.Request?)
    ensures Issuing(issued + [x], sender)
  {}

  lemma SendHonest(s: System, c: nat, op: Op, sender: bool)
    requires Issuing(s.issued, s.sender) && Starting(s.issued, s.started, s.produced, s.worker) && Honest(s)
    requires c < |s.callers| && s.callers[c] == Holding(op)
    ensures var t := Sending(s.(sender := sender), c, op);
            Starting(t.issued, t.started, t.produced, t.worker) && Honest(t)
  {
    hide WasStarted, Ends, Issuing;
    var t := Sending(s.(sender := sender), c, op);
    assert forall k :: 0 <= k < |s.issued| ==> t.issued[k] == s.issued[k];
  }

  lemma DispatchKeeps(s: System, c: nat, op: Op)
    requires Invariant(s) && c < |s.callers| && s.callers[c] == Holding(op)
    ensures Invariant(Dispatched(s, c, op))
  {
    hide Flight, Issuing, Starting, AllTruthful;
    var t := Dispatched(s, c, op);
    if s.sender && !s.worker.Gone? {
      SendKeeps(s, c, op, op.Request?);
    } else {
      assert Locked(t);
      MoveKeeps(s, c, t.callers[c], t);
    }
  }

  lemma ReplyKeeps(s: System, c: nat, id: nat)
    requires Invariant(s) && c < |s.callers| && s.callers[c] == AwaitReply(id)
    requires id < |s.issued| && id in s.replies && !s.replies[id].Empty?
    ensures Invariant(Replied(s, c, id))
  {
    var t := Replied(s, c, id);
    assert InFlight(s) == Some((c, id)) && InFlight(t) == None;
    assert Locked(t) by {
      hide Starting, AllTruthful, Issuing, WasStarted;
    }
    hide LocksHeld, Starting, WasStarted;
    assert Honest(t) by {
      hide Issuing;
    }
  }

  lemma StartedAppend(started: seq<Command>, c: Command, id: nat)
    ensures WasStarted(started + [c], id) <==> WasStarted(started, id) || c.id == id
  {
    var all := started + [c];
    if WasStarted(started, id) {
      var k :| 0 <= k < |started| && started[k].id == id;
      assert all[k].id == id;
    }
    assert all[|started|] == c;
  }

  lemma ReceiveKeeps(s: System)
    requires Invariant(s) && s.worker.Waiting? && s.queue != []
    ensures Invariant(s.(queue := s.queue[1..], worker := Executing(s.queue[0]), started := s.started + [s.queue[0]]))
  {
    var id := InFlight(s).value.1;
    var c := s.issued[id];
    var started := s.started + [c];
    forall i
      ensures WasStarted(started, i) <==> WasStarted(s.started, i) || i == id
    {
      StartedAppend(s.started, c, i);
    }
    forall k | 0 <= k < |s.started|
      ensures s.started[k].id < id
    {
      assert WasStarted(s.started, s.started[k].id);
    }
  }

  lemma LeaveKeeps(s: System)
    requires Invariant(s) && s.worker.Waiting? && s.queue == [] && Disconnected(s)
    ensures Invariant(s.(worker := Leaving))
  {
    hide LocksHeld, WasStarted;
    assert InFlight(s.(worker := Leaving)) == InFlight(s);
  }

  lemma AnswerFlies(s: System, o: Outcome, next: Thread)
    requires Flight(s) && Issuing(s.issued, s.sender) && s.worker.Executing? && (next.Leaving? || next.Waiting?)
    ensures Flight(Answered(s, s.worker.command, o, next))
  {
    hide WasStarted;
    assert InFlight(Answered(s, s.worker.command, o, next)) == InFlight(s);
  }

  lemma AnswerStarts(s: System, o: Outcome, next: Thread)
    requires Starting(s.issued, s.started, s.produced, s.worker) && s.worker.Executing?
    requires next == if o.Panicked? || s.worker.command.op.Close? then Leaving else Waiting
    ensures var t := Answered(s, s.worker.command, o, next);
            Starting(t.issued, t.started, t.produced, t.worker) && WasStarted(s.started, s.worker.command.id)
  {
    var c := s.worker.command;
    assert s.started[|s.started| - 1].id == c.id;
    assert WasStarted(s.started, c.id);
    hide WasStarted;
  }

  lemma AnswerKeeps(s: System, o: Outcome, next: Thread)
    requires Invariant(s) && s.worker.Executing?
    requires next == if o.Panicked? || s.worker.command.op.Close? then Leaving else Waiting
    ensures Invariant(Answered(s, s.worker.command, o, next))
  {
    AnswerFlies(s, o, next);
    AnswerStarts(s, o, next);
    assert s.worker.command.id !in s.produced;
    hide LocksHeld, Flight, Issuing, Starting, WasStarted;
  }

  lemma ExitKeeps(s: System, panicked: bool, replies: map<nat, Slot>)
    requires Invariant(s) && s.worker.Leaving?
    requires replies == map id | id in s.replies :: if exists q <- s.queue :: q.id == id then Dropped else s.replies[id]
    ensures Invariant(s.(worker := Gone(panicked), queue := [], replies := replies))
  {
    hide LocksHeld;
    assert InFlight(s.(worker := Gone(panicked), queue := [], replies := replies)) == InFlight(s);
  }

  lemma CallerStepKeeps(s: System, e: Event, t: System)
    requires Invariant(s) && Next(s, e, t) && (e.Call? || e.LockSender? || e.LockJoin? || e.Joined?)
    ensures Invariant(t)
  {
    hide Flight, Issuing, Starting, AllTruthful;
    assert Locked(t);
    hide LocksHeld;
    MoveKeeps(s, e.c, t.callers[e.c], t);
  }

  lemma StepKeeps(s: System, e: Event, t: System)
    requires Invariant(s) && Next(s, e, t)
    ensures Invariant(t)
  {
    hide Flight, Issuing, Starting, AllTruthful, LocksHeld, Disconnected, Dispatched, Replied;
    match e
    case Call(_, _) => CallerStepKeeps(s, e, t);
    case LockSender(_) => CallerStepKeeps(s, e, t);
    case Dispatch(c) => DispatchKeeps(s, c, s.callers[c].op);
    case TakeReply(c) => ReplyKeeps(s, c, s.callers[c].id);
    case Receive => ReceiveKeeps(s);
    case Disconnect => LeaveKeeps(s);
    case Finish(answer) => AnswerKeeps(s, Returned(answer), t.worker);
    case Panic => AnswerKeeps(s, Panicked, t.worker);
    case Exit(panicked) => ExitKeeps(s, panicked, t.replies);
    case LockJoin(_) => CallerStepKeeps(s, e, t);
    case Joined(_) => CallerStepKeeps(s, e, t);
  }

  // ----- what holds in every run -----

  ghost predicate IsRun(states: seq<System>, events: seq<Event>) {
    && |states| == |events| + 1 && Init(states[0])
    && forall i :: 0 <= i < |events| ==> Next(states[i], events[i], states[i + 1])
  }

  lemma {:induction false} RunKeeps(states: seq<System>, events: seq<Event>, i: nat)
    requires IsRun(states, events) && i < |states|
    ensures Invariant(states[i])
  {
    if i == 0 {
      assert forall c :: 0 <= c < |states[0].callers| ==> states[0].callers[c] in states[0].callers;
    } else {
      RunKeeps(states, events, i - 1);
      StepKeeps(states[i - 1], events[i - 1], states[i]);
    }
  }

  /** The commands in the channel or with the backend. */
  function UnderWay(s: System): seq<Command> {
    s.queue + if s.worker.Executing? then [s.worker.command] else []
  }

  /** At most one command is in flight, and its issuer is the one caller that holds the sender lock and waits. */
  lemma AtMostOneInFlight(states: seq<System>, events: seq<Event>, i: nat)
    requires IsRun(states, events) && i < |states|
    ensures var s := states[i];
            && |UnderWay(s)| <= 1
            && forall q <- UnderWay(s) ::
                 q.issuer < |s.callers| && s.senderLock == Some(q.issuer) && s.callers[q.issuer] == AwaitReply(q.id)
  {
    RunKeeps(states, events, i);
    hide Starting, AllTruthful;
  }

  /** Each request reaches the backend at most once, nothing reaches it after a close or a panic, and it is closed at
      most once. */
  lemma BackendOrder(states: seq<System>, events: seq<Event>, n: nat)
    requires IsRun(states, events) && n < |states|
    ensures var s := states[n];
            && (forall i, j :: 0 <= i < j < |s.started| ==> s.started[i].id != s.started[j].id)
            && (forall i :: 0 <= i < |s.started| - 1 ==> !Ends(s.started[i], s.produced))
  {
    RunKeeps(states, events, n);
  }

  /** A request that returned through its reply channel returned what the backend made of that very request, issued
      by that very caller; only a request the backend never got is reported as a panic without one. */
  lemma ReplyGoesToIssuer(states: seq<System>, events: seq<Event>, i: nat, c: nat)
    requires IsRun(states, events) && i < |states| && c < |states[i].callers|
    requires states[i].callers[c].Done? && states[i].callers[c].channel.Some?
    ensures var s := states[i];
            var id := s.callers[c].channel.value;
            && id < |s.issued| && s.issued[id].issuer == c && s.issued[id].op.Request?
            && if id in s.produced then s.callers[c].answer == Told(s.produced[id])
               else s.callers[c].answer == Failure(WorkerPanic) && forall q <- s.started :: q.id != id
  {
    RunKeeps(states, events, i);
    assert Truthful(states[i].callers[c], c, states[i].issued, states[i].started, states[i].produced, states[i].worker);
  }

  /** Once the worker thread is gone, no caller is left waiting on an unanswered channel. */
  lemma NobodyWaitsOnTheGone(states: seq<System>, events: seq<Event>, i: nat, c: nat)
    requires IsRun(states, events) && i < |states| && c < |states[i].callers|
    requires states[i].worker.Gone? && states[i].callers[c].AwaitReply?
    ensures states[i].callers[c].id in states[i].replies && !states[i].replies[states[i].callers[c].id].Empty?
  {
    RunKeeps(states, events, i);
    assert InFlight(states[i]) == Some((c, states[i].callers[c].id));
  }

  // ----- every call returns -----

  predicate Busy(x: Caller) {
    !x.Idle? && !x.Done?
  }

  /** While any call is unfinished, some step other than a new call can be taken. */
  lemma SomeStepIsEnabled(s: System, c: nat) returns (e: Event, t: System)
    requires Invariant(s) && c < |s.callers| && Busy(s.callers[c])
    ensures !e.Call? && Next(s, e, t)
  {
    hide Starting, AllTruthful;
    if s.worker.Leaving? {
      e := Exit(false);
      t := s.(worker := Gone(false), queue := [],
              replies := map id | id in s.replies :: if exists q <- s.queue :: q.id == id then Dropped else s.replies[id]);
    } else if s.worker.Executing? {
      e := Panic;
      t := Answered(s, s.worker.command, Panicked, Leaving);
    } else if s.senderLock.Some? {
      e, t := HolderCanStep(s);
    } else if s.callers[c].WantSender? {
      e := LockSender(c);
      t := Put(s, c, Holding(s.callers[c].op)).(senderLock := Some(c));
    } else if s.joinLock.None? {
      e := LockJoin(c);
      t := if s.join then Put(s, c, Joining(s.callers[c].result)).(join := false, joinLock := Some(c))
           else Put(s, c, Done(s.callers[c].result, None));
    } else {
      e, t := JoinerCanStep(s);
    }
  }

  lemma HolderCanStep(s: System) returns (e: Event, t: System)
    requires Invariant(s) && s.senderLock.Some? && (s.worker.Waiting? || s.worker.Gone?)
    ensures !e.Call? && Next(s, e, t)
  {
    hide Starting, AllTruthful;
    var h := s.senderLock.value;
    if s.callers[h].Holding? {
      e := Dispatch(h);
      t := Dispatched(s, h, s.callers[h].op);
    } else {
      var id := s.callers[h].id;
      assert InFlight(s) == Some((h, id));
      if s.replies[id].Empty? {
        e := Receive;
        t := s.(queue := s.queue[1..], worker := Executing(s.queue[0]), started := s.started + [s.queue[0]]);
      } else {
        e := TakeReply(h);
        t := Replied(s, h, id);
      }
    }
  }

  lemma JoinerCanStep(s: System) returns (e: Event, t: System)
    requires Invariant(s) && s.joinLock.Some? && s.senderLock.None? && (s.worker.Waiting? || s.worker.Gone?)
    ensures !e.Call? && Next(s, e, t)
  {
    hide Starting, AllTruthful;
    var j := s.joinLock.value;
    if s.worker.Gone? {
      e := Joined(j);
      var result := s.callers[j].result;
      t := Put(s, j, Done(if result.Success? && s.worker.panicked then Failure(WorkerPanic) else result, None))
           .(joinLock := None);
    } else {
      assert InFlight(s) == None;
      e := Disconnect;
      t := s.(worker := Leaving);
    }
  }

  /** How many steps a caller or the worker can still take on its own. */
  function CallerRank(x: Caller): nat {
    match x
    case Idle => 0
    case WantSender(_) => 9
    case Holding(_) => 8
    case AwaitReply(_) => 4
    case WantJoin(_) => 3
    case Joining(_) => 2
    case Done(_, _) => 0
  }

  function Ranks(callers: seq<Caller>): nat {
    if callers == [] then 0 else CallerRank(callers[0]) + Ranks(callers[1..])
  }

  function WorkerRank(w: Thread): nat {
    match w
    case Waiting => 3
    case Executing(_) => 5
    case Leaving => 1
    case Gone(_) => 0
  }

  function Remaining(s: System): nat {
    Ranks(s.callers) + 3 * |s.queue| + WorkerRank(s.worker)
  }

  lemma {:induction false} RanksPut(callers: seq<Caller>, c: nat, x: Caller)
    requires c < |callers|
    ensures Ranks(callers[c := x]) == Ranks(callers) - CallerRank(callers[c]) + CallerRank(x)
  {
    var after := callers[c := x];
    if c == 0 {
      assert after[1..] == callers[1..];
    } else {
      RanksPut(callers[1..], c - 1, x);
      assert after[1..] == callers[1..][c - 1 := x];
    }
  }

  lemma DispatchRunsOut(s: System, c: nat, op: Op)
    requires c < |s.callers| && s.callers[c] == Holding(op)
    ensures Remaining(Dispatched(s, c, op)) < Remaining(s)
  {
    hide Ranks;
    RanksPut(s.callers, c, Dispatched(s, c, op).callers[c]);
  }

  lemma ReplyRunsOut(s: System, c: nat, id: nat)
    requires c < |s.callers| && s.callers[c] == AwaitReply(id) && id < |s.issued| && id in s.replies
    ensures Remaining(Replied(s, c, id)) < Remaining(s)
  {
    hide Ranks;
    RanksPut(s.callers, c, Replied(s, c, id).callers[c]);
  }

  lemma LockRunsOut(s: System, e: Event, t: System)
    requires Next(s, e, t) && (e.LockSender? || e.LockJoin? || e.Joined?)
    ensures Remaining(t) < Remaining(s)
  {
    hide Ranks;
    RanksPut(s.callers, e.c, t.callers[e.c]);
  }

  /** Every step other than a new call uses up some of what remains, so with finitely many calls every run stops, and
      by `SomeStepIsEnabled` it stops only when every call has returned. */
  lemma StepsRunOut(s: System, e: Event, t: System)
    requires Next(s, e, t) && !e.Call?
    ensures Remaining(t) < Remaining(s)
  {
    if e.Dispatch? {
      DispatchRunsOut(s, e.c, s.callers[e.c].op);
    } else if e.TakeReply? {
      ReplyRunsOut(s, e.c, s.callers[e.c].id);
    } else if e.LockSender? || e.LockJoin? || e.Joined? {
      LockRunsOut(s, e, t);
    } else {
      hide Ranks, Disconnected;
    }
  }

  function Calls(events: seq<Event>): nat {
    if events == [] then 0
    else Calls(events[..|events| - 1]) + if events[|events| - 1].Call? then 1 else 0
  }

  lemma {:induction false} IdleRanks(callers: seq<Caller>)
    requires forall x <- callers :: x == Idle
    ensures Ranks(callers) == 0
  {
    if callers != [] {
      assert callers[0] in callers && callers == [callers[0]] + callers[1..];
      assert forall x <- callers[1..] :: x in callers;
      IdleRanks(callers[1..]);
    }
  }

  /** A run with n calls has at most 10 n + 3 steps: no caller waits forever, if each execution of the backend returns
      or panics. */
  lemma {:induction false} RunsAreBounded(states: seq<System>, events: seq<Event>, i: nat)
    requires IsRun(states, events) && i <= |events|
    ensures i + Remaining(states[i]) <= 10 * Calls(events[..i]) + 3
  {
    if i == 0 {
      IdleRanks(states[0].callers);
    } else {
      RunsAreBounded(states, events, i - 1);
      var s, e, t := states[i - 1], events[i - 1], states[i];
      assert events[..i][..i - 1] == events[..i - 1];
      if e.Call? {
        RanksPut(s.callers, e.c, WantSender(e.op));
      } else {
        StepsRunOut(s, e, t);
      }
    }
  }

  /** A run that cannot go on without a new call has answered every call. */
  lemma StuckMeansDone(states: seq<System>, events: seq<Event>, c: nat)
    requires IsRun(states, events)
    requires var s := states[|events|];
             c < |s.callers| && forall e, t :: Next(s, e, t) ==> e.Call?
    ensures !Busy(states[|events|].callers[c])
  {
    RunKeeps(states, events, |events|);
    if Busy(states[|events|].callers[c]) {
      var e, t := SomeStepIsEnabled(states[|events|], c);
    }
  }
}
