/** Every interleaving of calls on the native interface: runtimes, session caches and connections hold references
    to a runtime, and each runtime holds one reference to the process-global one. */
module NssLifecycle {
  import opened Wrappers
  import opened NssRuntime

  /** An allocated runtime object; `magic` is cleared when its owner frees it. */
  datatype Runtime = Runtime(references: nat, config: Config, magic: bool)

  datatype Holder = Cache(runtime: nat) | Connection(runtime: nat)

  /** `creating` are threads between global_acquire and the allocation of their runtime, `calls` the threads inside
      cache_create or connect, `releasing` the threads that dropped a runtime's last reference and have not yet
      taken the global lock. */
  datatype System = System(global: Global, runtimes: map<nat, Runtime>, holders: map<nat, Holder>,
                           creating: map<nat, Config>, calls: map<nat, nat>, releasing: nat)

  datatype Event =
    | Acquire(thread: nat, config: Config, outcome: Outcome)
    | Allocate(thread: nat, id: nat)
    | AllocationFails(thread: nat)
    | BeginCall(thread: nat, id: nat)
    | Retain(thread: nat, holder: nat, asCache: bool)
    | Abandon(thread: nat)
    | FreeRuntime(id: nat)
    | FreeHolder(holder: nat)
    | GlobalRelease

  ghost predicate Init(s: System) {
    s == System(Global(0, None, [], multiset{}), map[], map[], map[], map[], 0)
  }

  /** `foxreq_real_runtime_release`: the thread that drops the last reference still has to release the global one. */
  function Dropped(s: System, id: nat): System
    requires id in s.runtimes && s.runtimes[id].references > 0
  {
    var r := s.runtimes[id];
    if r.references == 1 then s.(runtimes := s.runtimes - {id}, releasing := s.releasing + 1)
    else s.(runtimes := s.runtimes[id := r.(references := r.references - 1)])
  }

  /** What callers must respect, and what a step then does. A caller frees a runtime it owns and is not using, and
      frees each cache and connection once. */
  ghost predicate Next(s: System, e: Event, t: System) {
    match e
    case Acquire(thread, config, outcome) =>
      && thread !in s.creating && Acquires(s.global, config, t.global, outcome)
      && t == s.(global := t.global, creating := if outcome == Ok then s.creating[thread := config] else s.creating)
    case Allocate(thread, id) =>
      && thread in s.creating && id !in s.runtimes
      && t == s.(runtimes := s.runtimes[id := Runtime(1, s.creating[thread], true)], creating := s.creating - {thread})
    case AllocationFails(thread) =>
      && thread in s.creating
      && t == s.(creating := s.creating - {thread}, global := Released(s.global))
    case BeginCall(thread, id) =>
      && thread !in s.calls && id in s.runtimes && s.runtimes[id].magic
      && t == s.(calls := s.calls[thread := id])
    case Retain(thread, holder, asCache) =>
      && thread in s.calls && holder !in s.holders && s.calls[thread] in s.runtimes
      && var id := s.calls[thread];
         var r := s.runtimes[id];
         t == s.(calls := s.calls - {thread},
                 runtimes := s.runtimes[id := r.(references := r.references + 1)],
                 holders := s.holders[holder := if asCache then Cache(id) else Connection(id)])
    case Abandon(thread) =>
      thread in s.calls && t == s.(calls := s.calls - {thread})
    case FreeRuntime(id) =>
      && id in s.runtimes && s.runtimes[id].references > 0 && id !in s.calls.Values
      && t == if s.runtimes[id].magic
              then Dropped(s.(runtimes := s.runtimes[id := s.runtimes[id].(magic := false)]), id)
              else s
    case FreeHolder(holder) =>
      && holder in s.holders && s.holders[holder].runtime in s.runtimes
      && s.runtimes[s.holders[holder].runtime].references > 0
      && t == Dropped(s.(holders := s.holders - {holder}), s.holders[holder].runtime)
    case GlobalRelease =>
      s.releasing > 0 && t == s.(releasing := s.releasing - 1, global := Released(s.global))
  }

  // ----- the invariant -----

  /** The caches and connections that keep a runtime alive. */
  function HoldersOf(holders: map<nat, Holder>, id: nat): set<nat> {
    set h | h in holders && holders[h].runtime == id
  }

  /** The references a runtime must have: its owner's and its holders'. */
  function Owed(runtimes: map<nat, Runtime>, holders: map<nat, Holder>, id: nat): nat
    requires id in runtimes
  {
    |HoldersOf(holders, id)| + (if runtimes[id].magic then 1 else 0)
  }

  /** Each runtime's count equals its live holders. */
  ghost predicate Matched(runtimes: map<nat, Runtime>, holders: map<nat, Holder>) {
    && (forall id <- runtimes :: runtimes[id].references == Owed(runtimes, holders, id) > 0)
    && (forall h <- holders :: holders[h].runtime in runtimes)
  }

  /** The global count equals the allocated runtimes, creates in flight and releases in flight. */
  ghost predicate Counted(s: System) {
    Matched(s.runtimes, s.holders) && s.global.references == |s.runtimes| + |s.creating| + s.releasing
  }

  /** Everyone shares the one directory, profile and trust bundle. */
  ghost predicate Shared(s: System) {
    && (forall id <- s.runtimes :: s.global.Serves(s.runtimes[id].config))
    && (forall c <- s.creating :: s.global.Serves(s.creating[c]))
  }

  /** A call in progress works on a runtime whose owner still holds it. */
  ghost predicate CallsAreSafe(s: System) {
    forall c <- s.calls :: s.calls[c] in s.runtimes && s.runtimes[s.calls[c]].magic
  }

  ghost predicate Invariant(s: System) {
    s.global.Valid() && Counted(s) && Shared(s) && CallsAreSafe(s)
  }

  lemma MapAdd<K, V>(m: map<K, V>, k: K, v: V)
    ensures |m[k := v]| == |m| + (if k in m then 0 else 1)
  {
    assert m[k := v].Keys == m.Keys + {k};
  }

  lemma MapRemove<K, V>(m: map<K, V>, k: K)
    requires k in m
    ensures |m - {k}| == |m| - 1
  {
    assert (m - {k}).Keys == m.Keys - {k};
  }

  lemma HolderAdded(holders: map<nat, Holder>, h: nat, x: Holder, id: nat)
    requires h !in holders
    ensures |HoldersOf(holders[h := x], id)| == |HoldersOf(holders, id)| + (if x.runtime == id then 1 else 0)
  {
    var more := HoldersOf(holders[h := x], id);
    assert more == HoldersOf(holders, id) + (if x.runtime == id then {h} else {});
  }

  lemma HolderRemoved(holders: map<nat, Holder>, h: nat, id: nat)
    requires h in holders
    ensures |HoldersOf(holders - {h}, id)| == |HoldersOf(holders, id)| - (if holders[h].runtime == id then 1 else 0)
  {
    var fewer := HoldersOf(holders - {h}, id);
    assert fewer == HoldersOf(holders, id) - (if holders[h].runtime == id then {h} else {});
  }

  /** One runtime still counts the reference that is about to be dropped. */
  ghost predicate MatchedBut(runtimes: map<nat, Runtime>, holders: map<nat, Holder>, id: nat) {
    && id in runtimes && runtimes[id].references == Owed(runtimes, holders, id) + 1
    && (forall i <- runtimes :: i == id || runtimes[i].references == Owed(runtimes, holders, i) > 0)
    && (forall h <- holders :: holders[h].runtime in runtimes)
  }

  ghost predicate OneAbove(s: System, id: nat) {
    && s.global.Valid() && Shared(s) && CallsAreSafe(s) && MatchedBut(s.runtimes, s.holders, id)
    && s.global.references == |s.runtimes| + |s.creating| + s.releasing
  }

  lemma DropKeeps(s: System, id: nat)
    requires OneAbove(s, id)
    ensures Invariant(Dropped(s, id))
  {
    hide Shared, CallsAreSafe, Owed, Dropped, Invariant;
    if s.runtimes[id].references == 1 {
      LastDropKeeps(s, id);
    } else {
      EarlyDropKeeps(s, id);
    }
  }

  lemma EarlyDropMatched(runtimes: map<nat, Runtime>, holders: map<nat, Holder>, id: nat, r: Runtime)
    requires MatchedBut(runtimes, holders, id) && runtimes[id].references != 1
    requires r == runtimes[id].(references := runtimes[id].references - 1)
    ensures Matched(runtimes[id := r], holders)
  {
    hide HoldersOf;
    forall i <- runtimes
      ensures Owed(runtimes[id := r], holders, i) == Owed(runtimes, holders, i)
    {}
    hide Owed;
  }

  lemma EarlyDropKeeps(s: System, id: nat)
    requires OneAbove(s, id) && s.runtimes[id].references != 1
    ensures Invariant(Dropped(s, id))
  {
    hide TrustAnchors.AnchorsFrom, Owed, Matched;
    var r := s.runtimes[id];
    EarlyDropMatched(s.runtimes, s.holders, id, r.(references := r.references - 1));
    MapAdd(s.runtimes, id, r.(references := r.references - 1));
  }

  lemma LastDropMatched(runtimes: map<nat, Runtime>, holders: map<nat, Holder>, id: nat)
    requires MatchedBut(runtimes, holders, id) && runtimes[id].references == 1
    ensures Matched(runtimes - {id}, holders) && !runtimes[id].magic
  {
    hide HoldersOf;
    assert |HoldersOf(holders, id)| == 0;
    forall h | h in holders
      ensures holders[h].runtime in runtimes - {id}
    {
      IsHolder(holders, h);
    }
    forall i <- runtimes - {id}
      ensures Owed(runtimes - {id}, holders, i) == Owed(runtimes, holders, i)
    {}
  }

  lemma LastDropKeeps(s: System, id: nat)
    requires OneAbove(s, id) && s.runtimes[id].references == 1
    ensures Invariant(Dropped(s, id))
  {
    hide TrustAnchors.AnchorsFrom, Owed, Matched;
    LastDropMatched(s.runtimes, s.holders, id);
    MapRemove(s.runtimes, id);
  }

  lemma IsHolder(holders: map<nat, Holder>, h: nat)
    requires h in holders
    ensures |HoldersOf(holders, holders[h].runtime)| > 0
  {
    assert h in HoldersOf(holders, holders[h].runtime);
  }

  lemma AcquireKeeps(s: System, e: Event, t: System)
    requires Invariant(s) && Next(s, e, t) && e.Acquire?
    ensures Invariant(t)
  {
    hide Matched, TrustAnchors.AnchorsFrom;
    MapAdd(s.creating, e.thread, e.config);
    AcquireShares(s, e.config, t.global, e.outcome);
  }

  lemma AllocateKeeps(s: System, e: Event, t: System)
    requires Invariant(s) && Next(s, e, t) && e.Allocate?
    ensures Invariant(t)
  {
    hide HoldersOf, TrustAnchors.AnchorsFrom;
    MapAdd(s.runtimes, e.id, Runtime(1, s.creating[e.thread], true));
    MapRemove(s.creating, e.thread);
    NobodyHolds(s, e.id);
  }

  /** `u` still counts one reference that nothing in it accounts for. */
  lemma ReleaseOne(u: System)
    requires u.global.Valid() && Matched(u.runtimes, u.holders) && Shared(u) && CallsAreSafe(u)
    requires u.global.references == |u.runtimes| + |u.creating| + u.releasing + 1
    ensures Invariant(u.(global := Released(u.global)))
  {
    hide Matched, TrustAnchors.AnchorsFrom;
    EmptyBundle();
    if u.global.references == 1 {
      assert u.runtimes == map[] && u.creating == map[];
    }
  }

  lemma AllocationFailsKeeps(s: System, thread: nat)
    requires Invariant(s) && thread in s.creating
    ensures Invariant(s.(creating := s.creating - {thread}, global := Released(s.global)))
  {
    hide Matched, Released, Global.Valid, TrustAnchors.AnchorsFrom;
    MapRemove(s.creating, thread);
    ReleaseOne(s.(creating := s.creating - {thread}));
  }

  lemma GlobalReleaseKeeps(s: System)
    requires Invariant(s) && s.releasing > 0
    ensures Invariant(s.(releasing := s.releasing - 1, global := Released(s.global)))
  {
    hide Matched, Released, Global.Valid, TrustAnchors.AnchorsFrom;
    ReleaseOne(s.(releasing := s.releasing - 1));
  }

  lemma RetainMatched(runtimes: map<nat, Runtime>, holders: map<nat, Holder>, id: nat, r: Runtime, h: nat, x: Holder)
    requires Matched(runtimes, holders) && id in runtimes && h !in holders && x.runtime == id
    requires r == runtimes[id].(references := runtimes[id].references + 1)
    ensures Matched(runtimes[id := r], holders[h := x])
  {
    hide HoldersOf;
    forall i <- runtimes
      ensures Owed(runtimes[id := r], holders[h := x], i) == Owed(runtimes, holders, i) + (if i == id then 1 else 0)
    {
      HolderAdded(holders, h, x, i);
    }
    hide Owed;
  }

  lemma RetainKeeps(s: System, e: Event, t: System)
    requires Invariant(s) && Next(s, e, t) && e.Retain?
    ensures Invariant(t)
  {
    hide Matched, TrustAnchors.AnchorsFrom;
    var id := s.calls[e.thread];
    MapAdd(s.runtimes, id, t.runtimes[id]);
    RetainMatched(s.runtimes, s.holders, id, t.runtimes[id], e.holder, t.holders[e.holder]);
  }

  lemma DisownMatched(runtimes: map<nat, Runtime>, holders: map<nat, Holder>, id: nat, r: Runtime)
    requires Matched(runtimes, holders) && id in runtimes && runtimes[id].magic && r == runtimes[id].(magic := false)
    ensures MatchedBut(runtimes[id := r], holders, id)
  {
    hide HoldersOf;
    forall i <- runtimes
      ensures Owed(runtimes[id := r], holders, i) == Owed(runtimes, holders, i) - (if i == id then 1 else 0)
    {}
    hide Owed;
  }

  lemma FreeRuntimeKeeps(s: System, e: Event, t: System)
    requires Invariant(s) && Next(s, e, t) && e.FreeRuntime?
    ensures Invariant(t)
  {
    hide Matched, MatchedBut, TrustAnchors.AnchorsFrom, Dropped;
    var id := e.id;
    if s.runtimes[id].magic {
      var owned := s.(runtimes := s.runtimes[id := s.runtimes[id].(magic := false)]);
      DisownMatched(s.runtimes, s.holders, id, owned.runtimes[id]);
      MapAdd(s.runtimes, id, owned.runtimes[id]);
      assert forall c <- s.calls :: s.calls[c] in s.calls.Values;
      DropKeeps(owned, id);
    }
  }

  lemma ForgetMatched(runtimes: map<nat, Runtime>, holders: map<nat, Holder>, h: nat)
    requires Matched(runtimes, holders) && h in holders
    ensures MatchedBut(runtimes, holders - {h}, holders[h].runtime)
  {
    hide HoldersOf;
    forall i <- runtimes
      ensures Owed(runtimes, holders - {h}, i) == Owed(runtimes, holders, i) - (if i == holders[h].runtime then 1 else 0)
    {
      HolderRemoved(holders, h, i);
    }
    hide Owed;
  }

  lemma FreeHolderKeeps(s: System, e: Event, t: System)
    requires Invariant(s) && Next(s, e, t) && e.FreeHolder?
    ensures Invariant(t)
  {
    hide Matched, MatchedBut, TrustAnchors.AnchorsFrom, Dropped;
    ForgetMatched(s.runtimes, s.holders, e.holder);
    DropKeeps(s.(holders := s.holders - {e.holder}), s.holders[e.holder].runtime);
  }

  lemma StepKeeps(s: System, e: Event, t: System)
    requires Invariant(s) && Next(s, e, t)
    ensures Invariant(t)
  {
    hide Counted, Shared;
    match e
    case Acquire(_, _, _) => AcquireKeeps(s, e, t);
    case Allocate(_, _) => AllocateKeeps(s, e, t);
    case AllocationFails(thread) => AllocationFailsKeeps(s, thread);
    case BeginCall(_, _) => CallKeeps(s, e, t);
    case Retain(_, _, _) => RetainKeeps(s, e, t);
    case Abandon(_) => CallKeeps(s, e, t);
    case FreeRuntime(_) => FreeRuntimeKeeps(s, e, t);
    case FreeHolder(_) => FreeHolderKeeps(s, e, t);
    case GlobalRelease => GlobalReleaseKeeps(s);
  }

  lemma CallsOnly(s: System, calls: map<nat, nat>)
    requires Invariant(s) && forall c <- calls :: calls[c] in s.runtimes && s.runtimes[calls[c]].magic
    ensures Invariant(s.(calls := calls))
  {
    hide Matched, Global.Valid, Global.Serves;
  }

  lemma CallKeeps(s: System, e: Event, t: System)
    requires Invariant(s) && Next(s, e, t) && (e.BeginCall? || e.Abandon?)
    ensures Invariant(t)
  {
    hide Matched, Counted, Shared, Global.Valid;
    CallsOnly(s, t.calls);
  }

  lemma NobodyHolds(s: System, id: nat)
    requires Matched(s.runtimes, s.holders) && id !in s.runtimes
    ensures |HoldersOf(s.holders, id)| == 0
  {
    assert HoldersOf(s.holders, id) == {};
  }

  /** While anyone holds a reference, the shared configuration stays what it is. */
  lemma AcquireShares(s: System, c: Config, g: Global, r: Outcome)
    requires Invariant(s) && Acquires(s.global, c, g, r)
    ensures forall id <- s.runtimes :: g.Serves(s.runtimes[id].config)
    ensures forall th <- s.creating :: g.Serves(s.creating[th])
    ensures g.Valid()
  {
    if s.global.references == 0 {
      assert s.runtimes == map[] && s.creating == map[];
    }
  }

  // ----- runs -----

  ghost predicate IsRun(states: seq<System>, events: seq<Event>) {
    && |states| == |events| + 1 && Init(states[0])
    && forall i :: 0 <= i < |events| ==> Next(states[i], events[i], states[i + 1])
  }

  lemma {:induction false} RunKeeps(states: seq<System>, events: seq<Event>, i: nat)
    requires IsRun(states, events) && i < |states|
    ensures Invariant(states[i])
  {
    if i == 0 {
      EmptyBundle();
    } else {
      RunKeeps(states, events, i - 1);
      StepKeeps(states[i - 1], events[i - 1], states[i]);
    }
  }

  lemma StepKeepsLoaded(s: System, e: Event, t: System)
    requires Next(s, e, t) && s.global.loaded.Some?
    ensures t.global.loaded == s.global.loaded
  {}

  /** Directory and profile never change once a runtime is loaded, whatever is freed in between. */
  lemma {:induction false} LoadedIsPermanent(states: seq<System>, events: seq<Event>, i: nat, j: nat)
    requires IsRun(states, events) && i <= j < |states| && states[i].global.loaded.Some?
    ensures states[j].global.loaded == states[i].global.loaded
    decreases j
  {
    if i < j {
      LoadedIsPermanent(states, events, i, j - 1);
      StepKeepsLoaded(states[j - 1], events[j - 1], states[j]);
    }
  }

  /** Two runtimes of one process, alive at any two moments, have one directory and profile; alive at the same moment
      they also trust the same anchors. */
  lemma OneConfiguration(states: seq<System>, events: seq<Event>, i: nat, a: nat, j: nat, b: nat)
    requires IsRun(states, events) && i <= j < |states|
    requires a in states[i].runtimes && b in states[j].runtimes
    ensures states[i].runtimes[a].config.loaded == states[j].runtimes[b].config.loaded
    ensures i == j ==> states[i].runtimes[a].config == states[j].runtimes[b].config
  {
    RunKeeps(states, events, i);
    RunKeeps(states, events, j);
    LoadedIsPermanent(states, events, i, j);
  }

  /** No cache, connection or call in progress ever refers to a freed runtime. */
  lemma HoldersNeverDangle(states: seq<System>, events: seq<Event>, i: nat)
    requires IsRun(states, events) && i < |states|
    ensures var s := states[i];
            && (forall h <- s.holders :: s.holders[h].runtime in s.runtimes
                                         && s.runtimes[s.holders[h].runtime].references > 0)
            && (forall c <- s.calls :: s.calls[c] in s.runtimes && s.runtimes[s.calls[c]].magic)
  {
    RunKeeps(states, events, i);
  }

  /** The anchors of the shared bundle are installed exactly while somebody holds the runtime. */
  lemma AnchorsFollowHolders(states: seq<System>, events: seq<Event>, i: nat)
    requires IsRun(states, events) && i < |states|
    ensures var s := states[i];
            && (s.runtimes == map[] && s.creating == map[] && s.releasing == 0 <==> s.global.references == 0)
            && (s.global.references == 0 ==> s.global.live == multiset{} && s.holders == map[] && s.calls == map[])
            && forall id <- s.runtimes ::
                 var installed := TrustAnchors.AnchorsFrom(s.runtimes[id].config.bundle, 0);
                 installed.Some? && s.global.live == multiset(installed.value)
  {
    RunKeeps(states, events, i);
    EmptyBundle();
    var s := states[i];
    if s.global.references == 0 {
      assert s.runtimes == map[] && s.creating == map[];
      assert s.holders == map[];
    }
  }
}
