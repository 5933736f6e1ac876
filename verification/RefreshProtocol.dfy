/**
 The Go client as a transition system: Start, the background loop, user-called Refresh, Shutdown and
 a server whose catalogue changes between steps, interleaved at every lock operation, atomic load,
 channel operation and cache access.
 */
module RefreshProtocol {
  import opened Wrappers
  import opened Catalogue
  import opened SdkEvaluation
  import opened RefreshCache

  // ---------- the state ----------

  /** Who is inside a refresh. */
  datatype Caller = Starter | Background | User(id: nat)

  /** Where a refresh stands; everything after `Locking` holds the refresh mutex. */
  datatype Phase =
    | Locking
    | Checking
    | Sending
    | Awaiting(sent: Stats)
    | Arrived(sent: Stats, reply: Fetched, at: nat)
    | Recording(sent: Stats, reply: Fetched, at: nat)
    | Notifying(error: Option<RefreshError>, toggleCount: nat)
    | Unlocking

  datatype Event = RefreshSucceeded(toggleCount: nat) | RefreshFailed(error: RefreshError, consecutiveFailures: nat)

  datatype Mutex = Free | HeldBy(caller: Caller) | HeldByShutdown

  datatype Channel = NoChannel | Open | Closed

  /** The one Start call that won the compare-and-swap. */
  datatype StartPc = NotStarted | InitialRefresh | MakeStop | MakeDone | Spawn | StartReturned

  datatype LoopPc = NotSpawned | Waiting | InRefresh | Exiting | Gone

  /** The one Shutdown call that won the compare-and-swap. */
  datatype StopPc =
    | Idle | ReadStop | CloseStop | ReadDone | Receive(channel: bool)
    | LockForClear | Clearing | UnlockAfterClear | StopReturned

  datatype State = State(
    started: bool, shutdown: bool, stopRefresh: Channel, refreshDone: Channel,
    mutex: Mutex, active: map<Caller, Phase>,
    startChecked: nat,   // Start calls between their check and their compare-and-swap
    userChecked: nat,    // Refresh calls between their two loads
    starter: StartPc, loop: LoopPc, stopper: StopPc,
    cache: Snapshot, events: seq<Event>,
    history: seq<Payload>,  // the server's catalogue over time, the current one last
    asOf: nat,              // the instant the cached snapshot was last confirmed
    cleared: bool)

  function Init(p: Payload): State {
    State(false, false, NoChannel, NoChannel, Free, map[], 0, 0, NotStarted, NotSpawned, Idle,
          EMPTY, [], [p], 0, false)
  }

  // ---------- one refresh ----------

  /** The server's own answer, possibly with its ETag header lost on the way, or any failure. */
  datatype Answer = Fault(error: RefreshError) | FromServer(tagDropped: bool)

  function Reply(digest: Digest, p: Payload, sent: Stats, answer: Answer): Fetched {
    match answer
    case Fault(error) => FetchError(error)
    case FromServer(dropped) =>
      var r := Serve(digest, p, sent.etag);
      Interpret(if dropped then r.(etag := "") else r)
  }

  function Goto(st: State, who: Caller, phase: Phase): State {
    st.(active := st.active[who := phase])
  }

  function Leave(st: State, who: Caller): State {
    var out := st.(mutex := Free, active := st.active - {who});
    match who
    case Starter => out.(starter := MakeStop)
    case Background => out.(loop := Waiting)
    case User(_) => out
  }

  function Recorded(st: State, who: Caller, sent: Stats, reply: Fetched, at: nat, now: nat): State {
    match reply
    case FetchError(error) =>
      Goto(st, who, Notifying(Some(error), 0)).(cache := OnFailure(st.cache, error, now))
    case NotModified(etag) =>
      if st.cache.hasCatalog
      then Goto(st, who, Notifying(None, sent.toggleCount)).(cache := OnFreshness(st.cache, etag, now), asOf := at)
      else Goto(st, who, Notifying(Some(NoSnapshotYet), 0)).(cache := OnFailure(st.cache, NoSnapshotYet, now))
    case Catalog(toggles, etag, revision) =>
      Goto(st, who, Notifying(None, |toggles|)).(cache := OnCatalog(st.cache, toggles, etag, revision, now), asOf := at)
  }

  /** What the fetch of `who` returns if it is answered now. */
  function ReplyFor(digest: Digest, st: State, who: Caller, answer: Answer): Fetched
    requires who in st.active && |st.history| > 0
  {
    match st.active[who]
    case Awaiting(sent) => Reply(digest, st.history[|st.history| - 1], sent, answer)
    case _ => FetchError(NoSnapshotYet)
  }

  /** The next step of a refresh; `None` while the mutex is taken. */
  function RefreshStep(st: State, who: Caller, fetched: Fetched, now: nat): Option<State>
    requires who in st.active && |st.history| > 0
  {
    match st.active[who]
    case Locking => if st.mutex == Free then Some(Goto(st, who, Checking).(mutex := HeldBy(who))) else None
    case Checking => Some(Goto(st, who, if st.shutdown then Unlocking else Sending))
    case Sending => Some(Goto(st, who, Awaiting(st.cache.stats)))
    case Awaiting(sent) => Some(Goto(st, who, Arrived(sent, fetched, |st.history| - 1)))
    case Arrived(sent, reply, at) => Some(Goto(st, who, if st.shutdown then Unlocking else Recording(sent, reply, at)))
    case Recording(sent, reply, at) => Some(Recorded(st, who, sent, reply, at, now))
    case Notifying(error, count) =>
      var event := if error.None? then RefreshSucceeded(count)
                   else RefreshFailed(error.value, st.cache.stats.consecutiveFailures);
      Some(Goto(st, who, Unlocking).(events := st.events + [event]))
    case Unlocking => Some(Leave(st, who))
  }

  /** A step of `who` that stays in its refresh moves its own phase, and at most these other fields. */
  predicate Inside(st: State, n: State, who: Caller) {
    && who in n.active
    && n == st.(active := st.active[who := n.active[who]], mutex := n.mutex,
                events := n.events, cache := n.cache, asOf := n.asOf)
  }

  lemma RecordingIsInside(st: State, who: Caller, sent: Stats, reply: Fetched, at: nat, now: nat)
    ensures var n := Recorded(st, who, sent, reply, at, now);
      Inside(st, n, who) && n.active[who].Notifying? && n.mutex == st.mutex && n.events == st.events
  {
  }

  lemma GotoIsInside(st: State, who: Caller, phase: Phase)
    ensures var n := Goto(st, who, phase); Inside(st, n, who) && n.active[who] == phase
  {
  }

  lemma SendingIsInside(st: State, who: Caller, fetched: Fetched, now: nat)
    requires who in st.active && |st.history| > 0
    requires var phase := st.active[who]; phase.Checking? || phase.Sending? || phase.Awaiting? || phase.Arrived?
    ensures var n := RefreshStep(st, who, fetched, now);
      n.Some? && Inside(st, n.value, who) && n.value == Goto(st, who, n.value.active[who])
      && n.value.active[who] != Locking
  {
    var n := RefreshStep(st, who, fetched, now).value;
    GotoIsInside(st, who, n.active[who]);
  }

  lemma RefreshIsInside(st: State, who: Caller, fetched: Fetched, now: nat)
    requires who in st.active && |st.history| > 0 && st.active[who] != Unlocking
    ensures var n := RefreshStep(st, who, fetched, now);
      n.Some? ==> Inside(st, n.value, who) && n.value.active[who] != Locking
                  && n.value.mutex == (if st.active[who] == Locking then HeldBy(who) else st.mutex)
                  && (!st.active[who].Recording? ==> n.value.cache == st.cache && n.value.asOf == st.asOf)
  {
    match st.active[who]
    case Locking => GotoIsInside(st, who, Checking);
    case Recording(sent, reply, at) => RecordingIsInside(st, who, sent, reply, at, now);
    case Notifying(_, _) => GotoIsInside(st, who, Unlocking);
    case _ => SendingIsInside(st, who, fetched, now);
  }

  // ---------- all steps ----------

  datatype Action =
    | Edit(p: Payload)
    | StartCheck | StartSwap | StartStep
    | UserCheck | UserEnter(id: nat)
    | Refresh(who: Caller, answer: Answer, now: nat)
    | LoopTimer | LoopStop | LoopExit
    | ShutdownSwap | ShutdownStep

  function StartNext(st: State): Option<State> {
    match st.starter
    case MakeStop => Some(st.(stopRefresh := Open, starter := MakeDone))
    case MakeDone => Some(st.(refreshDone := Open, starter := Spawn))
    case Spawn => Some(st.(loop := Waiting, starter := StartReturned))
    case _ => None
  }

  function ShutdownNext(st: State): Option<State> {
    match st.stopper
    case ReadStop => Some(st.(stopper := if st.stopRefresh != NoChannel then CloseStop else LockForClear))
    case CloseStop => Some(st.(stopRefresh := Closed, stopper := ReadDone))
    case ReadDone => Some(st.(stopper := Receive(st.refreshDone != NoChannel)))
    case Receive(channel) => if channel && st.refreshDone == Closed then Some(st.(stopper := LockForClear)) else None
    case LockForClear => if st.mutex == Free then Some(st.(mutex := HeldByShutdown, stopper := Clearing)) else None
    case Clearing => Some(st.(cache := EMPTY, cleared := true, stopper := UnlockAfterClear))
    case UnlockAfterClear => Some(st.(mutex := Free, stopper := StopReturned))
    case _ => None
  }

  /** The successor, or `None` when the action cannot happen in `st`. */
  function Next(digest: Digest, st: State, a: Action): Option<State>
    requires |st.history| > 0
  {
    match a
    case Edit(p) => Some(st.(history := st.history + [p]))
    case StartCheck => Some(if st.shutdown then st else st.(startChecked := st.startChecked + 1))
    case StartSwap =>
      if st.startChecked == 0 then None
      else if st.started then Some(st.(startChecked := st.startChecked - 1))
      else Some(st.(startChecked := st.startChecked - 1, started := true, starter := InitialRefresh,
                    active := st.active[Starter := Locking]))
    case StartStep => StartNext(st)
    case UserCheck => Some(if st.shutdown then st else st.(userChecked := st.userChecked + 1))
    case UserEnter(id) =>
      if st.userChecked == 0 || User(id) in st.active then None
      else if !st.started then Some(st.(userChecked := st.userChecked - 1))
      else Some(st.(userChecked := st.userChecked - 1, active := st.active[User(id) := Locking]))
    case Refresh(who, answer, now) =>
      if who in st.active then RefreshStep(st, who, ReplyFor(digest, st, who, answer), now) else None
    case LoopTimer =>
      if st.loop == Waiting then Some(st.(loop := InRefresh, active := st.active[Background := Locking])) else None
    case LoopStop => if st.loop == Waiting && st.stopRefresh == Closed then Some(st.(loop := Exiting)) else None
    case LoopExit => if st.loop == Exiting then Some(st.(refreshDone := Closed, loop := Gone)) else None
    case ShutdownSwap => Some(if st.shutdown then st else st.(shutdown := true, stopper := ReadStop))
    case ShutdownStep => ShutdownNext(st)
  }

  /** Runs the actions that can happen and skips the others. */
  function Run(digest: Digest, st: State, actions: seq<Action>): (u: State)
    requires |st.history| > 0
    ensures st.history <= u.history
    decreases |actions|
  {
    if actions == [] then st
    else
      HistoryGrows(digest, st, actions[0]);
      Run(digest, Stepped(digest, st, actions[0]), actions[1..])
  }

  /** The state after `a`, or the same state if `a` cannot happen. */
  function Stepped(digest: Digest, st: State, a: Action): State
    requires |st.history| > 0
  {
    var n := Next(digest, st, a);
    if n.Some? then n.value else st
  }

  lemma HistoryGrows(digest: Digest, st: State, a: Action)
    requires |st.history| > 0
    ensures st.history <= Stepped(digest, st, a).history
  {
    if a.Refresh? && a.who in st.active && st.active[a.who] != Unlocking {
      RefreshIsInside(st, a.who, ReplyFor(digest, st, a.who, a.answer), a.now);
    }
  }

  // ---------- the invariant ----------

  predicate MutexOk(st: State) {
    && (forall w | w in st.active :: st.active[w] != Locking <==> st.mutex == HeldBy(w))
    && (st.mutex.HeldBy? ==> st.mutex.caller in st.active)
    && (st.mutex == HeldByShutdown <==> st.stopper in {Clearing, UnlockAfterClear})
  }

  predicate ControlOk(st: State) {
    && (Starter in st.active <==> st.starter == InitialRefresh)
    && (Background in st.active <==> st.loop == InRefresh)
    && (st.shutdown <==> st.stopper != Idle)
    && (st.cleared <==> st.stopper in {UnlockAfterClear, StopReturned})
    && (st.started <==> st.starter != NotStarted)
    && (st.loop != NotSpawned <==> st.starter == StartReturned)
  }

  /** A cached catalogue is one the server had, and a stored tag is that catalogue's tag. */
  predicate CacheOk(digest: Digest, st: State) {
    && (!st.cache.hasCatalog ==> st.cache.stats.etag == "" && st.cache.toggles == [])
    && (st.cache.hasCatalog ==>
          && st.asOf < |st.history|
          && st.cache.toggles == st.history[st.asOf].toggles
          && st.cache.stats.toggleCount == |st.cache.toggles|
          && st.cache.stats.revision == digest(st.history[st.asOf])
          && st.cache.stats.etag in {"", ETagOf(digest, st.history[st.asOf])})
  }

  predicate ReplyOk(digest: Digest, st: State, reply: Fetched, at: nat) {
    && at < |st.history| && st.asOf <= at
    && match reply
       case FetchError(_) => true
       case NotModified(etag) =>
         && st.cache.hasCatalog && st.history[st.asOf] == st.history[at]
         && etag in {"", ETagOf(digest, st.history[at])}
       case Catalog(toggles, etag, revision) =>
         && toggles == st.history[at].toggles && revision == digest(st.history[at])
         && etag in {"", ETagOf(digest, st.history[at])}
  }

  predicate PhaseOk(digest: Digest, st: State, phase: Phase) {
    match phase
    case Awaiting(sent) => sent == st.cache.stats
    case Arrived(sent, reply, at) => sent == st.cache.stats && ReplyOk(digest, st, reply, at)
    case Recording(sent, reply, at) => sent == st.cache.stats && ReplyOk(digest, st, reply, at)
    case _ => true
  }

  predicate PhasesOk(digest: Digest, st: State) {
    forall w | w in st.active :: PhaseOk(digest, st, st.active[w])
  }

  /** After the clear: an empty cache, and nobody in a refresh past its shutdown check. */
  predicate ClearedOk(st: State) {
    st.cleared ==>
      && st.cache == EMPTY
      && forall w | w in st.active :: st.active[w] in {Locking, Checking, Unlocking}
  }

  /** The part of the invariant that is about who may do what, whatever the catalogues. */
  predicate Orderly(st: State) {
    |st.history| > 0 && MutexOk(st) && ControlOk(st) && ClearedOk(st)
  }

  /** The part that is about the cached data. */
  predicate DataOk(digest: Digest, st: State) {
    st.asOf < |st.history| && CacheOk(digest, st) && PhasesOk(digest, st)
  }

  predicate Inv(digest: Digest, st: State) {
    Orderly(st) && DataOk(digest, st)
  }

  lemma InitOk(digest: Digest, p: Payload)
    ensures Inv(digest, Init(p))
  {
  }

  // ---------- every step is orderly ----------

  /** Only the holder of the mutex has a phase past `Locking`. */
  lemma OthersAreLocking(st: State, who: Caller)
    requires MutexOk(st) && who in st.active && st.active[who] != Locking
    ensures forall w | w in st.active && w != who :: st.active[w] == Locking
  {
  }

  /** Moving one caller to a phase inside the lock. */
  lemma InsideKeepsOrder(st: State, who: Caller, n: State)
    requires Orderly(st) && who in st.active
    requires st.active[who] == Locking ==> st.mutex == Free
    requires Inside(st, n, who) && n.mutex == HeldBy(who) && n.active[who] != Locking
    requires st.cleared ==> n.cache == st.cache && n.active[who] in {Checking, Unlocking}
    ensures Orderly(n)
  {
    forall w | w in n.active
      ensures n.active[w] != Locking <==> n.mutex == HeldBy(w)
    {
      assert w != who ==> w in st.active && n.active[w] == st.active[w];
    }
  }

  lemma LeaveKeepsOrder(st: State, who: Caller)
    requires Orderly(st) && who in st.active && st.active[who] == Unlocking
    ensures Orderly(Leave(st, who))
  {
    OthersAreLocking(st, who);
    var n := Leave(st, who);
    assert forall w | w in n.active :: w in st.active && n.active[w] == st.active[w];
  }

  lemma RefreshKeepsOrder(st: State, who: Caller, fetched: Fetched, now: nat)
    requires Orderly(st) && who in st.active
    ensures var n := RefreshStep(st, who, fetched, now); n.Some? ==> Orderly(n.value)
  {
    var n := RefreshStep(st, who, fetched, now);
    if st.active[who] == Unlocking {
      LeaveKeepsOrder(st, who);
    } else if n.Some? {
      RefreshIsInside(st, who, fetched, now);
      InsideKeepsOrder(st, who, n.value);
    }
  }

  /** A caller queues for the mutex. */
  lemma EnterKeepsOrder(st: State, who: Caller, n: State)
    requires Orderly(st) && who !in st.active && ControlOk(n)
    requires n == st.(active := st.active[who := Locking], started := n.started, startChecked := n.startChecked,
                      userChecked := n.userChecked, starter := n.starter, loop := n.loop)
    ensures Orderly(n)
  {
    assert st.mutex != HeldBy(who);
    forall w | w in n.active
      ensures n.active[w] != Locking <==> n.mutex == HeldBy(w)
    {
      assert w != who ==> w in st.active && n.active[w] == st.active[w];
    }
  }

  lemma StartSwapKeepsOrder(digest: Digest, st: State)
    requires Orderly(st)
    ensures Orderly(Stepped(digest, st, StartSwap))
  {
    if st.startChecked > 0 && !st.started {
      EnterKeepsOrder(st, Starter, Stepped(digest, st, StartSwap));
    }
  }

  lemma UserEnterKeepsOrder(digest: Digest, st: State, id: nat)
    requires Orderly(st)
    ensures Orderly(Stepped(digest, st, UserEnter(id)))
  {
    if st.userChecked > 0 && User(id) !in st.active && st.started {
      EnterKeepsOrder(st, User(id), Stepped(digest, st, UserEnter(id)));
    }
  }

  lemma TimerKeepsOrder(digest: Digest, st: State)
    requires Orderly(st)
    ensures Orderly(Stepped(digest, st, LoopTimer))
  {
    if st.loop == Waiting {
      EnterKeepsOrder(st, Background, Stepped(digest, st, LoopTimer));
    }
  }

  /** Steps that touch neither the refreshes, nor the mutex, nor the clear. */
  lemma AsideKeepsOrder(st: State, n: State)
    requires Orderly(st) && ControlOk(n) && n.active == st.active && n.mutex == st.mutex && n.cleared == st.cleared
    requires n.cache == st.cache && |n.history| > 0
    requires n.stopper in {Clearing, UnlockAfterClear} <==> st.stopper in {Clearing, UnlockAfterClear}
    ensures Orderly(n)
  {
  }

  lemma StartStepKeepsOrder(st: State)
    requires Orderly(st) && StartNext(st).Some?
    ensures Orderly(StartNext(st).value)
  {
    AsideKeepsOrder(st, StartNext(st).value);
  }

  lemma ClearKeepsOrder(st: State)
    requires Orderly(st) && st.stopper in {LockForClear, Clearing, UnlockAfterClear} && ShutdownNext(st).Some?
    ensures Orderly(ShutdownNext(st).value)
  {
    assert st.stopper == Clearing ==> forall w | w in st.active :: st.active[w] == Locking;
  }

  lemma ShutdownKeepsOrder(st: State)
    requires Orderly(st) && ShutdownNext(st).Some?
    ensures Orderly(ShutdownNext(st).value)
  {
    if st.stopper in {LockForClear, Clearing, UnlockAfterClear} {
      ClearKeepsOrder(st);
    } else {
      AsideKeepsOrder(st, ShutdownNext(st).value);
    }
  }

  lemma SmallStepKeepsOrder(digest: Digest, st: State, a: Action)
    requires Orderly(st) && (a.Edit? || a.StartCheck? || a.UserCheck? || a.LoopStop? || a.LoopExit? || a.ShutdownSwap?)
    ensures Orderly(Stepped(digest, st, a))
  {
    AsideKeepsOrder(st, Stepped(digest, st, a));
  }

  lemma StepKeepsOrder(digest: Digest, st: State, a: Action)
    requires Orderly(st)
    ensures Orderly(Stepped(digest, st, a))
  {
    match a
    case Refresh(who, answer, now) =>
      if who in st.active {
        RefreshKeepsOrder(st, who, ReplyFor(digest, st, who, answer), now);
      }
    case ShutdownStep =>
      if ShutdownNext(st).Some? {
        ShutdownKeepsOrder(st);
      }
    case StartStep =>
      if StartNext(st).Some? {
        StartStepKeepsOrder(st);
      }
    case StartSwap => StartSwapKeepsOrder(digest, st);
    case UserEnter(id) => UserEnterKeepsOrder(digest, st, id);
    case LoopTimer => TimerKeepsOrder(digest, st);
    case _ => SmallStepKeepsOrder(digest, st, a);
  }

  // ---------- every step keeps the data ----------

  /** What a reply says, given what the cache held when the request was sent. */
  lemma ReplyIsOk(digest: Digest, st: State, answer: Answer)
    requires |st.history| > 0 && HexDigest(digest, st.history) && st.asOf < |st.history| && CacheOk(digest, st)
    ensures var at := |st.history| - 1;
      ReplyOk(digest, st, Reply(digest, st.history[at], st.cache.stats, answer), at)
  {
    match answer
    case Fault(_) =>
    case FromServer(dropped) => ServerReplyIsOk(digest, st, dropped);
  }

  lemma ServerReplyIsOk(digest: Digest, st: State, dropped: bool)
    requires |st.history| > 0 && HexDigest(digest, st.history) && st.asOf < |st.history| && CacheOk(digest, st)
    ensures var at := |st.history| - 1;
      ReplyOk(digest, st, Reply(digest, st.history[at], st.cache.stats, FromServer(dropped)), at)
  {
    var p := st.history[|st.history| - 1];
    var r := Serve(digest, p, st.cache.stats.etag);
    HexTagIsSafe(digest, p);
    NotModifiedIsCurrent(digest, st);
    InterpretedIff(if dropped then r.(etag := "") else r);
  }

  /** A 304 answers the tag of the cached catalogue, which is then the current one. */
  lemma NotModifiedIsCurrent(digest: Digest, st: State)
    requires |st.history| > 0 && HexDigest(digest, st.history) && st.asOf < |st.history| && CacheOk(digest, st)
    ensures var p := st.history[|st.history| - 1];
      Serve(digest, p, st.cache.stats.etag).status == 304 ==> st.cache.hasCatalog && st.history[st.asOf] == p
  {
    var p := st.history[|st.history| - 1];
    var cached := if st.cache.stats.etag != "" then st.history[st.asOf] else p;
    FewerToTellApart(digest, st.history, [cached, p]);
    NotModifiedIff(digest, cached, p);
  }

  /** Moving one caller to a phase that holds of an unchanged cache. */
  lemma InsideKeepsData(digest: Digest, st: State, who: Caller, n: State)
    requires DataOk(digest, st) && who in n.active && PhaseOk(digest, st, n.active[who])
    requires n.active == st.active[who := n.active[who]]
    requires n.cache == st.cache && n.history == st.history && n.asOf == st.asOf
    ensures DataOk(digest, n)
  {
    forall w | w in n.active
      ensures PhaseOk(digest, n, n.active[w])
    {
      assert w != who ==> PhaseOk(digest, st, st.active[w]);
    }
  }

  lemma RecordedCacheIsOk(digest: Digest, st: State, who: Caller, sent: Stats, reply: Fetched, at: nat, now: nat)
    requires CacheOk(digest, st) && ReplyOk(digest, st, reply, at) && sent == st.cache.stats && st.asOf < |st.history|
    ensures var n := Recorded(st, who, sent, reply, at, now);
      && CacheOk(digest, n) && n.asOf < |n.history|
      && n.active == st.active[who := n.active[who]] && n.active[who].Notifying?
  {
  }

  /** While one caller records, the others wait for the mutex, so their phases do not mention the cache. */
  lemma RecordKeepsData(digest: Digest, st: State, who: Caller, now: nat)
    requires Inv(digest, st) && who in st.active && st.active[who].Recording?
    ensures var Recording(sent, reply, at) := st.active[who]; DataOk(digest, Recorded(st, who, sent, reply, at, now))
  {
    var Recording(sent, reply, at) := st.active[who];
    var n := Recorded(st, who, sent, reply, at, now);
    assert PhaseOk(digest, st, st.active[who]);
    RecordedCacheIsOk(digest, st, who, sent, reply, at, now);
    OthersAreLocking(st, who);
    assert forall w | w in n.active && w != who :: n.active[w] == Locking;
  }

  lemma AnswerKeepsData(digest: Digest, st: State, who: Caller, answer: Answer, n: State)
    requires Inv(digest, st) && HexDigest(digest, st.history) && who in st.active && st.active[who].Awaiting?
    requires n == Goto(st, who, Arrived(st.active[who].sent, ReplyFor(digest, st, who, answer), |st.history| - 1))
    ensures DataOk(digest, n)
  {
    assert PhaseOk(digest, st, st.active[who]);
    ReplyIsOk(digest, st, answer);
    InsideKeepsData(digest, st, who, n);
  }

  lemma AdvanceKeepsData(digest: Digest, st: State, who: Caller, fetched: Fetched, now: nat)
    requires DataOk(digest, st) && who in st.active
    requires var phase := st.active[who]; !phase.Recording? && !phase.Unlocking? && !phase.Awaiting?
    ensures var n := RefreshStep(st, who, fetched, now); n.Some? ==> DataOk(digest, n.value)
  {
    var n := RefreshStep(st, who, fetched, now);
    if n.Some? {
      RefreshIsInside(st, who, fetched, now);
      assert PhaseOk(digest, st, st.active[who]);
      AdvancedPhaseOk(digest, st, who, fetched, now);
      InsideKeepsData(digest, st, who, n.value);
    }
  }

  lemma AdvancedPhaseOk(digest: Digest, st: State, who: Caller, fetched: Fetched, now: nat)
    requires |st.history| > 0 && who in st.active && PhaseOk(digest, st, st.active[who])
    requires var phase := st.active[who]; !phase.Recording? && !phase.Unlocking? && !phase.Awaiting?
    ensures var n := RefreshStep(st, who, fetched, now);
      n.Some? ==> who in n.value.active && PhaseOk(digest, st, n.value.active[who])
  {
    match st.active[who]
    case Arrived(sent, reply, at) => assert PhaseOk(digest, st, Recording(sent, reply, at));
    case _ =>
  }

  lemma RefreshKeepsData(digest: Digest, st: State, who: Caller, answer: Answer, now: nat)
    requires Inv(digest, st) && HexDigest(digest, st.history) && who in st.active
    ensures var n := RefreshStep(st, who, ReplyFor(digest, st, who, answer), now);
      n.Some? ==> DataOk(digest, n.value)
  {
    var n := RefreshStep(st, who, ReplyFor(digest, st, who, answer), now);
    match st.active[who]
    case Recording(_, _, _) => RecordKeepsData(digest, st, who, now);
    case Unlocking => SameDataKept(digest, st, n.value);
    case Awaiting(_) => AnswerKeepsData(digest, st, who, answer, n.value);
    case _ => AdvanceKeepsData(digest, st, who, ReplyFor(digest, st, who, answer), now);
  }

  /** Steps that leave the data alone; whoever is new in a refresh only queues. */
  lemma SameDataKept(digest: Digest, st: State, n: State)
    requires DataOk(digest, st) && n.cache == st.cache && n.history == st.history && n.asOf == st.asOf
    requires forall w | w in n.active :: n.active[w] == Locking || (w in st.active && n.active[w] == st.active[w])
    ensures DataOk(digest, n)
  {
    forall w | w in n.active
      ensures PhaseOk(digest, n, n.active[w])
    {
      assert n.active[w] != Locking ==> PhaseOk(digest, st, st.active[w]);
    }
  }

  lemma EditKeepsData(digest: Digest, st: State, p: Payload)
    requires DataOk(digest, st)
    ensures DataOk(digest, st.(history := st.history + [p]))
  {
    var n := st.(history := st.history + [p]);
    forall w | w in n.active
      ensures PhaseOk(digest, n, n.active[w])
    {
      assert PhaseOk(digest, st, st.active[w]);
    }
  }

  lemma ShutdownKeepsData(digest: Digest, st: State)
    requires Inv(digest, st) && ShutdownNext(st).Some?
    ensures DataOk(digest, ShutdownNext(st).value)
  {
    if st.stopper == Clearing {
      assert forall w | w in st.active :: st.active[w] == Locking;
    } else {
      SameDataKept(digest, st, ShutdownNext(st).value);
    }
  }

  lemma CallKeepsData(digest: Digest, st: State, a: Action)
    requires DataOk(digest, st)
    requires a.StartCheck? || a.StartSwap? || a.StartStep? || a.UserCheck? || a.UserEnter?
    ensures DataOk(digest, Stepped(digest, st, a))
  {
    SameDataKept(digest, st, Stepped(digest, st, a));
  }

  lemma OtherStepKeepsData(digest: Digest, st: State, a: Action)
    requires DataOk(digest, st) && (a.LoopTimer? || a.LoopStop? || a.LoopExit? || a.ShutdownSwap?)
    ensures DataOk(digest, Stepped(digest, st, a))
  {
    SameDataKept(digest, st, Stepped(digest, st, a));
  }

  lemma StepKeepsData(digest: Digest, st: State, a: Action)
    requires Inv(digest, st) && HexDigest(digest, st.history)
    ensures DataOk(digest, Stepped(digest, st, a))
  {
    match a
    case Edit(p) => EditKeepsData(digest, st, p);
    case Refresh(who, answer, now) =>
      if who in st.active {
        RefreshKeepsData(digest, st, who, answer, now);
      }
    case ShutdownStep =>
      if ShutdownNext(st).Some? {
        ShutdownKeepsData(digest, st);
      }
    case StartCheck => CallKeepsData(digest, st, a);
    case StartSwap => CallKeepsData(digest, st, a);
    case StartStep => CallKeepsData(digest, st, a);
    case UserCheck => CallKeepsData(digest, st, a);
    case UserEnter(_) => CallKeepsData(digest, st, a);
    case _ => OtherStepKeepsData(digest, st, a);
  }

  lemma StepKeepsInv(digest: Digest, st: State, a: Action)
    requires Inv(digest, st) && HexDigest(digest, st.history)
    ensures Inv(digest, Stepped(digest, st, a))
  {
    StepKeepsOrder(digest, st, a);
    StepKeepsData(digest, st, a);
  }

  lemma {:induction false} RunKeepsOrder(digest: Digest, st: State, actions: seq<Action>)
    requires Orderly(st)
    ensures Orderly(Run(digest, st, actions))
    decreases |actions|
  {
    if actions != [] {
      StepKeepsOrder(digest, st, actions[0]);
      RunKeepsOrder(digest, Stepped(digest, st, actions[0]), actions[1..]);
    }
  }

  /** The digest has to tell apart the catalogues of this run, and no others. */
  lemma {:induction false} RunKeepsInv(digest: Digest, st: State, actions: seq<Action>)
    requires Inv(digest, st) && HexDigest(digest, Run(digest, st, actions).history)
    ensures Inv(digest, Run(digest, st, actions))
    decreases |actions|
  {
    if actions != [] {
      FewerToTellApart(digest, Run(digest, st, actions).history, st.history);
      StepKeepsInv(digest, st, actions[0]);
      RunKeepsInv(digest, Stepped(digest, st, actions[0]), actions[1..]);
    }
  }

  /** Such digests exist for every pair of catalogues, and a run that sees both. */
  lemma SomeDigestServes(p: Payload, q: Payload) returns (digest: Digest, actions: seq<Action>)
    ensures Run(digest, Init(p), actions).history == [p, q]
    ensures HexDigest(digest, Run(digest, Init(p), actions).history)
  {
    digest := TwoCanBeToldApart(p, q);
    actions := [Edit(q)];
    assert actions[1..] == [];
    assert [p] + [q] == [p, q];
  }

  /** What a refresh step leaves alone, and how a finished refresh hands control back. */
  predicate Framed(st: State, n: State, who: Caller) {
    && n.started == st.started && n.shutdown == st.shutdown && n.stopper == st.stopper && n.cleared == st.cleared
    && n.stopRefresh == st.stopRefresh && n.refreshDone == st.refreshDone && n.startChecked == st.startChecked
    && (n.starter == st.starter || (who == Starter && n.starter == MakeStop))
    && (n.loop == st.loop || (who == Background && n.loop == Waiting))
  }

  lemma RefreshIsFramed(st: State, who: Caller, fetched: Fetched, now: nat)
    requires who in st.active && |st.history| > 0
    ensures var n := RefreshStep(st, who, fetched, now); n.Some? ==> Framed(st, n.value, who)
  {
    if st.active[who] != Unlocking {
      RefreshIsInside(st, who, fetched, now);
    }
  }

  // ---------- coherence ----------

  /** `n` records `reply`, which was sent at instant `at`, on top of `st`. */
  predicate Coherent(digest: Digest, st: State, who: Caller, reply: Fetched, at: nat, n: State) {
    if reply.FetchError? then
      && n.cache.toggles == st.cache.toggles && n.asOf == st.asOf
      && n.cache.hasCatalog == st.cache.hasCatalog && n.cache.stats.etag == st.cache.stats.etag
      && n.cache.stats.lastError == Some(reply.error)
      && n.cache.stats.consecutiveFailures == st.cache.stats.consecutiveFailures + 1
      && who in n.active && n.active[who] == Notifying(Some(reply.error), 0)
    else
      && (reply.NotModified? ==> st.cache.hasCatalog)
      && n.cache.hasCatalog && at < |n.history| && st.asOf <= at == n.asOf
      && n.cache.toggles == n.history[at].toggles
      && n.cache.stats.revision == digest(n.history[at])
      && n.cache.stats.etag in {"", ETagOf(digest, n.history[at])}
      && n.cache.stats.consecutiveFailures == 0
      && who in n.active && n.active[who] == Notifying(None, |n.cache.toggles|)
  }

  lemma RecordingIsCoherent(digest: Digest, st: State, who: Caller, now: nat)
    requires Inv(digest, st) && who in st.active && st.active[who].Recording?
    ensures var Recording(sent, reply, at) := st.active[who];
      Coherent(digest, st, who, reply, at, Recorded(st, who, sent, reply, at, now))
  {
    var Recording(sent, reply, at) := st.active[who];
    assert PhaseOk(digest, st, st.active[who]);
    RecordedCacheIsOk(digest, st, who, sent, reply, at, now);
  }

  /** A 304 that comes before any snapshot, from whatever server, is recorded as a failure of its own kind. */
  lemma EarlyNotModifiedFails(st: State, who: Caller, sent: Stats, etag: string, at: nat, now: nat)
    requires !st.cache.hasCatalog
    ensures var n := Recorded(st, who, sent, NotModified(etag), at, now);
      && n.active == st.active[who := Notifying(Some(NoSnapshotYet), 0)]
      && !n.cache.hasCatalog && n.cache.toggles == st.cache.toggles && n.cache.stats.etag == st.cache.stats.etag
      && n.cache.stats.lastError == Some(NoSnapshotYet) && n.cache.stats.lastErrorAt == Some(now)
      && n.cache.stats.consecutiveFailures == st.cache.stats.consecutiveFailures + 1
  {
  }

  lemma NextRecords(digest: Digest, st: State, who: Caller, answer: Answer, now: nat)
    requires |st.history| > 0 && who in st.active && st.active[who].Recording?
    ensures var Recording(sent, reply, at) := st.active[who];
      Next(digest, st, Refresh(who, answer, now)) == Some(Recorded(st, who, sent, reply, at, now))
  {
  }

  /**
   In every reachable state, a refresh that records a success (200 or 304) leaves the cache equal to
   the catalogue the server had when it answered, at an instant no earlier than the cache's last one.
   A 304 is never recorded before the first snapshot.
   */
  lemma RecordedIsCoherent(digest: Digest, p: Payload, actions: seq<Action>, who: Caller, answer: Answer, now: nat)
    requires var st := Run(digest, Init(p), actions);
      HexDigest(digest, st.history) && who in st.active && st.active[who].Recording?
    ensures var st := Run(digest, Init(p), actions);
      var n := Next(digest, st, Refresh(who, answer, now));
      n.Some? && Coherent(digest, st, who, st.active[who].reply, st.active[who].at, n.value)
  {
    InitOk(digest, p);
    RunKeepsInv(digest, Init(p), actions);
    RecordingIsCoherent(digest, Run(digest, Init(p), actions), who, now);
    NextRecords(digest, Run(digest, Init(p), actions), who, answer, now);
  }

  lemma RefreshMovesForward(digest: Digest, st: State, who: Caller, fetched: Fetched, now: nat)
    requires Inv(digest, st) && who in st.active
    ensures var n := RefreshStep(st, who, fetched, now); n.Some? ==> st.asOf <= n.value.asOf
  {
    assert PhaseOk(digest, st, st.active[who]);
  }

  lemma StepMovesForward(digest: Digest, st: State, a: Action)
    requires Inv(digest, st)
    ensures st.asOf <= Stepped(digest, st, a).asOf
  {
    if a.Refresh? && a.who in st.active {
      RefreshMovesForward(digest, st, a.who, ReplyFor(digest, st, a.who, a.answer), a.now);
    }
  }

  lemma {:induction false} RunMovesForward(digest: Digest, st: State, actions: seq<Action>)
    requires Inv(digest, st) && HexDigest(digest, Run(digest, st, actions).history)
    ensures st.asOf <= Run(digest, st, actions).asOf
    decreases |actions|
  {
    if actions != [] {
      FewerToTellApart(digest, Run(digest, st, actions).history, st.history);
      StepKeepsInv(digest, st, actions[0]);
      StepMovesForward(digest, st, actions[0]);
      RunMovesForward(digest, Stepped(digest, st, actions[0]), actions[1..]);
    }
  }

  /**
   One evaluation. Its two loads of the flags come first, at any earlier instants, and `usable` is what
   they saw; the lookup happens in `st`, in one step under the cache's lock.
   */
  predicate Read(usable: bool, st: State, path: string, matches: Matcher) {
    usable && SdkEvaluation.Answer(Index(st.cache.toggles), path, matches)
  }

  /** The answer of the catalogue that the server had at the instant the snapshot stands for. */
  predicate ServerHad(st: State, path: string, matches: Matcher)
    requires st.asOf < |st.history|
  {
    st.cache.hasCatalog && SdkEvaluation.Answer(Index(st.history[st.asOf].toggles), path, matches)
  }

  /**
   Readers: a read answers exactly as one catalogue the server really had, or false without a snapshot,
   and a later read never answers as an older catalogue than an earlier one.
   */
  lemma ReadsNeverGoBack(digest: Digest, p: Payload, before: seq<Action>, after: seq<Action>,
                         usable: bool, path: string, matches: Matcher)
    requires HexDigest(digest, Run(digest, Run(digest, Init(p), before), after).history)
    ensures var st := Run(digest, Init(p), before);
      var u := Run(digest, st, after);
      && st.history <= u.history && st.asOf <= u.asOf < |u.history| && st.asOf < |st.history|
      && (Read(usable, st, path, matches) <==> usable && ServerHad(st, path, matches))
      && (Read(usable, u, path, matches) <==> usable && ServerHad(u, path, matches))
  {
    InitOk(digest, p);
    var st := Run(digest, Init(p), before);
    FewerToTellApart(digest, Run(digest, st, after).history, st.history);
    RunKeepsInv(digest, Init(p), before);
    RunKeepsInv(digest, st, after);
    RunMovesForward(digest, st, after);
  }

  // ---------- shutdown is terminal ----------

  lemma RefreshAfterClear(st: State, who: Caller, fetched: Fetched, now: nat)
    requires Orderly(st) && st.cleared && who in st.active
    ensures var n := RefreshStep(st, who, fetched, now);
      n.Some? ==> n.value.cleared && n.value.events == st.events
  {
  }

  lemma StepAfterClear(digest: Digest, st: State, a: Action)
    requires Orderly(st) && st.cleared
    ensures var n := Stepped(digest, st, a); n.cleared && n.events == st.events
  {
    if a.Refresh? && a.who in st.active {
      RefreshAfterClear(st, a.who, ReplyFor(digest, st, a.who, a.answer), a.now);
    }
  }

  lemma {:induction false} ClearedStaysCleared(digest: Digest, st: State, actions: seq<Action>)
    requires Orderly(st) && st.cleared
    ensures var u := Run(digest, st, actions);
      u.cleared && u.cache == EMPTY && u.events == st.events
    decreases |actions|
  {
    if actions != [] {
      StepKeepsOrder(digest, st, actions[0]);
      StepAfterClear(digest, st, actions[0]);
      ClearedStaysCleared(digest, Stepped(digest, st, actions[0]), actions[1..]);
    }
  }

  /**
   In every interleaving, from Shutdown's clear on the cache is empty forever, no refresh success or
   failure is recorded or notified any more, and every evaluation answers false, whatever its loads saw
   before. This holds for any digest at all.
   */
  lemma ShutdownIsTerminal(digest: Digest, p: Payload, before: seq<Action>, after: seq<Action>,
                           usable: bool, path: string, matches: Matcher)
    requires Run(digest, Init(p), before).cleared
    ensures var st := Run(digest, Init(p), before);
      var u := Run(digest, st, after);
      u.cache == EMPTY && u.events == st.events && !Read(usable, u, path, matches)
  {
    InitOk(digest, p);
    RunKeepsOrder(digest, Init(p), before);
    ClearedStaysCleared(digest, Run(digest, Init(p), before), after);
  }
}
