/**
 What the Go client reports: in every interleaving the reported refreshes are those that the cache has
 recorded, one event each, and after Shutdown has begun no new request is sent, recorded or reported.
 */
module RefreshEvents {
  import opened Wrappers
  import opened Catalogue
  import opened RefreshCache
  import opened RefreshProtocol

  // ---------- what the reports have to say ----------

  /** How many failures the reports end with. */
  function InARow(events: seq<Event>): nat {
    if events != [] && events[|events| - 1].RefreshFailed? then 1 + InARow(events[..|events| - 1]) else 0
  }

  /** A reported failure says how many there have been in a row, itself included. */
  predicate CountsItself(events: seq<Event>, k: nat)
    requires k < |events|
  {
    events[k].RefreshFailed? ==> events[k].consecutiveFailures == InARow(events[..k + 1])
  }

  predicate AllCount(events: seq<Event>) {
    forall k | 0 <= k < |events| :: CountsItself(events, k)
  }

  /** A refresh has been recorded and is about to be reported. */
  predicate Reporting(st: State) {
    st.mutex.HeldBy? && st.mutex.caller in st.active && st.active[st.mutex.caller].Notifying?
  }

  /** All that was recorded has been reported, the last refresh last. */
  predicate Reported(st: State) {
    && st.cache.stats.consecutiveFailures == InARow(st.events)
    && (st.events != [] ==>
          match st.events[|st.events| - 1]
          case RefreshFailed(error, _) => st.cache.stats.lastError == Some(error)
          case RefreshSucceeded(count) => count == |st.cache.toggles|)
  }

  /** All but what is about to be reported. */
  predicate AboutToReport(st: State, error: Option<RefreshError>, count: nat) {
    && (error.Some? ==>
          st.cache.stats.consecutiveFailures == InARow(st.events) + 1 && st.cache.stats.lastError == error)
    && (error.None? ==> st.cache.stats.consecutiveFailures == 0 && count == |st.cache.toggles|)
  }

  /** The statistics that a refresh took along are still those of the cache. */
  predicate SentIsCurrent(st: State, phase: Phase) {
    match phase
    case Awaiting(sent) => sent == st.cache.stats
    case Arrived(sent, _, _) => sent == st.cache.stats
    case Recording(sent, _, _) => sent == st.cache.stats
    case _ => true
  }

  predicate UpToDate(st: State) {
    && st.cache.stats.toggleCount == |st.cache.toggles|
    && (forall w | w in st.active :: SentIsCurrent(st, st.active[w]))
    && (if Reporting(st)
        then AboutToReport(st, st.active[st.mutex.caller].error, st.active[st.mutex.caller].toggleCount)
        else Reported(st))
  }

  predicate EventsOk(st: State) {
    AllCount(st.events) && (!st.cleared ==> UpToDate(st))
  }

  // ---------- every step keeps them ----------

  /** A step that leaves the cache, the reports and the holder of the mutex alone. */
  lemma AsideKeepsEvents(st: State, n: State)
    requires EventsOk(st) && n.cache == st.cache && n.events == st.events && n.cleared == st.cleared
    requires n.mutex == st.mutex || (!n.mutex.HeldBy? && !st.mutex.HeldBy?)
    requires forall w | w in st.active :: w in n.active && n.active[w] == st.active[w]
    requires forall w | w in n.active && w !in st.active :: n.active[w] == Locking && n.mutex != HeldBy(w)
    ensures EventsOk(n)
  {
  }

  /** A step of the holder that neither records nor reports. */
  lemma QuietKeepsEvents(st: State, who: Caller, n: State)
    requires EventsOk(st) && Orderly(st) && who in st.active
    requires st.active[who] == Locking ==> st.mutex == Free
    requires !st.active[who].Notifying? && Inside(st, n, who) && n.mutex == HeldBy(who)
    requires n.cache == st.cache && n.events == st.events && !n.active[who].Notifying?
    requires SentIsCurrent(st, n.active[who])
    ensures EventsOk(n)
  {
    assert forall w | w in n.active && w != who :: w in st.active && n.active[w] == st.active[w];
    assert st.active[who] != Locking ==> st.mutex == HeldBy(who);
  }

  lemma RecordingKeepsEvents(st: State, who: Caller, now: nat)
    requires EventsOk(st) && Orderly(st) && who in st.active && st.active[who].Recording?
    ensures var Recording(sent, reply, at) := st.active[who]; EventsOk(Recorded(st, who, sent, reply, at, now))
  {
    var Recording(sent, reply, at) := st.active[who];
    var n := Recorded(st, who, sent, reply, at, now);
    OthersAreLocking(st, who);
    assert SentIsCurrent(st, st.active[who]) && st.mutex == HeldBy(who) && !Reporting(st);
    assert !st.cleared;
    RecordedIsToReport(st, who, now);
    RecordingIsInside(st, who, sent, reply, at, now);
    ToReportIsUpToDate(who, n);
  }

  lemma ToReportIsUpToDate(who: Caller, n: State)
    requires n.mutex == HeldBy(who) && who in n.active && n.active[who].Notifying?
    requires forall w | w in n.active && w != who :: n.active[w] == Locking
    requires n.cache.stats.toggleCount == |n.cache.toggles|
    requires AboutToReport(n, n.active[who].error, n.active[who].toggleCount)
    ensures UpToDate(n)
  {
  }

  /** What is recorded is what will be reported. */
  lemma RecordedIsToReport(st: State, who: Caller, now: nat)
    requires who in st.active && st.active[who].Recording? && !st.cleared
    requires st.cache.stats.toggleCount == |st.cache.toggles| && st.active[who].sent == st.cache.stats && Reported(st)
    ensures var Recording(sent, reply, at) := st.active[who];
      var n := Recorded(st, who, sent, reply, at, now);
      && n.active[who].Notifying? && n.mutex == st.mutex && n.events == st.events && n.cleared == st.cleared
      && n.cache.stats.toggleCount == |n.cache.toggles|
      && AboutToReport(n, n.active[who].error, n.active[who].toggleCount)
  {
    match st.active[who].reply
    case FetchError(error) => FailureIsToReport(st, who, error, now);
    case NotModified(_) =>
      if st.cache.hasCatalog {
        FreshnessIsToReport(st, who, now);
      } else {
        FailureIsToReport(st, who, NoSnapshotYet, now);
      }
    case Catalog(_, _, _) =>
  }

  lemma FailureIsToReport(st: State, who: Caller, error: RefreshError, now: nat)
    requires st.cache.stats.consecutiveFailures == InARow(st.events)
    ensures AboutToReport(st.(cache := OnFailure(st.cache, error, now)), Some(error), 0)
  {
  }

  lemma FreshnessIsToReport(st: State, who: Caller, now: nat)
    requires who in st.active && st.active[who].Recording? && st.active[who].reply.NotModified? && st.cache.hasCatalog
    requires st.cache.stats.toggleCount == |st.cache.toggles| && st.active[who].sent == st.cache.stats
    ensures var Recording(sent, reply, at) := st.active[who];
      var n := Recorded(st, who, sent, reply, at, now);
      n.cache.stats.consecutiveFailures == 0 && n.active[who] == Notifying(None, |n.cache.toggles|)
      && n.cache.stats.toggleCount == |n.cache.toggles|
  {
  }

  lemma CountsOneMore(events: seq<Event>, event: Event)
    requires AllCount(events)
    requires event.RefreshFailed? ==> event.consecutiveFailures == InARow(events) + 1
    ensures AllCount(events + [event])
    ensures InARow(events + [event]) == if event.RefreshFailed? then InARow(events) + 1 else 0
  {
    var more := events + [event];
    assert more[..|events|] == events && more[..|events| + 1] == more;
    forall k | 0 <= k < |events|
      ensures CountsItself(more, k)
    {
      assert CountsItself(events, k);
      assert more[..k + 1] == events[..k + 1];
    }
  }

  lemma ReportingKeepsEvents(st: State, who: Caller, fetched: Fetched, now: nat)
    requires EventsOk(st) && Orderly(st) && who in st.active && st.active[who].Notifying?
    ensures var n := RefreshStep(st, who, fetched, now); n.Some? ==> EventsOk(n.value)
  {
    var n := RefreshStep(st, who, fetched, now).value;
    RefreshIsInside(st, who, fetched, now);
    OthersAreLocking(st, who);
    assert st.mutex == HeldBy(who) && Reporting(st);
    CountsOneMore(st.events, n.events[|st.events|]);
    assert forall w | w in n.active && w != who :: n.active[w] == Locking;
  }

  lemma LeavingKeepsEvents(st: State, who: Caller)
    requires EventsOk(st) && Orderly(st) && who in st.active && st.active[who] == Unlocking
    ensures EventsOk(Leave(st, who))
  {
    var n := Leave(st, who);
    assert st.mutex == HeldBy(who) && !Reporting(st) && !Reporting(n);
    assert forall w | w in n.active :: w in st.active && n.active[w] == st.active[w];
  }

  /** Phases without a request: nothing is sent, recorded or reported in them. */
  predicate Idling(phase: Phase) {
    phase in {Locking, Checking, Unlocking}
  }

  lemma RequestKeepsEvents(st: State, who: Caller, fetched: Fetched, now: nat)
    requires EventsOk(st) && Orderly(st) && who in st.active && !st.cleared
    requires !st.active[who].Recording? && !st.active[who].Notifying? && st.active[who] != Unlocking
    ensures var n := RefreshStep(st, who, fetched, now); n.Some? ==> EventsOk(n.value)
  {
    var n := RefreshStep(st, who, fetched, now);
    if n.Some? {
      RefreshIsInside(st, who, fetched, now);
      assert SentIsCurrent(st, st.active[who]);
      QuietKeepsEvents(st, who, n.value);
    }
  }

  lemma RefreshKeepsEvents(st: State, who: Caller, fetched: Fetched, now: nat)
    requires EventsOk(st) && Orderly(st) && who in st.active && !st.cleared
    ensures var n := RefreshStep(st, who, fetched, now); n.Some? ==> EventsOk(n.value)
  {
    match st.active[who]
    case Recording(_, _, _) => RecordingKeepsEvents(st, who, now);
    case Notifying(_, _) => ReportingKeepsEvents(st, who, fetched, now);
    case Unlocking => LeavingKeepsEvents(st, who);
    case _ => RequestKeepsEvents(st, who, fetched, now);
  }

  lemma ShutdownKeepsEvents(st: State)
    requires EventsOk(st) && Orderly(st) && ShutdownNext(st).Some?
    ensures EventsOk(ShutdownNext(st).value)
  {
    var n := ShutdownNext(st).value;
    if !n.cleared {
      AsideKeepsEvents(st, n);
    } else {
      assert n.events == st.events;
    }
  }

  lemma EnterKeepsEvents(digest: Digest, st: State, a: Action)
    requires EventsOk(st) && Orderly(st) && (a.StartSwap? || a.UserEnter? || a.LoopTimer?)
    ensures EventsOk(Stepped(digest, st, a))
  {
    AsideKeepsEvents(st, Stepped(digest, st, a));
  }

  lemma OtherStepKeepsEvents(digest: Digest, st: State, a: Action)
    requires EventsOk(st) && !a.Refresh? && !a.ShutdownStep? && !a.StartSwap? && !a.UserEnter? && !a.LoopTimer?
    ensures EventsOk(Stepped(digest, st, a))
    requires |st.history| > 0
  {
    AsideKeepsEvents(st, Stepped(digest, st, a));
  }

  lemma StepKeepsEvents(digest: Digest, st: State, a: Action)
    requires EventsOk(st) && Orderly(st)
    ensures EventsOk(Stepped(digest, st, a))
  {
    if st.cleared {
      StepAfterClear(digest, st, a);
    } else {
      match a
      case Refresh(who, answer, now) =>
        if who in st.active {
          RefreshKeepsEvents(st, who, ReplyFor(digest, st, who, answer), now);
        }
      case ShutdownStep =>
        if ShutdownNext(st).Some? {
          ShutdownKeepsEvents(st);
        }
      case StartSwap => EnterKeepsEvents(digest, st, a);
      case UserEnter(_) => EnterKeepsEvents(digest, st, a);
      case LoopTimer => EnterKeepsEvents(digest, st, a);
      case _ => OtherStepKeepsEvents(digest, st, a);
    }
  }

  lemma {:induction false} RunKeepsEvents(digest: Digest, st: State, actions: seq<Action>)
    requires EventsOk(st) && Orderly(st)
    ensures EventsOk(Run(digest, st, actions)) && Orderly(Run(digest, st, actions))
    decreases |actions|
  {
    if actions != [] {
      StepKeepsOrder(digest, st, actions[0]);
      StepKeepsEvents(digest, st, actions[0]);
      RunKeepsEvents(digest, Stepped(digest, st, actions[0]), actions[1..]);
    }
  }

  /**
   In every interleaving, for any digest: each reported failure says how many there have been in a row; and
   until Shutdown clears the cache, the cache's count of failures is that of the reports, its last error the
   one reported, and its number of toggles the one reported with a success, except while a refresh has been
   recorded and is about to be reported.
   */
  lemma ReportsAreRecorded(digest: Digest, p: Payload, actions: seq<Action>)
    ensures var st := Run(digest, Init(p), actions);
      && AllCount(st.events)
      && (!st.cleared && !Reporting(st) ==> Reported(st))
      && (!st.cleared && Reporting(st) ==>
            var phase := st.active[st.mutex.caller]; AboutToReport(st, phase.error, phase.toggleCount))
  {
    InitOk(digest, p);
    RunKeepsEvents(digest, Init(p), actions);
  }

  // ---------- nothing begins after shutdown ----------

  predicate NoRequest(st: State) {
    forall w | w in st.active :: Idling(st.active[w])
  }

  lemma IdleRefreshStaysIdle(st: State, who: Caller, fetched: Fetched, now: nat)
    requires |st.history| > 0 && st.shutdown && NoRequest(st) && who in st.active
    ensures var n := RefreshStep(st, who, fetched, now);
      n.Some? ==> n.value.shutdown && NoRequest(n.value) && n.value.events == st.events && n.value.cache == st.cache
  {
    var n := RefreshStep(st, who, fetched, now);
    if n.Some? {
      assert forall w | w in n.value.active && w != who :: w in st.active && n.value.active[w] == st.active[w];
    }
  }

  lemma IdleStepStaysIdle(digest: Digest, st: State, a: Action)
    requires |st.history| > 0 && st.shutdown && NoRequest(st)
    ensures var n := Stepped(digest, st, a);
      n.shutdown && NoRequest(n) && n.events == st.events && (n.cache == st.cache || n.cache == EMPTY)
  {
    if a.Refresh? && a.who in st.active {
      IdleRefreshStaysIdle(st, a.who, ReplyFor(digest, st, a.who, a.answer), a.now);
    }
  }

  /**
   From any state in which Shutdown has begun and no refresh is past its check, no request is sent any more
   and nothing is recorded or reported, whoever still waits for the mutex or comes later.
   */
  lemma {:induction false} NothingBeginsAfterShutdown(digest: Digest, st: State, actions: seq<Action>)
    requires |st.history| > 0 && st.shutdown && NoRequest(st)
    ensures var u := Run(digest, st, actions);
      NoRequest(u) && u.events == st.events && (u.cache == st.cache || u.cache == EMPTY)
    decreases |actions|
  {
    if actions != [] {
      IdleStepStaysIdle(digest, st, actions[0]);
      HistoryGrows(digest, st, actions[0]);
      NothingBeginsAfterShutdown(digest, Stepped(digest, st, actions[0]), actions[1..]);
    }
  }

  /** Nobody records or reports, though some may still wait for their answers. */
  predicate NoRecording(st: State) {
    forall w | w in st.active :: !st.active[w].Recording? && !st.active[w].Notifying?
  }

  /** One caller moves on, leaves or gets the mutex, and the others stay where they are. */
  lemma OneMovesOn(st: State, n: State, who: Caller)
    requires NoRecording(st) && forall w | w in n.active && w != who :: w in st.active && n.active[w] == st.active[w]
    requires who in n.active ==> !n.active[who].Recording? && !n.active[who].Notifying?
    ensures NoRecording(n)
  {
  }

  lemma LateRefreshIsDropped(st: State, who: Caller, fetched: Fetched, now: nat)
    requires |st.history| > 0 && st.shutdown && NoRecording(st) && who in st.active
    ensures var n := RefreshStep(st, who, fetched, now);
      n.Some? ==> n.value.shutdown && NoRecording(n.value) && n.value.events == st.events && n.value.cache == st.cache
  {
    var n := RefreshStep(st, who, fetched, now);
    if st.active[who] != Locking && st.active[who] != Unlocking {
      SendingIsInside(st, who, fetched, now);
    }
    if n.Some? {
      OneMovesOn(st, n.value, who);
    }
  }

  lemma LateStepIsDropped(digest: Digest, st: State, a: Action)
    requires |st.history| > 0 && st.shutdown && NoRecording(st)
    ensures var n := Stepped(digest, st, a);
      n.shutdown && NoRecording(n) && n.events == st.events && (n.cache == st.cache || n.cache == EMPTY)
  {
    if a.Refresh? && a.who in st.active {
      LateRefreshIsDropped(st, a.who, ReplyFor(digest, st, a.who, a.answer), a.now);
    }
  }

  /**
   An answer that arrives after Shutdown has begun is dropped: from any state in which nobody is in the
   middle of recording, nothing is recorded or reported any more, whatever is still under way.
   */
  lemma {:induction false} LateAnswersAreDropped(digest: Digest, st: State, actions: seq<Action>)
    requires |st.history| > 0 && st.shutdown && NoRecording(st)
    ensures var u := Run(digest, st, actions);
      NoRecording(u) && u.events == st.events && (u.cache == st.cache || u.cache == EMPTY)
    decreases |actions|
  {
    if actions != [] {
      LateStepIsDropped(digest, st, actions[0]);
      HistoryGrows(digest, st, actions[0]);
      LateAnswersAreDropped(digest, Stepped(digest, st, actions[0]), actions[1..]);
    }
  }

  // ---------- nothing happens before start ----------

  /** Without a Start that won, nobody refreshes, nothing is cached and nothing is reported. */
  predicate StillBefore(st: State) {
    !st.started ==> st.active == map[] && st.cache == EMPTY && st.events == []
  }

  lemma StepStaysBefore(digest: Digest, st: State, a: Action)
    requires Orderly(st) && StillBefore(st)
    ensures StillBefore(Stepped(digest, st, a))
  {
    if st.started && a.Refresh? && a.who in st.active {
      RefreshIsFramed(st, a.who, ReplyFor(digest, st, a.who, a.answer), a.now);
    }
  }

  /** A refresh that a user calls for before Start has won does nothing, in every interleaving. */
  lemma {:induction false} NothingBeforeStart(digest: Digest, st: State, actions: seq<Action>)
    requires Orderly(st) && StillBefore(st)
    ensures StillBefore(Run(digest, st, actions))
    decreases |actions|
  {
    if actions != [] {
      StepKeepsOrder(digest, st, actions[0]);
      StepStaysBefore(digest, st, actions[0]);
      NothingBeforeStart(digest, Stepped(digest, st, actions[0]), actions[1..]);
    }
  }
}
