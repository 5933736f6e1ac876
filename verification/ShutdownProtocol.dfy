/**
 When Shutdown ends well. Start creates its two channels in two assignments and Shutdown reads them in
 two reads, none of them under a lock; this module finds exactly the states in which calling Shutdown
 can go wrong, and shows that from all others it always ends with the background loop gone. Nothing here
 depends on the catalogues or their digest.
 */
module ShutdownProtocol {
  import opened Catalogue
  import opened RefreshCache
  import opened RefreshProtocol

  predicate ChannelsOk(st: State) {
    && (st.stopRefresh != NoChannel <==> st.starter in {MakeDone, Spawn, StartReturned})
    && (st.refreshDone != NoChannel <==> st.starter in {Spawn, StartReturned})
    && (st.stopper in {Idle, ReadStop} ==> st.stopRefresh != Closed)
    && (st.stopper == CloseStop ==> st.stopRefresh == Open)
    && (st.stopper == ReadDone || st.stopper.Receive? ==> st.stopRefresh == Closed)
    && (st.stopper == Receive(true) ==> st.refreshDone != NoChannel)
    && (st.loop in {Exiting, Gone} ==> st.stopRefresh == Closed)
    && (st.refreshDone == Closed <==> st.loop == Gone)
    && (PastReceive(st) && st.stopRefresh == Closed ==> st.loop == Gone)
  }

  predicate PastReceive(st: State) {
    st.stopper in {LockForClear, Clearing, UnlockAfterClear, StopReturned}
  }

  /** What holds in every state that a run can reach. */
  predicate Reachable(st: State) {
    Orderly(st) && ChannelsOk(st)
  }

  // ---------- every reachable state ----------

  lemma FramedKeepsChannels(st: State, n: State, who: Caller)
    requires ControlOk(st) && ChannelsOk(st) && who in st.active && Framed(st, n, who)
    ensures ChannelsOk(n)
  {
  }

  lemma EarlyShutdownKeepsChannels(st: State)
    requires ChannelsOk(st) && st.stopper in {ReadStop, CloseStop, ReadDone} && ShutdownNext(st).Some?
    ensures ChannelsOk(ShutdownNext(st).value)
  {
    match st.stopper
    case ReadStop =>
    case CloseStop =>
    case ReadDone =>
  }

  lemma LateShutdownKeepsChannels(st: State)
    requires ChannelsOk(st) && (st.stopper.Receive? || PastReceive(st)) && ShutdownNext(st).Some?
    ensures ChannelsOk(ShutdownNext(st).value)
  {
    match st.stopper
    case Receive(_) => assert st.refreshDone == Closed && st.loop == Gone;
    case _ =>
  }

  lemma StartKeepsChannels(st: State)
    requires ControlOk(st) && ChannelsOk(st) && StartNext(st).Some?
    ensures ChannelsOk(StartNext(st).value)
  {
    match st.starter
    case MakeStop =>
    case MakeDone =>
    case Spawn =>
  }

  lemma LoopKeepsChannels(digest: Digest, st: State, a: Action)
    requires Reachable(st) && (a.LoopTimer? || a.LoopStop? || a.LoopExit?)
    ensures ChannelsOk(Stepped(digest, st, a))
  {
    match a
    case LoopTimer =>
    case LoopStop =>
    case LoopExit =>
  }

  lemma CallsKeepChannels(digest: Digest, st: State, a: Action)
    requires Reachable(st)
    requires a.Edit? || a.StartCheck? || a.StartSwap? || a.UserCheck? || a.UserEnter? || a.ShutdownSwap?
    ensures ChannelsOk(Stepped(digest, st, a))
  {
    match a
    case StartSwap =>
    case ShutdownSwap =>
    case _ =>
  }

  lemma StepKeepsChannels(digest: Digest, st: State, a: Action)
    requires Reachable(st)
    ensures ChannelsOk(Stepped(digest, st, a))
  {
    match a
    case Refresh(who, answer, now) =>
      if who in st.active {
        RefreshIsFramed(st, who, ReplyFor(digest, st, who, answer), now);
        FramedKeepsChannels(st, Stepped(digest, st, a), who);
      }
    case ShutdownStep =>
      if ShutdownNext(st).Some? {
        if st.stopper in {ReadStop, CloseStop, ReadDone} {
          EarlyShutdownKeepsChannels(st);
        } else {
          LateShutdownKeepsChannels(st);
        }
      }
    case StartStep =>
      if StartNext(st).Some? {
        StartKeepsChannels(st);
      }
    case LoopTimer => LoopKeepsChannels(digest, st, a);
    case LoopStop => LoopKeepsChannels(digest, st, a);
    case LoopExit => LoopKeepsChannels(digest, st, a);
    case _ => CallsKeepChannels(digest, st, a);
  }

  lemma StepStaysReachable(digest: Digest, st: State, a: Action)
    requires Reachable(st)
    ensures Reachable(Stepped(digest, st, a))
  {
    StepKeepsOrder(digest, st, a);
    StepKeepsChannels(digest, st, a);
  }

  lemma {:induction false} RunStaysReachable(digest: Digest, st: State, actions: seq<Action>)
    requires Reachable(st)
    ensures Reachable(Run(digest, st, actions))
    decreases |actions|
  {
    if actions != [] {
      StepStaysReachable(digest, st, actions[0]);
      RunStaysReachable(digest, Stepped(digest, st, actions[0]), actions[1..]);
    }
  }

  lemma InitIsReachable(p: Payload)
    ensures Reachable(Init(p))
  {
  }

  // ---------- two ways to go wrong ----------

  /** Shutdown receives from a channel that does not exist. */
  predicate Stuck(st: State) {
    st.stopper == Receive(false)
  }

  /** Shutdown saw no loop to stop, and one is on its way or running. */
  predicate LoopLeaks(st: State) {
    PastReceive(st) && st.stopRefresh != Closed && st.starter != NotStarted
  }

  /** Every step leaves the shutdown where it is, except its own steps and its beginning. */
  lemma StopperStays(digest: Digest, st: State, a: Action)
    requires Orderly(st) && !a.ShutdownStep? && !a.ShutdownSwap?
    ensures Stepped(digest, st, a).stopper == st.stopper
  {
    if a.Refresh? && a.who in st.active {
      RefreshIsFramed(st, a.who, ReplyFor(digest, st, a.who, a.answer), a.now);
    }
  }

  lemma StuckStep(digest: Digest, st: State, a: Action)
    requires Orderly(st) && Stuck(st)
    ensures Stuck(Stepped(digest, st, a))
  {
    if !a.ShutdownStep? && !a.ShutdownSwap? {
      StopperStays(digest, st, a);
    }
  }

  lemma {:induction false} StuckForever(digest: Digest, st: State, actions: seq<Action>)
    requires Reachable(st) && Stuck(st)
    ensures Stuck(Run(digest, st, actions)) && !Run(digest, st, actions).cleared
    decreases |actions|
  {
    if actions != [] {
      StepStaysReachable(digest, st, actions[0]);
      StuckStep(digest, st, actions[0]);
      StuckForever(digest, Stepped(digest, st, actions[0]), actions[1..]);
    }
  }

  lemma ShutdownLeaks(st: State)
    requires Reachable(st) && LoopLeaks(st) && ShutdownNext(st).Some?
    ensures LoopLeaks(ShutdownNext(st).value)
  {
    match st.stopper
    case LockForClear =>
    case Clearing =>
    case UnlockAfterClear =>
  }

  lemma StartLeaks(st: State)
    requires Reachable(st) && LoopLeaks(st) && StartNext(st).Some?
    ensures LoopLeaks(StartNext(st).value)
  {
    match st.starter
    case MakeStop =>
    case MakeDone =>
    case Spawn =>
  }

  lemma OtherStepLeaks(digest: Digest, st: State, a: Action)
    requires Reachable(st) && LoopLeaks(st) && !a.ShutdownStep? && !a.StartStep? && !a.Refresh?
    ensures LoopLeaks(Stepped(digest, st, a))
  {
    match a
    case StartSwap =>
    case ShutdownSwap =>
    case _ =>
  }

  lemma LeakStep(digest: Digest, st: State, a: Action)
    requires Reachable(st) && LoopLeaks(st)
    ensures LoopLeaks(Stepped(digest, st, a))
  {
    match a
    case Refresh(who, answer, now) =>
      if who in st.active {
        RefreshIsFramed(st, who, ReplyFor(digest, st, who, answer), now);
      }
    case ShutdownStep =>
      if ShutdownNext(st).Some? {
        ShutdownLeaks(st);
      }
    case StartStep =>
      if StartNext(st).Some? {
        StartLeaks(st);
      }
    case _ => OtherStepLeaks(digest, st, a);
  }

  /** A leaked loop is never told to stop, in any continuation. */
  lemma {:induction false} LeakForever(digest: Digest, st: State, actions: seq<Action>)
    requires Reachable(st) && LoopLeaks(st)
    ensures var u := Run(digest, st, actions); LoopLeaks(u) && u.loop !in {Exiting, Gone}
    decreases |actions|
  {
    if actions != [] {
      StepStaysReachable(digest, st, actions[0]);
      LeakStep(digest, st, actions[0]);
      LeakForever(digest, Stepped(digest, st, actions[0]), actions[1..]);
    }
  }

  // ---------- the exact condition ----------

  /** A Start call is under way and has not made both channels yet. */
  predicate StartUnderWay(st: State) {
    (st.startChecked > 0 && !st.started) || st.starter in {InitialRefresh, MakeStop, MakeDone}
  }

  /** What holds from the moment Shutdown begins with no Start under way. */
  predicate Calm(st: State) {
    && st.shutdown
    && !StartUnderWay(st)
    && !Stuck(st) && !LoopLeaks(st)
  }

  lemma FramedKeepsCalm(st: State, n: State, who: Caller)
    requires ControlOk(st) && Calm(st) && who in st.active && Framed(st, n, who)
    ensures Calm(n)
  {
  }

  lemma ShutdownKeepsCalm(st: State)
    requires Reachable(st) && Calm(st) && ShutdownNext(st).Some?
    ensures Calm(ShutdownNext(st).value)
  {
    match st.stopper
    case ReadStop =>
    case CloseStop =>
    case ReadDone =>
    case _ =>
  }

  lemma ControlKeepsCalm(digest: Digest, st: State, a: Action)
    requires Reachable(st) && Calm(st) && !a.Refresh? && !a.ShutdownStep?
    ensures Calm(Stepped(digest, st, a))
  {
    match a
    case StartStep =>
    case StartSwap =>
    case _ =>
  }

  lemma StepKeepsCalm(digest: Digest, st: State, a: Action)
    requires Reachable(st) && Calm(st)
    ensures Calm(Stepped(digest, st, a))
  {
    match a
    case Refresh(who, answer, now) =>
      if who in st.active {
        RefreshIsFramed(st, who, ReplyFor(digest, st, who, answer), now);
        FramedKeepsCalm(st, Stepped(digest, st, a), who);
      }
    case ShutdownStep =>
      if ShutdownNext(st).Some? {
        ShutdownKeepsCalm(st);
      }
    case _ => ControlKeepsCalm(digest, st, a);
  }

  lemma {:induction false} RunStaysCalm(digest: Digest, st: State, actions: seq<Action>)
    requires Reachable(st) && Calm(st)
    ensures Reachable(Run(digest, st, actions)) && Calm(Run(digest, st, actions))
    decreases |actions|
  {
    if actions != [] {
      StepStaysReachable(digest, st, actions[0]);
      StepKeepsCalm(digest, st, actions[0]);
      RunStaysCalm(digest, Stepped(digest, st, actions[0]), actions[1..]);
    }
  }

  /** The state in which a Shutdown that begins after `before` finds itself. */
  function Begun(digest: Digest, p: Payload, before: seq<Action>): (st: State)
    ensures |st.history| > 0
  {
    HistoryGrows(digest, Run(digest, Init(p), before), ShutdownSwap);
    Stepped(digest, Run(digest, Init(p), before), ShutdownSwap)
  }

  lemma BegunIsCalm(digest: Digest, p: Payload, before: seq<Action>)
    requires var st := Run(digest, Init(p), before); !st.shutdown && !StartUnderWay(st)
    ensures Reachable(Begun(digest, p, before)) && Calm(Begun(digest, p, before))
  {
    InitIsReachable(p);
    RunStaysReachable(digest, Init(p), before);
    StepStaysReachable(digest, Run(digest, Init(p), before), ShutdownSwap);
  }

  /** A schedule that goes wrong, whenever a Start is under way. */
  function BadSchedule(st: State): seq<Action> {
    if st.starter == MakeDone then [ShutdownStep, ShutdownStep, ShutdownStep]
    else if st.starter == NotStarted then [ShutdownStep, StartSwap]
    else [ShutdownStep]
  }

  lemma RunOne(digest: Digest, st: State, a: Action, rest: seq<Action>)
    requires |st.history| > 0
    ensures |Stepped(digest, st, a).history| > 0
    ensures Run(digest, st, [a] + rest) == Run(digest, Stepped(digest, st, a), rest)
  {
    HistoryGrows(digest, st, a);
    assert ([a] + rest)[1..] == rest;
  }

  /** With one of the two channels made, Shutdown closes it and then waits for the other. */
  lemma HalfMadeGoesWrong(digest: Digest, st: State)
    requires Reachable(st) && !st.shutdown && st.starter == MakeDone
    ensures |Stepped(digest, st, ShutdownSwap).history| > 0
    ensures Stuck(Run(digest, Stepped(digest, st, ShutdownSwap), BadSchedule(st)))
  {
    var s1 := Stepped(digest, st, ShutdownSwap);
    var s2 := Stepped(digest, s1, ShutdownStep);
    var s3 := Stepped(digest, s2, ShutdownStep);
    assert BadSchedule(st) == [ShutdownStep] + ([ShutdownStep] + ([ShutdownStep] + []));
    RunOne(digest, s1, ShutdownStep, [ShutdownStep] + ([ShutdownStep] + []));
    RunOne(digest, s2, ShutdownStep, [ShutdownStep] + []);
    RunOne(digest, s3, ShutdownStep, []);
  }

  lemma BadScheduleGoesWrong(digest: Digest, st: State)
    requires Reachable(st) && !st.shutdown && StartUnderWay(st)
    ensures |Stepped(digest, st, ShutdownSwap).history| > 0
    ensures var u := Run(digest, Stepped(digest, st, ShutdownSwap), BadSchedule(st)); Stuck(u) || LoopLeaks(u)
  {
    var s1 := Stepped(digest, st, ShutdownSwap);
    if st.starter == MakeDone {
      HalfMadeGoesWrong(digest, st);
    } else if st.starter == NotStarted {
      var s2 := Stepped(digest, s1, ShutdownStep);
      assert BadSchedule(st) == [ShutdownStep] + ([StartSwap] + []);
      RunOne(digest, s1, ShutdownStep, [StartSwap] + []);
      RunOne(digest, s2, StartSwap, []);
    } else {
      assert BadSchedule(st) == [ShutdownStep] + [];
      RunOne(digest, s1, ShutdownStep, []);
    }
  }

  /**
   The exact condition. Shutdown, called in a reachable state, is safe in every continuation if and
   only if no Start call is under way: otherwise some schedule either blocks it forever or leaves a
   background loop that nobody can stop.
   */
  lemma ShutdownSafeIff(digest: Digest, p: Payload, before: seq<Action>)
    requires !Run(digest, Init(p), before).shutdown
    ensures (forall after :: var u := Run(digest, Begun(digest, p, before), after); !Stuck(u) && !LoopLeaks(u))
       <==> !StartUnderWay(Run(digest, Init(p), before))
  {
    var st := Run(digest, Init(p), before);
    InitIsReachable(p);
    RunStaysReachable(digest, Init(p), before);
    if StartUnderWay(st) {
      BadScheduleGoesWrong(digest, st);
      var u := Run(digest, Begun(digest, p, before), BadSchedule(st));
      assert Stuck(u) || LoopLeaks(u);
    } else {
      BegunIsCalm(digest, p, before);
      forall after
        ensures var u := Run(digest, Begun(digest, p, before), after); !Stuck(u) && !LoopLeaks(u)
      {
        RunStaysCalm(digest, Begun(digest, p, before), after);
      }
    }
  }

  /** When a Shutdown that began with no Start under way has returned, the loop is gone, and stays so. */
  lemma ReturnedMeansLoopGone(digest: Digest, p: Payload, before: seq<Action>, after: seq<Action>)
    requires var st := Run(digest, Init(p), before); !st.shutdown && !StartUnderWay(st)
    requires Run(digest, Begun(digest, p, before), after).stopper == StopReturned
    ensures var u := Run(digest, Begun(digest, p, before), after);
      u.loop in {NotSpawned, Gone} && Background !in u.active && Starter !in u.active
  {
    BegunIsCalm(digest, p, before);
    RunStaysCalm(digest, Begun(digest, p, before), after);
  }

  // ---------- nothing deadlocks ----------

  /** Whoever is refreshing, some refresh or the holder of the mutex can take a step. */
  lemma RefreshNeverDeadlocks(digest: Digest, st: State, who: Caller, fetched: Fetched, now: nat)
    requires Reachable(st) && who in st.active
    ensures match st.mutex
      case Free => RefreshStep(st, who, fetched, now).Some?
      case HeldBy(w) => w in st.active && RefreshStep(st, w, fetched, now).Some?
      case HeldByShutdown => ShutdownNext(st).Some?
  {
  }

  // ---------- how much is left to do ----------

  function PhaseRank(phase: Phase): nat {
    match phase
    case Locking => 8
    case Checking => 7
    case Sending => 6
    case Awaiting(_) => 5
    case Arrived(_, _, _) => 4
    case Recording(_, _, _) => 3
    case Notifying(_, _) => 2
    case Unlocking => 1
  }

  function StopRank(pc: StopPc): nat {
    match pc
    case Idle => 8
    case ReadStop => 7
    case CloseStop => 6
    case ReadDone => 5
    case Receive(_) => 4
    case LockForClear => 3
    case Clearing => 2
    case UnlockAfterClear => 1
    case StopReturned => 0
  }

  /** Waiting and refreshing rank alike: a refresh returns to waiting, and only the timer starts one. */
  function LoopRank(pc: LoopPc): nat {
    match pc
    case NotSpawned => 3
    case Waiting => 2
    case InRefresh => 2
    case Exiting => 1
    case Gone => 0
  }

  /** All steps left in the refreshes that have begun. */
  ghost function Outstanding(active: map<Caller, Phase>): nat {
    if active == map[] then 0
    else
      var w :| w in active;
      PhaseRank(active[w]) + Outstanding(active - {w})
  }

  lemma {:induction false} OutstandingWithout(active: map<Caller, Phase>, who: Caller)
    requires who in active
    ensures Outstanding(active) == PhaseRank(active[who]) + Outstanding(active - {who})
    decreases |active|
  {
    var w :| w in active && Outstanding(active) == PhaseRank(active[w]) + Outstanding(active - {w});
    if w != who {
      OutstandingWithout(active - {w}, who);
      OutstandingWithout(active - {who}, w);
      assert active - {w} - {who} == active - {who} - {w};
    }
  }

  lemma OutstandingWith(active: map<Caller, Phase>, who: Caller, phase: Phase)
    ensures Outstanding(active[who := phase]) == PhaseRank(phase) + Outstanding(active - {who})
    ensures who !in active ==> Outstanding(active - {who}) == Outstanding(active)
  {
    OutstandingWithout(active[who := phase], who);
    assert active[who := phase] - {who} == active - {who};
    if who !in active {
      assert active - {who} == active;
    }
  }

  /** What is left to do once Shutdown has begun, not counting refreshes the timer may still start. */
  ghost function Left(st: State): nat {
    StopRank(st.stopper) + LoopRank(st.loop) + st.startChecked + 9 * st.userChecked + Outstanding(st.active)
  }

  lemma RefreshLowersLeft(st: State, who: Caller, fetched: Fetched, now: nat)
    requires Reachable(st) && Calm(st) && who in st.active
    ensures var n := RefreshStep(st, who, fetched, now); n.Some? ==> Left(n.value) < Left(st)
  {
    var n := RefreshStep(st, who, fetched, now);
    OutstandingWithout(st.active, who);
    if st.active[who] != Unlocking && n.Some? {
      RefreshIsInside(st, who, fetched, now);
      PhaseFalls(st, who, fetched, now);
      OutstandingWith(st.active, who, n.value.active[who]);
    }
  }

  lemma PhaseFalls(st: State, who: Caller, fetched: Fetched, now: nat)
    requires |st.history| > 0 && who in st.active && st.active[who] != Unlocking
    ensures var n := RefreshStep(st, who, fetched, now);
      n.Some? ==> who in n.value.active && PhaseRank(n.value.active[who]) < PhaseRank(st.active[who])
  {
    match st.active[who]
    case Recording(sent, reply, at) => RecordingIsInside(st, who, sent, reply, at, now);
    case _ =>
  }

  lemma EnteringLowersLeft(digest: Digest, st: State, id: nat)
    requires Reachable(st) && Calm(st)
    ensures var n := Stepped(digest, st, UserEnter(id)); n == st || Left(n) < Left(st)
  {
    OutstandingWith(st.active, User(id), Locking);
  }

  lemma TimerRaisesLeft(digest: Digest, st: State)
    requires Reachable(st) && Calm(st)
    ensures var n := Stepped(digest, st, LoopTimer); n == st || Left(n) == Left(st) + 8
  {
    OutstandingWith(st.active, Background, Locking);
  }

  lemma ControlLowersLeft(digest: Digest, st: State, a: Action)
    requires Reachable(st) && Calm(st) && !a.Refresh? && !a.UserEnter? && !a.LoopTimer? && !a.Edit?
    ensures var n := Stepped(digest, st, a); n == st || Left(n) < Left(st)
  {
    match a
    case ShutdownStep =>
    case StartStep =>
    case _ =>
  }

  /** Steps that are not the shutdown's business: an edit on the server, and a timer that fires. */
  predicate Outside(a: Action) {
    a.Edit? || a.LoopTimer?
  }

  lemma StepLowersLeft(digest: Digest, st: State, a: Action)
    requires Reachable(st) && Calm(st)
    ensures var n := Stepped(digest, st, a);
      if a.Edit? then Left(n) == Left(st)
      else if a.LoopTimer? then Left(n) <= Left(st) + 8
      else n == st || Left(n) < Left(st)
  {
    match a
    case Refresh(who, answer, now) =>
      if who in st.active {
        RefreshLowersLeft(st, who, ReplyFor(digest, st, who, answer), now);
      }
    case UserEnter(id) => EnteringLowersLeft(digest, st, id);
    case LoopTimer => TimerRaisesLeft(digest, st);
    case Edit(_) =>
    case _ => ControlLowersLeft(digest, st, a);
  }

  /** How many actions of a schedule change something, edits and timers aside. */
  function Effective(digest: Digest, st: State, actions: seq<Action>): nat
    requires |st.history| > 0
    decreases |actions|
  {
    if actions == [] then 0
    else
      HistoryGrows(digest, st, actions[0]);
      var n := Stepped(digest, st, actions[0]);
      (if n == st || Outside(actions[0]) then 0 else 1) + Effective(digest, n, actions[1..])
  }

  function Timers(actions: seq<Action>): nat {
    if actions == [] then 0 else (if actions[0].LoopTimer? then 1 else 0) + Timers(actions[1..])
  }

  lemma {:induction false} EffectiveIsBounded(digest: Digest, st: State, actions: seq<Action>)
    requires Reachable(st) && Calm(st)
    ensures Effective(digest, st, actions) + Left(Run(digest, st, actions)) <= Left(st) + 8 * Timers(actions)
    decreases |actions|
  {
    if actions != [] {
      StepStaysReachable(digest, st, actions[0]);
      StepKeepsCalm(digest, st, actions[0]);
      StepLowersLeft(digest, st, actions[0]);
      EffectiveIsBounded(digest, Stepped(digest, st, actions[0]), actions[1..]);
    }
  }

  /** The next step towards the end of the shutdown. */
  function Helpful(st: State): Action {
    if st.stopper == LockForClear && st.mutex.HeldBy? then Refresh(st.mutex.caller, Fault(NoSnapshotYet), 0)
    else if st.stopper == Receive(true) && st.refreshDone != Closed then
      match st.loop
      case NotSpawned => StartStep
      case Waiting => LoopStop
      case Exiting => LoopExit
      case _ => Refresh(if st.mutex.HeldBy? then st.mutex.caller else Background, Fault(NoSnapshotYet), 0)
    else ShutdownStep
  }

  lemma HelpfulRefreshHelps(digest: Digest, st: State)
    requires Reachable(st) && Calm(st) && Helpful(st).Refresh?
    ensures Stepped(digest, st, Helpful(st)) != st
  {
    var who := Helpful(st).who;
    assert who in st.active;
    var fetched := ReplyFor(digest, st, who, Fault(NoSnapshotYet));
    RefreshNeverDeadlocks(digest, st, who, fetched, 0);
    RefreshLowersLeft(st, who, fetched, 0);
  }

  lemma HelpfulControlHelps(digest: Digest, st: State)
    requires Reachable(st) && Calm(st) && st.stopper != StopReturned && !Helpful(st).Refresh?
    ensures Stepped(digest, st, Helpful(st)) != st
  {
    match st.stopper
    case Receive(_) =>
    case LockForClear =>
    case _ =>
  }

  /** As long as Shutdown has not returned, something other than edits and timers can still happen. */
  lemma HelpfulHelps(digest: Digest, st: State)
    requires Reachable(st) && Calm(st) && st.stopper != StopReturned
    ensures !Outside(Helpful(st)) && Stepped(digest, st, Helpful(st)) != st
  {
    if Helpful(st).Refresh? {
      HelpfulRefreshHelps(digest, st);
    } else {
      HelpfulControlHelps(digest, st);
    }
  }

  /**
   Every schedule ends. After a Shutdown that began with no Start under way, any schedule takes a number
   of effective steps that is bounded by what was left to do and by how often the timer fires; and a
   schedule that can only go on with edits and timers has returned, with the cache empty and no loop.
   So every schedule that keeps taking steps, and does not take the timer for ever, finishes the shutdown.
   */
  lemma EveryScheduleEnds(digest: Digest, p: Payload, before: seq<Action>, after: seq<Action>)
    requires var st := Run(digest, Init(p), before); !st.shutdown && !StartUnderWay(st)
    ensures var s1 := Begun(digest, p, before);
      var u := Run(digest, s1, after);
      && Effective(digest, s1, after) <= Left(s1) + 8 * Timers(after)
      && |u.history| > 0
      && ((forall a | !Outside(a) :: Stepped(digest, u, a) == u) ==>
            u.stopper == StopReturned && u.cleared && u.cache == EMPTY && u.loop in {NotSpawned, Gone})
  {
    BegunIsCalm(digest, p, before);
    var s1 := Begun(digest, p, before);
    EffectiveIsBounded(digest, s1, after);
    RunStaysCalm(digest, s1, after);
    if Run(digest, s1, after).stopper != StopReturned {
      HelpfulHelps(digest, Run(digest, s1, after));
    }
  }

  lemma {:induction false} CanFinishFrom(digest: Digest, st: State) returns (actions: seq<Action>)
    requires Reachable(st) && Calm(st)
    ensures var u := Run(digest, st, actions);
      u.stopper == StopReturned && u.cleared && u.cache == EMPTY && u.loop in {NotSpawned, Gone}
    decreases Left(st)
  {
    if st.stopper == StopReturned {
      actions := [];
    } else {
      var a := Helpful(st);
      HelpfulHelps(digest, st);
      StepLowersLeft(digest, st, a);
      StepStaysReachable(digest, st, a);
      StepKeepsCalm(digest, st, a);
      var rest := CanFinishFrom(digest, Stepped(digest, st, a));
      actions := [a] + rest;
      RunOne(digest, st, a, rest);
    }
  }

  /** Shutdown can always be completed, from wherever a schedule has brought it. */
  lemma ShutdownCanFinish(digest: Digest, p: Payload, before: seq<Action>, after: seq<Action>)
    returns (rest: seq<Action>)
    requires var st := Run(digest, Init(p), before); !st.shutdown && !StartUnderWay(st)
    ensures var u := Run(digest, Run(digest, Begun(digest, p, before), after), rest);
      u.stopper == StopReturned && u.cleared && u.cache == EMPTY && u.loop in {NotSpawned, Gone}
  {
    BegunIsCalm(digest, p, before);
    RunStaysCalm(digest, Begun(digest, p, before), after);
    rest := CanFinishFrom(digest, Run(digest, Begun(digest, p, before), after));
  }
}
