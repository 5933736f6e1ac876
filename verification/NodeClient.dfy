/**
 The Node client on its event loop. Every turn of the loop runs to completion; what interleaves are the
 turns: calls, timer callbacks, settling fetches, and the continuations after each await.
 */
module NodeClient {
  import opened Wrappers
  import opened Catalogue

  // ---------- the state ----------

  /** Which code awaits a refresh, and hence what runs when it is over. */
  datatype Kind = StartCall | TimerCallback | RefreshCall

  /**
   One caller of refreshOnce awaiting promise `promise`. The caller that created the promise also has to
   take it out of the in-flight slot, and does so before it goes on.
   */
  datatype Waiter = Waiter(kind: Kind, promise: nat, owner: bool, released: bool)

  datatype Promise = Pending | Settled

  datatype Fetched =
    | Modified(app: seq<PublicToggle>, etag: Option<string>)
    | NotModified(etag: Option<string>)
    | FetchFailed

  datatype Snapshot = Snapshot(app: seq<PublicToggle>, etag: Option<string>, hasSuccess: bool, failures: nat)

  const EMPTY := Snapshot([], None, false, 0)

  datatype Event = RefreshSucceeded(toggleCount: nat) | RefreshFailed(consecutiveFailures: nat)

  datatype State = State(
    started: bool, shutdown: bool,
    refreshTimer: Option<nat>, refreshInFlight: Option<nat>,
    armed: set<nat>,              // timers the scheduler will fire
    promises: map<nat, Promise>,  // one per performRefreshOnce
    waiters: map<nat, Waiter>,
    next: nat,                    // supplies handles, promises and waiter names
    startDone: bool,              // start() ran to its end and scheduled the loop
    cache: Snapshot, events: seq<Event>)

  const INIT := State(false, false, None, None, {}, map[], map[], 0, false, EMPTY, [])

  // ---------- the pieces the turns are made of ----------

  function Schedule(st: State): State {
    if st.shutdown || !st.started then st
    else
      var kept := if st.refreshTimer.Some? then st.armed - {st.refreshTimer.value} else st.armed;
      st.(refreshTimer := Some(st.next), armed := kept + {st.next}, next := st.next + 1)
  }

  /** Joins the fetch in flight, or starts one. */
  function RefreshOnce(st: State, kind: Kind): State {
    match st.refreshInFlight
    case Some(p) => st.(waiters := st.waiters[st.next := Waiter(kind, p, false, false)], next := st.next + 1)
    case None =>
      st.(promises := st.promises[st.next := Pending], refreshInFlight := Some(st.next),
          waiters := st.waiters[st.next := Waiter(kind, st.next, true, false)], next := st.next + 1)
  }

  function Failed(st: State): State {
    var cache := st.cache.(failures := st.cache.failures + 1);
    st.(cache := cache, events := st.events + [RefreshFailed(cache.failures)])
  }

  function Succeeded(st: State, cache: Snapshot): State {
    st.(cache := cache, events := st.events + [RefreshSucceeded(|cache.app|)])
  }

  /** performRefreshOnce after its fetch: nothing is applied once the client has been shut down. */
  function Applied(st: State, fetched: Fetched): State {
    if st.shutdown then st
    else match fetched
      case FetchFailed => Failed(st)
      case NotModified(etag) =>
        if !st.cache.hasSuccess then Failed(st)
        else Succeeded(st, st.cache.(etag := if etag.Some? then etag else st.cache.etag, failures := 0))
      case Modified(app, etag) => Succeeded(st, Snapshot(app, etag, true, 0))
  }

  // ---------- turns ----------

  datatype Turn =
    | Start | Refresh | Shutdown
    | TimerFires(handle: nat)
    | FetchSettles(promise: nat, fetched: Fetched)
    | OwnerReleases(waiter: nat)
    | Continues(waiter: nat)

  predicate Enabled(st: State, turn: Turn) {
    match turn
    case Start => true
    case Refresh => true
    case Shutdown => true
    case TimerFires(h) => h in st.armed
    case FetchSettles(p, _) => p in st.promises && st.promises[p] == Pending
    case OwnerReleases(w) =>
      w in st.waiters && st.waiters[w].owner && !st.waiters[w].released && PromiseSettled(st, st.waiters[w].promise)
    case Continues(w) =>
      w in st.waiters && (st.waiters[w].owner ==> st.waiters[w].released) && PromiseSettled(st, st.waiters[w].promise)
  }

  predicate PromisePending(st: State, p: nat) {
    p in st.promises && st.promises[p] == Pending
  }

  predicate PromiseSettled(st: State, p: nat) {
    p in st.promises && st.promises[p] == Settled
  }

  function After(st: State, turn: Turn): State
    requires Enabled(st, turn)
  {
    match turn
    case Start => if st.shutdown || st.started then st else RefreshOnce(st.(started := true), StartCall)
    case Refresh => if st.shutdown || !st.started then st else RefreshOnce(st, RefreshCall)
    case Shutdown =>
      if st.shutdown then st
      else st.(shutdown := true, refreshTimer := None, cache := EMPTY,
               armed := if st.refreshTimer.Some? then st.armed - {st.refreshTimer.value} else st.armed)
    case TimerFires(h) => RefreshOnce(st.(armed := st.armed - {h}, refreshTimer := None), TimerCallback)
    case FetchSettles(p, fetched) => Applied(st, fetched).(promises := st.promises[p := Settled])
    case OwnerReleases(w) =>
      st.(refreshInFlight := if st.refreshInFlight == Some(st.waiters[w].promise) then None else st.refreshInFlight,
          waiters := st.waiters[w := st.waiters[w].(released := true)])
    case Continues(w) =>
      var rest := st.(waiters := st.waiters - {w});
      if st.waiters[w].kind == StartCall
      then (if st.shutdown then rest else Schedule(rest).(startDone := true))
      else Schedule(rest)
  }

  /**
   A caller of this kind awaits the fetch in flight: the one that was there, or, if there was none, a new one
   that this caller owns.
   */
  predicate Joined(before: State, st: State, kind: Kind) {
    && st.refreshInFlight.Some? && before.next in st.waiters
    && (before.refreshInFlight.Some? ==>
          && st.refreshInFlight == before.refreshInFlight && st.promises == before.promises
          && st.waiters[before.next] == Waiter(kind, before.refreshInFlight.value, false, false))
    && (before.refreshInFlight.None? ==>
          && st.refreshInFlight == Some(before.next) && st.promises == before.promises[before.next := Pending]
          && st.waiters[before.next] == Waiter(kind, before.next, true, false))
    && st.waiters == before.waiters[before.next := st.waiters[before.next]]
    && st.cache == before.cache && st.events == before.events
  }

  /**
   What a response leaves: a full one replaces everything, "not modified" keeps the toggles and clears the
   failures, and a useless one is only counted; each is reported.
   */
  predicate Took(before: State, st: State, fetched: Fetched) {
    var c := before.cache;
    && (fetched.Modified? ==>
          && st.cache == Snapshot(fetched.app, fetched.etag, true, 0)
          && st.events == before.events + [RefreshSucceeded(|fetched.app|)])
    && (fetched.NotModified? && c.hasSuccess ==>
          && st.cache == Snapshot(c.app, if fetched.etag.Some? then fetched.etag else c.etag, true, 0)
          && st.events == before.events + [RefreshSucceeded(|c.app|)])
    && (fetched.FetchFailed? || (fetched.NotModified? && !c.hasSuccess) ==>
          && st.cache == Snapshot(c.app, c.etag, c.hasSuccess, c.failures + 1)
          && st.events == before.events + [RefreshFailed(c.failures + 1)])
  }

  // ---------- the client ----------

  class EventLoopClient {
    var started: bool
    var shutdownFlag: bool
    var refreshTimer: Option<nat>
    var refreshInFlight: Option<nat>
    var armed: set<nat>
    var promises: map<nat, Promise>
    var waiters: map<nat, Waiter>
    var next: nat
    var startDone: bool
    var cache: Snapshot
    var events: seq<Event>

    function View(): State
      reads this
    {
      State(started, shutdownFlag, refreshTimer, refreshInFlight, armed, promises, waiters, next, startDone,
            cache, events)
    }

    constructor ()
      ensures View() == INIT
    {
      started, shutdownFlag, refreshTimer, refreshInFlight := false, false, None, None;
      armed, promises, waiters, next, startDone := {}, map[], map[], 0, false;
      cache, events := EMPTY, [];
    }

    method Start()
      modifies this
      ensures View() == After(old(View()), Turn.Start)
      ensures old(shutdownFlag || started) ==> View() == old(View())
      ensures !old(shutdownFlag || started) ==> started && Joined(old(View()), View(), StartCall)
      ensures old(Inv(View())) ==> Inv(View())
    {
      ghost var st := View();
      if Inv(st) {
        TurnKeepsInv(st, Turn.Start);
      }
      if shutdownFlag {
        return;
      }
      if started {
        return;
      }
      started := true;
      CallRefreshOnce(StartCall);
    }

    method Refresh()
      modifies this
      ensures View() == After(old(View()), Turn.Refresh)
      ensures old(shutdownFlag || !started) ==> View() == old(View())
      ensures !old(shutdownFlag || !started) ==> Joined(old(View()), View(), RefreshCall)
      ensures old(Inv(View())) ==> Inv(View())
    {
      ghost var st := View();
      if Inv(st) {
        TurnKeepsInv(st, Turn.Refresh);
      }
      if shutdownFlag {
        return;
      }
      if !started {
        return;
      }
      CallRefreshOnce(RefreshCall);
    }

    method CallRefreshOnce(kind: Kind)
      modifies this
      ensures View() == RefreshOnce(old(View()), kind)
      ensures Joined(old(View()), View(), kind)
      ensures old(SingleFlight(View())) ==> SingleFlight(View())
      ensures refreshInFlight.Some? && old(next) in waiters && waiters[old(next)].promise == refreshInFlight.value
    {
      if refreshInFlight.Some? {
        waiters := waiters[next := Waiter(kind, refreshInFlight.value, false, false)];
        next := next + 1;
        return;
      }
      promises := promises[next := Pending];
      refreshInFlight := Some(next);
      waiters := waiters[next := Waiter(kind, next, true, false)];
      next := next + 1;
    }

    method ScheduleRefresh()
      modifies this
      ensures View() == Schedule(old(View()))
      ensures shutdownFlag || !started ==> View() == old(View())
      ensures started && !shutdownFlag ==>
              && refreshTimer == Some(old(next)) && old(next) in armed
              && (old(refreshTimer).Some? && old(refreshTimer).value != old(next) ==> old(refreshTimer).value !in armed)
      ensures cache == old(cache) && events == old(events) && waiters == old(waiters) && promises == old(promises)
      ensures old(SingleTimer(View())) ==> SingleTimer(View())
      ensures started && !shutdownFlag ==> refreshTimer.Some?
    {
      if shutdownFlag || !started {
        return;
      }
      if refreshTimer.Some? {
        armed := armed - {refreshTimer.value};
      }
      refreshTimer := Some(next);
      armed := armed + {next};
      next := next + 1;
    }

    method OnTimer(handle: nat)
      requires Enabled(View(), TimerFires(handle))
      modifies this
      ensures View() == After(old(View()), TimerFires(handle))
      ensures handle !in armed && refreshTimer.None? && Joined(old(View()), View(), TimerCallback)
      ensures old(Inv(View())) ==> Inv(View())
    {
      ghost var st := View();
      if Inv(st) {
        TurnKeepsInv(st, TimerFires(handle));
      }
      armed := armed - {handle};
      refreshTimer := None;
      CallRefreshOnce(TimerCallback);
    }

    method OnFetchSettled(promise: nat, fetched: Fetched)
      requires Enabled(View(), FetchSettles(promise, fetched))
      modifies this
      ensures View() == After(old(View()), FetchSettles(promise, fetched))
      ensures PromiseSettled(View(), promise)
      ensures waiters == old(waiters) && refreshInFlight == old(refreshInFlight) && refreshTimer == old(refreshTimer)
      ensures old(shutdownFlag) ==> cache == old(cache) && events == old(events)
      ensures !old(shutdownFlag) ==> Took(old(View()), View(), fetched)
      ensures old(Inv(View())) ==> Inv(View())
    {
      ghost var st := View();
      if Inv(st) {
        TurnKeepsInv(st, FetchSettles(promise, fetched));
      }
      promises := promises[promise := Settled];
      if shutdownFlag {
        return;
      }
      TakeResponse(fetched);
    }

    method TakeResponse(fetched: Fetched)
      requires !shutdownFlag
      modifies this`cache, this`events
      ensures View() == Applied(old(View()), fetched)
      ensures Took(old(View()), View(), fetched)
    {
      if fetched.FetchFailed? || (fetched.NotModified? && !cache.hasSuccess) {
        cache := cache.(failures := cache.failures + 1);
        events := events + [RefreshFailed(cache.failures)];
        return;
      }
      if fetched.NotModified? {
        if fetched.etag.Some? {
          cache := cache.(etag := fetched.etag);
        }
        cache := cache.(failures := 0);
      } else {
        cache := Snapshot(fetched.app, fetched.etag, true, 0);
      }
      events := events + [RefreshSucceeded(|cache.app|)];
    }

    method OnOwnerReleases(waiter: nat)
      requires Enabled(View(), OwnerReleases(waiter))
      modifies this
      ensures View() == After(old(View()), OwnerReleases(waiter))
      ensures refreshInFlight != Some(old(waiters)[waiter].promise)
      ensures waiter in waiters && waiters[waiter].released && cache == old(cache) && events == old(events)
      ensures old(Inv(View())) ==> Inv(View())
    {
      ghost var st := View();
      if Inv(st) {
        TurnKeepsInv(st, OwnerReleases(waiter));
      }
      if refreshInFlight == Some(waiters[waiter].promise) {
        refreshInFlight := None;
      }
      waiters := waiters[waiter := waiters[waiter].(released := true)];
    }

    method OnContinue(waiter: nat)
      requires Enabled(View(), Continues(waiter))
      modifies this
      ensures View() == After(old(View()), Continues(waiter))
      ensures waiters == old(waiters) - {waiter} && cache == old(cache) && events == old(events)
      ensures started && !shutdownFlag ==> refreshTimer == Some(old(next)) && old(next) in armed
      ensures shutdownFlag ==> refreshTimer == old(refreshTimer)
      ensures startDone <==> old(startDone) || (old(waiters)[waiter].kind == StartCall && !shutdownFlag)
      ensures old(Inv(View())) ==> Inv(View())
    {
      ghost var st := View();
      if Inv(st) {
        TurnKeepsInv(st, Continues(waiter));
      }
      var kind := waiters[waiter].kind;
      waiters := waiters - {waiter};
      if kind == StartCall {
        if shutdownFlag {
          return;
        }
        ScheduleRefresh();
        startDone := true;
        return;
      }
      ScheduleRefresh();
    }

    method Shutdown()
      modifies this
      ensures View() == After(old(View()), Turn.Shutdown)
      ensures shutdownFlag && (old(shutdownFlag) ==> View() == old(View()))
      ensures !old(shutdownFlag) ==>
              && refreshTimer.None? && (old(refreshTimer).Some? ==> old(refreshTimer).value !in armed)
              && cache == Snapshot([], None, false, 0)
      ensures events == old(events) && promises == old(promises) && waiters == old(waiters)
      ensures old(Inv(View())) ==> Inv(View())
    {
      ghost var st := View();
      if Inv(st) {
        TurnKeepsInv(st, Turn.Shutdown);
      }
      if shutdownFlag {
        return;
      }
      shutdownFlag := true;
      if refreshTimer.Some? {
        armed := armed - {refreshTimer.value};
        refreshTimer := None;
      }
      cache := EMPTY;
    }
  }

  // ---------- the invariant ----------

  /** Only the promise in the in-flight slot can be pending: there is never a second fetch. */
  predicate SingleFlight(st: State) {
    forall p | p in st.promises && st.promises[p] == Pending :: st.refreshInFlight == Some(p)
  }

  /** The scheduler holds exactly the timer the client remembers. */
  predicate SingleTimer(st: State) {
    st.armed == if st.refreshTimer.Some? then {st.refreshTimer.value} else {}
  }

  predicate NamesOk(st: State) {
    && (forall p | p in st.promises :: p < st.next)
    && (forall w | w in st.waiters :: w < st.next && st.waiters[w].promise in st.promises)
  }

  /** The slot is held for a live promise by an owner that still has to release it. */
  predicate SlotOwned(st: State) {
    st.refreshInFlight.Some? ==>
      var p := st.refreshInFlight.value;
      && p in st.promises && p in st.waiters
      && st.waiters[p].owner && !st.waiters[p].released && st.waiters[p].promise == p
  }

  /** An owner is named after its promise; once it has released the slot its promise is settled. */
  predicate OwnersOk(st: State) {
    forall w | w in st.waiters && st.waiters[w].owner ::
      && st.waiters[w].promise == w
      && (!st.waiters[w].released ==> st.refreshInFlight == Some(w))
  }

  predicate Rearms(w: Waiter) {
    w.kind != StartCall
  }

  /** After start and before shutdown, the loop is alive. */
  predicate LoopAlive(st: State) {
    st.startDone && !st.shutdown ==>
      st.refreshTimer.Some? || exists w :: w in st.waiters && Rearms(st.waiters[w])
  }

  predicate ShutDownOk(st: State) {
    st.shutdown ==> st.refreshTimer.None? && st.cache == EMPTY
  }

  predicate Inv(st: State) {
    && SingleFlight(st) && SingleTimer(st) && NamesOk(st) && SlotOwned(st) && OwnersOk(st)
    && LoopAlive(st) && ShutDownOk(st) && (st.startDone ==> st.started) && (st.refreshTimer.Some? ==> st.started)
    && (st.waiters != map[] ==> st.started)
  }

  lemma JoiningKeepsInv(st: State, kind: Kind)
    requires Inv(st) && st.started && st.refreshInFlight.Some?
    ensures Inv(RefreshOnce(st, kind))
  {
    var n := RefreshOnce(st, kind);
    assert forall w | w in st.waiters :: w in n.waiters && n.waiters[w] == st.waiters[w];
  }

  lemma FetchingKeepsInv(st: State, kind: Kind)
    requires Inv(st) && st.started && st.refreshInFlight.None?
    ensures Inv(RefreshOnce(st, kind))
  {
    var n := RefreshOnce(st, kind);
    assert forall w | w in st.waiters :: w in n.waiters && n.waiters[w] == st.waiters[w];
  }

  lemma RefreshOnceKeepsInv(st: State, kind: Kind)
    requires Inv(st) && st.started
    ensures Inv(RefreshOnce(st, kind))
  {
    if st.refreshInFlight.Some? {
      JoiningKeepsInv(st, kind);
    } else {
      FetchingKeepsInv(st, kind);
    }
  }

  lemma TimerKeepsInv(st: State, h: nat)
    requires Inv(st) && Enabled(st, TimerFires(h))
    ensures Inv(After(st, TimerFires(h)))
  {
    var n := After(st, TimerFires(h));
    assert st.refreshTimer == Some(h);
    assert forall w | w in st.waiters :: w in n.waiters && n.waiters[w] == st.waiters[w];
    assert st.next in n.waiters && Rearms(n.waiters[st.next]);
  }

  lemma ScheduleKeepsInv(st: State)
    requires Inv(st.(startDone := false)) && st.started
    ensures Inv(Schedule(st).(startDone := true))
    ensures !st.shutdown ==> Schedule(st).refreshTimer.Some?
  {
  }

  lemma ContinueKeepsInv(st: State, w: nat)
    requires Inv(st) && Enabled(st, Continues(w))
    ensures Inv(After(st, Continues(w)))
  {
    var rest := st.(waiters := st.waiters - {w});
    assert st.refreshInFlight != Some(w);
    assert Inv(rest.(startDone := false));
    ScheduleKeepsInv(rest);
  }

  lemma TurnKeepsInv(st: State, turn: Turn)
    requires Inv(st) && Enabled(st, turn)
    ensures Inv(After(st, turn))
  {
    match turn
    case Start =>
      if !st.shutdown && !st.started {
        RefreshOnceKeepsInv(st.(started := true), StartCall);
      }
    case Refresh =>
      if !st.shutdown && st.started {
        RefreshOnceKeepsInv(st, RefreshCall);
      }
    case TimerFires(h) => TimerKeepsInv(st, h);
    case Continues(w) => ContinueKeepsInv(st, w);
    case OwnerReleases(w) => ReleaseKeepsInv(st, w);
    case FetchSettles(p, fetched) => SettleKeepsInv(st, p, fetched);
    case Shutdown =>
  }

  lemma ReleaseKeepsInv(st: State, w: nat)
    requires Inv(st) && Enabled(st, OwnerReleases(w))
    ensures Inv(After(st, OwnerReleases(w)))
  {
    var n := After(st, OwnerReleases(w));
    if exists v :: v in st.waiters && Rearms(st.waiters[v]) {
      var v :| v in st.waiters && Rearms(st.waiters[v]);
      assert v in n.waiters && Rearms(n.waiters[v]);
    }
  }

  lemma SettleKeepsInv(st: State, p: nat, fetched: Fetched)
    requires Inv(st) && Enabled(st, FetchSettles(p, fetched))
    ensures Inv(After(st, FetchSettles(p, fetched)))
  {
    var n := After(st, FetchSettles(p, fetched));
    assert n.waiters == st.waiters;
  }

  // ---------- schedules ----------

  /** Runs a schedule, skipping turns that cannot happen. */
  function Run(st: State, turns: seq<Turn>): State
    decreases |turns|
  {
    if turns == [] then st
    else Run(if Enabled(st, turns[0]) then After(st, turns[0]) else st, turns[1..])
  }

  lemma {:induction false} RunKeepsInv(st: State, turns: seq<Turn>)
    requires Inv(st)
    ensures Inv(Run(st, turns))
    decreases |turns|
  {
    if turns != [] {
      if Enabled(st, turns[0]) {
        TurnKeepsInv(st, turns[0]);
      }
      RunKeepsInv(if Enabled(st, turns[0]) then After(st, turns[0]) else st, turns[1..]);
    }
  }

  /**
   In every schedule: at most one fetch is in flight, at most one timer is armed, the loop is alive
   between start and shutdown, and after shutdown no timer is armed.
   */
  lemma EverySchedule(turns: seq<Turn>)
    ensures var st := Run(INIT, turns);
      && (forall p, q | PromisePending(st, p) && PromisePending(st, q) :: p == q)
      && (forall h, k | h in st.armed && k in st.armed :: h == k)
      && (st.startDone && !st.shutdown ==> st.armed != {} || exists w :: w in st.waiters && Rearms(st.waiters[w]))
      && (st.shutdown ==> st.armed == {} && st.cache == EMPTY)
  {
    RunKeepsInv(INIT, turns);
    var st := Run(INIT, turns);
    if st.refreshTimer.Some? {
      assert st.refreshTimer.value in st.armed;
    }
  }

  lemma TurnAfterShutdown(st: State, turn: Turn)
    requires Inv(st) && st.shutdown && Enabled(st, turn)
    ensures var n := After(st, turn); n.shutdown && n.events == st.events && n.promises.Keys == st.promises.Keys
  {
  }

  /** After shutdown no late response is applied or reported, no timer is armed, and no fetch is started. */
  lemma {:induction false} ShutdownIsTerminal(st: State, turns: seq<Turn>)
    requires Inv(st) && st.shutdown
    ensures var u := Run(st, turns);
      && u.shutdown && u.armed == {} && u.cache == EMPTY && u.events == st.events
      && u.promises.Keys == st.promises.Keys
    decreases |turns|
  {
    if turns != [] {
      if Enabled(st, turns[0]) {
        TurnKeepsInv(st, turns[0]);
        TurnAfterShutdown(st, turns[0]);
      }
      ShutdownIsTerminal(if Enabled(st, turns[0]) then After(st, turns[0]) else st, turns[1..]);
    }
  }

  // ---------- outstanding refreshes end, and re-arm ----------

  predicate HoldsSlot(w: Waiter) {
    w.owner && !w.released
  }

  /** How many turns of its own a refresh still needs: its fetch settles, its owner releases it, it goes on. */
  function Ahead(st: State, w: nat): nat {
    if w !in st.waiters then 0
    else
      (if PromiseSettled(st, st.waiters[w].promise) then 0 else 1) + (if HoldsSlot(st.waiters[w]) then 1 else 0) + 1
  }

  /** The next of these turns. */
  predicate Advances(st: State, w: nat, turn: Turn) {
    w in st.waiters &&
    if !PromiseSettled(st, st.waiters[w].promise) then turn.FetchSettles? && turn.promise == st.waiters[w].promise
    else if HoldsSlot(st.waiters[w]) then turn == OwnerReleases(w)
    else turn == Continues(w)
  }

  /** The next turn can always happen, whatever its fetch returns. */
  lemma SomeTurnAdvances(st: State, w: nat, fetched: Fetched) returns (turn: Turn)
    requires Inv(st) && w in st.waiters
    ensures Enabled(st, turn) && Advances(st, w, turn)
    ensures turn.FetchSettles? ==> turn.fetched == fetched
  {
    var waiter := st.waiters[w];
    turn := if !PromiseSettled(st, waiter.promise) then FetchSettles(waiter.promise, fetched)
            else if HoldsSlot(waiter) then OwnerReleases(w)
            else Continues(w);
  }

  lemma OtherTurnKeepsWaiter(st: State, w: nat, turn: Turn)
    requires Enabled(st, turn) && w in st.waiters && w < st.next
    requires turn != OwnerReleases(w) && turn != Continues(w)
    ensures var n := After(st, turn); w in n.waiters && n.waiters[w] == st.waiters[w]
  {
  }

  lemma OtherTurnKeepsPromise(st: State, p: nat, turn: Turn)
    requires Enabled(st, turn) && p in st.promises && p < st.next && !(turn.FetchSettles? && turn.promise == p)
    ensures PromiseSettled(After(st, turn), p) <==> PromiseSettled(st, p)
  {
  }

  /** No other turn sets a refresh back or takes it away. */
  lemma TurnAheadIff(st: State, w: nat, turn: Turn)
    requires Inv(st) && w in st.waiters && Enabled(st, turn)
    ensures Ahead(After(st, turn), w) == Ahead(st, w) - if Advances(st, w, turn) then 1 else 0
  {
    var p := st.waiters[w].promise;
    if turn != OwnerReleases(w) && turn != Continues(w) {
      OtherTurnKeepsWaiter(st, w, turn);
    }
    if !(turn.FetchSettles? && turn.promise == p) {
      OtherTurnKeepsPromise(st, p, turn);
    }
  }

  /** In the last of them, a running client arms its timer. */
  lemma LastTurnArms(st: State, w: nat)
    requires Inv(st) && !st.shutdown && Enabled(st, Continues(w))
    ensures var n := After(st, Continues(w)); n.refreshTimer.Some? && !n.shutdown
  {
  }

  /** How often a schedule takes the next turn of the refresh. */
  function Helped(st: State, w: nat, turns: seq<Turn>): nat
    decreases |turns|
  {
    if turns == [] then 0
    else if Enabled(st, turns[0]) then
      (if Advances(st, w, turns[0]) then 1 else 0) + Helped(After(st, turns[0]), w, turns[1..])
    else Helped(st, w, turns[1..])
  }

  /** The refresh of `w` is over, and the timer was armed when it ended. */
  ghost predicate Rearmed(st: State, w: nat, turns: seq<Turn>) {
    exists k :: 0 <= k < |turns| && turns[k] == Continues(w) && Ends(st, w, turns[..k])
  }

  /** After this beginning of a schedule the refresh takes its last turn, which arms the timer. */
  predicate Ends(st: State, w: nat, begun: seq<Turn>) {
    var before := Run(st, begun);
    && w in before.waiters && Enabled(before, Continues(w))
    && After(before, Continues(w)).refreshTimer.Some?
  }

  lemma RunCons(st: State, turn: Turn, rest: seq<Turn>)
    ensures Run(st, [turn] + rest) == Run(if Enabled(st, turn) then After(st, turn) else st, rest)
  {
    assert ([turn] + rest)[1..] == rest;
  }

  lemma {:induction false} ShutdownStays(st: State, turns: seq<Turn>)
    requires st.shutdown
    ensures Run(st, turns).shutdown
    decreases |turns|
  {
    if turns != [] {
      ShutdownStays(if Enabled(st, turns[0]) then After(st, turns[0]) else st, turns[1..]);
    }
  }

  lemma TurnRevivesNone(st: State, w: nat, turn: Turn)
    requires Enabled(st, turn) && w !in st.waiters && w < st.next
    ensures w !in After(st, turn).waiters && w < After(st, turn).next
  {
  }

  lemma {:induction false} GoneStaysGone(st: State, w: nat, turns: seq<Turn>)
    requires w !in st.waiters && w < st.next
    ensures w !in Run(st, turns).waiters && Helped(st, w, turns) == 0
    decreases |turns|
  {
    if turns != [] {
      if Enabled(st, turns[0]) {
        TurnRevivesNone(st, w, turns[0]);
        GoneStaysGone(After(st, turns[0]), w, turns[1..]);
      } else {
        GoneStaysGone(st, w, turns[1..]);
      }
    }
  }

  /** A later end is an end of the longer schedule. */
  lemma RearmedLater(st: State, w: nat, turns: seq<Turn>)
    requires turns != []
    requires Rearmed(if Enabled(st, turns[0]) then After(st, turns[0]) else st, w, turns[1..])
    ensures Rearmed(st, w, turns)
  {
    var next := if Enabled(st, turns[0]) then After(st, turns[0]) else st;
    var k :| 0 <= k < |turns[1..]| && turns[1..][k] == Continues(w) && Ends(next, w, turns[1..][..k]);
    assert turns[..k + 1] == [turns[0]] + turns[1..][..k];
    RunCons(st, turns[0], turns[1..][..k]);
    assert turns[k + 1] == Continues(w) && Ends(st, w, turns[..k + 1]);
  }

  lemma {:induction false} RunAppend(st: State, a: seq<Turn>, b: seq<Turn>)
    ensures Run(st, a + b) == Run(Run(st, a), b)
    decreases |a|
  {
    if a == [] {
      assert a + b == b;
    } else {
      assert (a + b)[1..] == a[1..] + b;
      RunAppend(if Enabled(st, a[0]) then After(st, a[0]) else st, a[1..], b);
    }
  }

  lemma OverForGood(st: State, w: nat, rest: seq<Turn>)
    requires Enabled(st, Continues(w)) && w < st.next
    ensures w !in Run(st, [Continues(w)] + rest).waiters
  {
    RunCons(st, Continues(w), rest);
    GoneStaysGone(After(st, Continues(w)), w, rest);
  }

  lemma RearmedIsOver(st: State, w: nat, turns: seq<Turn>)
    requires Inv(st) && Rearmed(st, w, turns)
    ensures w !in Run(st, turns).waiters
  {
    var k :| 0 <= k < |turns| && turns[k] == Continues(w) && Ends(st, w, turns[..k]);
    var rest := turns[k + 1..];
    assert turns == turns[..k] + ([Continues(w)] + rest);
    RunAppend(st, turns[..k], [Continues(w)] + rest);
    RunKeepsInv(st, turns[..k]);
    OverForGood(Run(st, turns[..k]), w, rest);
  }

  /** A schedule that begins with the last turn of the refresh. */
  lemma EndsAtOnce(st: State, w: nat, turns: seq<Turn>)
    requires Inv(st) && !st.shutdown && turns != [] && Enabled(st, turns[0])
    requires w in st.waiters && w !in After(st, turns[0]).waiters
    ensures Rearmed(st, w, turns) && Ahead(st, w) == 1
    ensures w !in Run(st, turns).waiters && Helped(st, w, turns) == 1
  {
    var n := After(st, turns[0]);
    TurnAheadIff(st, w, turns[0]);
    LastTurnArms(st, w);
    assert turns[0] == Continues(w) && Ends(st, w, turns[..0]);
    GoneStaysGone(n, w, turns[1..]);
  }

  /**
   Every schedule of a running client, whatever the fetches return: an outstanding refresh is over exactly
   when the schedule has taken all turns the refresh needed, at most three; and then the timer was armed.
   */
  lemma {:induction false} OutstandingRefreshRearms(st: State, w: nat, turns: seq<Turn>)
    requires Inv(st) && w in st.waiters && !Run(st, turns).shutdown
    ensures Helped(st, w, turns) + Ahead(Run(st, turns), w) == Ahead(st, w) <= 3
    ensures w !in Run(st, turns).waiters <==> Rearmed(st, w, turns)
    decreases |turns|
  {
    if st.shutdown {
      ShutdownStays(st, turns);
    }
    if Rearmed(st, w, turns) {
      RearmedIsOver(st, w, turns);
    }
    if turns != [] {
      var next := if Enabled(st, turns[0]) then After(st, turns[0]) else st;
      if w !in next.waiters {
        EndsAtOnce(st, w, turns);
      } else {
        if Enabled(st, turns[0]) {
          TurnKeepsInv(st, turns[0]);
          TurnAheadIff(st, w, turns[0]);
        }
        OutstandingRefreshRearms(next, w, turns[1..]);
        if Rearmed(next, w, turns[1..]) {
          RearmedLater(st, w, turns);
        }
      }
    }
  }

  // ---------- what the cache holds ----------

  /** The responses that a schedule applies: those that settle before the client is shut down. */
  function Responses(st: State, turns: seq<Turn>): seq<Fetched>
    decreases |turns|
  {
    if turns == [] then []
    else if !Enabled(st, turns[0]) then Responses(st, turns[1..])
    else
      (if turns[0].FetchSettles? && !st.shutdown then [turns[0].fetched] else [])
      + Responses(After(st, turns[0]), turns[1..])
  }

  predicate HadSuccess(rs: seq<Fetched>) {
    exists k :: 0 <= k < |rs| && rs[k].Modified?
  }

  /** The toggles of the last full response. */
  function LastApp(rs: seq<Fetched>): seq<PublicToggle> {
    if rs == [] then []
    else if rs[|rs| - 1].Modified? then rs[|rs| - 1].app
    else LastApp(rs[..|rs| - 1])
  }

  /** The tag that belongs to them: its own, or one that a later "not modified" brought along. */
  function LastTag(rs: seq<Fetched>): Option<string> {
    if rs == [] then None
    else match rs[|rs| - 1]
      case Modified(_, etag) => etag
      case NotModified(etag) =>
        if etag.Some? && HadSuccess(rs[..|rs| - 1]) then etag else LastTag(rs[..|rs| - 1])
      case FetchFailed => LastTag(rs[..|rs| - 1])
  }

  /** The last response is no use: nothing came, or "not modified" while there is nothing to keep. */
  predicate EndsInFailure(rs: seq<Fetched>) {
    rs != [] &&
    (rs[|rs| - 1].FetchFailed? || (rs[|rs| - 1].NotModified? && !HadSuccess(rs[..|rs| - 1])))
  }

  /** How many useless responses came since the last useful one. */
  function FailuresInARow(rs: seq<Fetched>): nat {
    if EndsInFailure(rs) then 1 + FailuresInARow(rs[..|rs| - 1]) else 0
  }

  /** What is reported for the last response. */
  function Report(rs: seq<Fetched>): Event {
    if EndsInFailure(rs) then RefreshFailed(FailuresInARow(rs)) else RefreshSucceeded(|LastApp(rs)|)
  }

  /** The cache and the reports are what these responses make of them. */
  predicate Reflects(st: State, rs: seq<Fetched>) {
    && st.cache == Snapshot(LastApp(rs), LastTag(rs), HadSuccess(rs), FailuresInARow(rs))
    && |st.events| == |rs| && forall k | 0 <= k < |rs| :: st.events[k] == Report(rs[..k + 1])
  }

  lemma SuccessSnoc(rs: seq<Fetched>, r: Fetched)
    ensures HadSuccess(rs + [r]) <==> HadSuccess(rs) || r.Modified?
  {
    var more := rs + [r];
    assert more[|rs|] == r && forall k | 0 <= k < |rs| :: more[k] == rs[k];
  }

  lemma ResponseReflects(st: State, rs: seq<Fetched>, turn: Turn)
    requires turn.FetchSettles? && Enabled(st, turn) && !st.shutdown && Reflects(st, rs)
    ensures Reflects(After(st, turn), rs + [turn.fetched])
  {
    var more, n := rs + [turn.fetched], After(st, turn);
    assert more[..|rs|] == rs && more[|more| - 1] == turn.fetched && more[..|more|] == more;
    SuccessSnoc(rs, turn.fetched);
    assert n.events == st.events + [Report(more)];
    forall k | 0 <= k < |rs|
      ensures st.events[k] == Report(more[..k + 1])
    {
      assert more[..k + 1] == rs[..k + 1];
    }
  }

  lemma OtherTurnReflects(st: State, rs: seq<Fetched>, turn: Turn)
    requires Enabled(st, turn) && !turn.FetchSettles? && !After(st, turn).shutdown && Reflects(st, rs)
    ensures Reflects(After(st, turn), rs)
  {
    assert After(st, turn).cache == st.cache && After(st, turn).events == st.events;
  }

  /**
   Over whole schedules: as long as the client is not shut down, its cache and its reports are those of the
   responses so far, in the order in which they settled.
   */
  lemma {:induction false} CacheReflectsResponses(st: State, turns: seq<Turn>, rs: seq<Fetched>)
    requires Reflects(st, rs) && !Run(st, turns).shutdown
    ensures Reflects(Run(st, turns), rs + Responses(st, turns))
    decreases |turns|
  {
    if turns == [] {
      assert rs + [] == rs;
    } else if !Enabled(st, turns[0]) {
      CacheReflectsResponses(st, turns[1..], rs);
    } else {
      var n := After(st, turns[0]);
      if n.shutdown {
        ShutdownStays(n, turns[1..]);
      }
      if turns[0].FetchSettles? {
        var r, later := turns[0].fetched, Responses(n, turns[1..]);
        ResponseReflects(st, rs, turns[0]);
        CacheReflectsResponses(n, turns[1..], rs + [r]);
        assert rs + [r] + later == rs + ([r] + later);
      } else {
        OtherTurnReflects(st, rs, turns[0]);
        CacheReflectsResponses(n, turns[1..], rs);
        assert [] + Responses(n, turns[1..]) == Responses(n, turns[1..]);
      }
    }
  }

  /** The same from the start of the client. */
  lemma EveryCacheReflectsResponses(turns: seq<Turn>)
    requires !Run(INIT, turns).shutdown
    ensures Reflects(Run(INIT, turns), Responses(INIT, turns))
  {
    CacheReflectsResponses(INIT, turns, []);
    assert [] + Responses(INIT, turns) == Responses(INIT, turns);
  }
}
