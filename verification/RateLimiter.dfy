/**
 The in-memory limiter behind login attempts and the kill switch. A window opens with the first call
 after the previous one has expired, so it is not a sliding window: the exact bound over any closed
 interval of one window length is almost twice the limit.
 */
module RateLimiter {

  datatype Attempt = Attempt(count: int, windowFrom: int)

  type Table = map<string, Attempt>

  datatype Verdict = Verdict(table: Table, allowed: bool)

  function Decide(table: Table, limit: int, window: int, key: string, now: int): Verdict {
    if key !in table || now - table[key].windowFrom > window then
      Verdict(table[key := Attempt(1, now)], true)
    else if table[key].count >= limit then Verdict(table, false)
    else Verdict(table[key := Attempt(table[key].count + 1, table[key].windowFrom)], true)
  }

  class WindowLimiter {
    var attempts: Table
    const limit: int
    const window: int

    constructor (limit: int, window: int)
      ensures this.limit == limit && this.window == window && attempts == map[]
    {
      this.limit := limit;
      this.window := window;
      attempts := map[];
    }

    method Allow(key: string, now: int) returns (allowed: bool)
      modifies this
      ensures Verdict(attempts, allowed) == Decide(old(attempts), limit, window, key, now)
      ensures attempts - {key} == old(attempts) - {key} && key in attempts
      ensures !allowed ==> attempts == old(attempts)
      ensures key !in old(attempts) || now - old(attempts)[key].windowFrom > window ==>
              allowed && attempts[key] == Attempt(1, now)
      ensures allowed && key in old(attempts) && now - old(attempts)[key].windowFrom <= window ==>
              attempts[key] == Attempt(old(attempts)[key].count + 1, old(attempts)[key].windowFrom)
      ensures !allowed <==>
              key in old(attempts) && now - old(attempts)[key].windowFrom <= window && old(attempts)[key].count >= limit
      ensures allowed ==>
              && attempts[key].count <= Effective(limit)
              && now - attempts[key].windowFrom <= (if window < 0 then 0 else window)
    {
      if key !in attempts || now - attempts[key].windowFrom > window {
        attempts := attempts[key := Attempt(1, now)];
        return true;
      }
      var a := attempts[key];
      if a.count >= limit {
        return false;
      }
      attempts := attempts[key := a.(count := a.count + 1)];
      allowed := true;
    }

    method Reset(key: string)
      modifies this
      ensures attempts == old(attempts) - {key}
    {
      attempts := map k | k in attempts && k != key :: attempts[k];
    }
  }

  // ---------- traces ----------

  datatype Call = Allow(key: string, now: int) | Reset(key: string)

  /** The clock never runs backwards, and starts no earlier than `from`. */
  predicate Monotone(calls: seq<Call>, from: int) {
    calls == [] ||
    (match calls[0]
     case Allow(_, now) => from <= now && Monotone(calls[1..], now)
     case Reset(_) => Monotone(calls[1..], from))
  }

  function After(table: Table, limit: int, window: int, call: Call): Table {
    match call
    case Allow(key, now) => Decide(table, limit, window, key, now).table
    case Reset(key) => table - {key}
  }

  /** Allowed calls for `key` with a time in the closed interval from `t` to `t + window`. */
  function Allowed(table: Table, limit: int, window: int, calls: seq<Call>, key: string, t: int): nat
    decreases |calls|
  {
    if calls == [] then 0
    else
      var c := calls[0];
      (if c.Allow? && c.key == key && t <= c.now <= t + window && Decide(table, limit, window, key, c.now).allowed
       then 1 else 0)
      + Allowed(After(table, limit, window, c), limit, window, calls[1..], key, t)
  }

  predicate NoReset(calls: seq<Call>, key: string) {
    forall k | 0 <= k < |calls| :: calls[k] != Reset(key)
  }

  /** A limit below one still lets the first call of each window through. */
  function Effective(limit: int): nat {
    if limit < 1 then 1 else limit
  }

  /**
   The exact bound over a closed interval of one window length: one window that opened earlier, without the
   place of the call that opened it, and another one. A window of zero is over with its tick, and the
   interval of a negative one is empty.
   */
  function Most(limit: int, window: int): nat {
    if window < 0 then 0
    else if window == 0 then Effective(limit)
    else 2 * Effective(limit) - 1
  }

  /**
   How many more calls the interval can see at time `from`. Before the interval, anything up to the
   bound. Inside it, a window that opened earlier can still use its free places, but not the place of
   the call that opened it, and then one more window can open; a window that opened inside is the last.
   */
  function Room(table: Table, limit: int, window: int, key: string, t: int, from: int): int {
    var most := Effective(limit);
    if window < 0 || key !in table || from < t then Most(limit, window)
    else
      var a := table[key];
      if a.windowFrom < t then (if window == 0 then 0 else most - a.count) + most
      else if a.windowFrom <= t + window then most - a.count
      else 0
  }

  predicate CountsOk(table: Table, limit: int, key: string, now: int) {
    key in table ==> 1 <= table[key].count <= Effective(limit) && table[key].windowFrom <= now
  }

  lemma {:induction false} RoomIsEnough(table: Table, limit: int, window: int, calls: seq<Call>,
                                        key: string, t: int, from: int)
    requires Monotone(calls, from) && NoReset(calls, key) && CountsOk(table, limit, key, from)
    ensures Allowed(table, limit, window, calls, key, t) <= Room(table, limit, window, key, t, from)
    decreases |calls|
  {
    if calls != [] {
      var c := calls[0];
      var next := After(table, limit, window, c);
      assert c != Reset(key);
      assert forall k | 0 <= k < |calls[1..]| :: calls[1..][k] == calls[k + 1];
      RoomIsEnough(next, limit, window, calls[1..], key, t, if c.Allow? then c.now else from);
    }
  }

  /**
   The bound, for every limit and window: with a clock that never runs backwards and no reset of the key,
   any closed interval of one window length contains no more allowed calls, whatever the other keys do.
   */
  lemma RateBound(limit: int, window: int, calls: seq<Call>, key: string, t: int, from: int)
    requires Monotone(calls, from) && NoReset(calls, key)
    ensures Allowed(map[], limit, window, calls, key, t) <= Most(limit, window)
  {
    RoomIsEnough(map[], limit, window, calls, key, t, from);
  }

  // ---------- the bound is reached ----------

  function Repeat(key: string, now: int, n: nat): seq<Call> {
    if n == 0 then [] else [Allow(key, now)] + Repeat(key, now, n - 1)
  }

  /** One call opens a window; the rest of it is used at its very end, and all of the next one right after. */
  function Burst(key: string, limit: int, window: nat): seq<Call> {
    [Allow(key, 0)] + (Repeat(key, window, Effective(limit) - 1) + Repeat(key, window + 1, Effective(limit)))
  }

  lemma NoResetAppend(a: seq<Call>, b: seq<Call>, key: string)
    requires NoReset(a, key) && NoReset(b, key)
    ensures NoReset(a + b, key)
  {
  }

  lemma {:induction false} NoResetRepeat(key: string, now: int, n: nat)
    ensures NoReset(Repeat(key, now, n), key)
  {
    if n > 0 {
      NoResetRepeat(key, now, n - 1);
      NoResetAppend([Allow(key, now)], Repeat(key, now, n - 1), key);
    }
  }

  lemma MonotoneCons(key: string, now: int, rest: seq<Call>, from: int)
    requires from <= now && Monotone(rest, now)
    ensures Monotone([Allow(key, now)] + rest, from)
  {
    assert ([Allow(key, now)] + rest)[1..] == rest;
  }

  lemma {:induction false} MonotoneRepeat(key: string, now: int, n: nat, rest: seq<Call>, from: int)
    requires from <= now && Monotone(rest, now)
    ensures Monotone(Repeat(key, now, n) + rest, from)
    decreases n
  {
    if n == 0 {
      assert Repeat(key, now, 0) + rest == rest;
      MonotoneEarlier(rest, now, from);
    } else {
      MonotoneRepeat(key, now, n - 1, rest, now);
      MonotoneCons(key, now, Repeat(key, now, n - 1) + rest, from);
      assert Repeat(key, now, n) + rest == [Allow(key, now)] + (Repeat(key, now, n - 1) + rest);
    }
  }

  lemma {:induction false} MonotoneEarlier(calls: seq<Call>, now: int, from: int)
    requires from <= now && Monotone(calls, now)
    ensures Monotone(calls, from)
  {
    if calls != [] && calls[0].Reset? {
      MonotoneEarlier(calls[1..], now, from);
    }
  }

  lemma AllowedCons(table: Table, limit: int, window: int, key: string, now: int, rest: seq<Call>,
                    t: int, next: Table)
    requires t <= now <= t + window && Decide(table, limit, window, key, now) == Verdict(next, true)
    ensures Allowed(table, limit, window, [Allow(key, now)] + rest, key, t)
         == 1 + Allowed(next, limit, window, rest, key, t)
  {
    assert ([Allow(key, now)] + rest)[1..] == rest;
  }

  /** Calls inside an open window are all counted while there are places left. */
  lemma {:induction false} RepeatCounts(table: Table, limit: int, window: int, key: string, now: int, n: nat,
                                        rest: seq<Call>, t: int, a: Attempt)
    requires t <= now <= t + window
    requires key in table && table[key] == a && now - a.windowFrom <= window && a.count + n <= Effective(limit)
    requires a.count >= 1
    ensures Allowed(table, limit, window, Repeat(key, now, n) + rest, key, t)
         == n + Allowed(table[key := Attempt(a.count + n, a.windowFrom)], limit, window, rest, key, t)
    decreases n
  {
    if n == 0 {
      assert Repeat(key, now, 0) + rest == rest;
      assert table[key := Attempt(a.count + 0, a.windowFrom)] == table;
    } else {
      var next := table[key := Attempt(a.count + 1, a.windowFrom)];
      assert Repeat(key, now, n) + rest == [Allow(key, now)] + (Repeat(key, now, n - 1) + rest);
      AllowedCons(table, limit, window, key, now, Repeat(key, now, n - 1) + rest, t, next);
      RepeatCounts(next, limit, window, key, now, n - 1, rest, t, next[key]);
      assert next[key := Attempt(a.count + n, a.windowFrom)] == table[key := Attempt(a.count + n, a.windowFrom)];
    }
  }

  /** A window that opens inside the interval is used in full. */
  lemma FullWindow(table: Table, limit: int, window: nat, key: string, now: int, t: int)
    requires t <= now <= t + window && (key in table ==> now - table[key].windowFrom > window)
    ensures Allowed(table, limit, window, Repeat(key, now, Effective(limit)), key, t) == Effective(limit)
  {
    var n: nat := Effective(limit) - 1;
    var next := table[key := Attempt(1, now)];
    assert Repeat(key, now, n) + [] == Repeat(key, now, n);
    AllowedCons(table, limit, window, key, now, Repeat(key, now, n), t, next);
    RepeatCounts(next, limit, window, key, now, n, [], t, Attempt(1, now));
  }

  lemma BurstCounts(key: string, limit: int, window: nat)
    requires window >= 1
    ensures Allowed(map[], limit, window, Burst(key, limit, window), key, window) == 2 * Effective(limit) - 1
  {
    var most := Effective(limit);
    var first, second := Repeat(key, window, most - 1), Repeat(key, window + 1, most);
    assert Burst(key, limit, window)[1..] == first + second;
    var table: Table := map[key := Attempt(1, 0)];
    assert After(map[], limit, window, Allow(key, 0)) == table;
    RepeatCounts(table, limit, window, key, window, most - 1, second, window, Attempt(1, 0));
    FullWindow(table[key := Attempt(most, 0)], limit, window, key, window + 1, window);
  }

  lemma BurstIsMonotone(key: string, limit: int, window: nat)
    ensures Monotone(Burst(key, limit, window), 0) && NoReset(Burst(key, limit, window), key)
  {
    var most := Effective(limit);
    var first, second := Repeat(key, window, most - 1), Repeat(key, window + 1, most);
    assert Burst(key, limit, window)[1..] == first + second;
    assert second + [] == second;
    MonotoneRepeat(key, window + 1, most, [], window);
    MonotoneRepeat(key, window, most - 1, second, 0);
    NoResetRepeat(key, window, most - 1);
    NoResetRepeat(key, window + 1, most);
    NoResetAppend(first, second, key);
    NoResetAppend([Allow(key, 0)], first + second, key);
  }

  /** For every limit and every window some run reaches the bound. */
  lemma BoundIsTight(key: string, limit: int, window: int) returns (calls: seq<Call>, t: int)
    ensures Monotone(calls, 0) && NoReset(calls, key)
    ensures Allowed(map[], limit, window, calls, key, t) == Most(limit, window)
  {
    if window < 0 {
      calls, t := [], 0;
    } else if window == 0 {
      calls, t := Repeat(key, 0, Effective(limit)), 0;
      assert calls + [] == calls;
      MonotoneRepeat(key, 0, Effective(limit), [], 0);
      NoResetRepeat(key, 0, Effective(limit));
      FullWindow(map[], limit, window, key, 0, 0);
    } else {
      calls, t := Burst(key, limit, window), window;
      BurstIsMonotone(key, limit, window);
      BurstCounts(key, limit, window);
    }
  }

  // ---------- keys are independent ----------

  /** The calls that name `key`. */
  function Only(calls: seq<Call>, key: string): seq<Call> {
    if calls == [] then []
    else (if calls[0].key == key then [calls[0]] else []) + Only(calls[1..], key)
  }

  /** The verdicts on the calls for `key`, in order. */
  function Verdicts(table: Table, limit: int, window: int, calls: seq<Call>, key: string): seq<bool>
    decreases |calls|
  {
    if calls == [] then []
    else
      var c := calls[0];
      (if c.Allow? && c.key == key then [Decide(table, limit, window, key, c.now).allowed] else [])
      + Verdicts(After(table, limit, window, c), limit, window, calls[1..], key)
  }

  /** What other keys do changes nothing: dropping all their calls leaves every verdict as it is. */
  lemma {:induction false} KeysAreIndependent(table: Table, table': Table, limit: int, window: int,
                                              calls: seq<Call>, key: string, t: int)
    requires (key in table <==> key in table') && (key in table ==> table[key] == table'[key])
    ensures Verdicts(table, limit, window, calls, key) == Verdicts(table', limit, window, Only(calls, key), key)
    ensures Allowed(table, limit, window, calls, key, t) == Allowed(table', limit, window, Only(calls, key), key, t)
    decreases |calls|
  {
    if calls != [] {
      var c := calls[0];
      if c.key == key {
        assert Only(calls, key)[1..] == Only(calls[1..], key);
        var next, next' := After(table, limit, window, c), After(table', limit, window, c);
        KeysAreIndependent(next, next', limit, window, calls[1..], key, t);
      } else {
        assert Only(calls, key) == Only(calls[1..], key);
        KeysAreIndependent(After(table, limit, window, c), table', limit, window, calls[1..], key, t);
      }
    }
  }
}
