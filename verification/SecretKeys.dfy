/**
 Service keys of an application and their rotation: a current key, one previous key that still
 authenticates, and pending keys that authenticate nothing.
 */
module SecretKeys {
  import opened Wrappers

  type Id = string

  datatype SecretKey = SecretKey(
    id: Id, keyHash: string, applicationId: Id, createdBy: Id,
    active: bool, isCurrent: bool, lastUsedAt: Option<int>)

  type Keys = map<Id, SecretKey>

  // ---------- the table as a value ----------

  predicate Current(k: SecretKey, app: Id) {
    k.active && k.applicationId == app && k.isCurrent
  }

  predicate Previous(k: SecretKey, app: Id) {
    k.active && k.applicationId == app && !k.isCurrent
  }

  /** The current key becomes the previous one; the previous one is gone. */
  function Rotated(t: Keys, app: Id): Keys {
    map k | k in t && !Previous(t[k], app) :: if Current(t[k], app) then t[k].(isCurrent := false) else t[k]
  }

  function NewKey(id: Id, keyHash: string, app: Id, createdBy: Id, active: bool): SecretKey {
    SecretKey(id, keyHash, app, createdBy, active, true, None)
  }

  predicate ValidOwner(app: Id, createdBy: Id) {
    app != "" && createdBy != ""
  }

  function Regenerated(t: Keys, app: Id, createdBy: Id, id: Id, keyHash: string): Keys {
    if ValidOwner(app, createdBy) then Rotated(t, app)[id := NewKey(id, keyHash, app, createdBy, true)]
    else Rotated(t, app)
  }

  /** Rotation first, then the pending key is switched on, if it is still there. */
  function Activated(t: Keys, id: Id, app: Id): Keys {
    var r := Rotated(t, app);
    if id in r then r[id := r[id].(active := true, isCurrent := true)] else r
  }

  predicate DistinctHashes(keys: Keys) {
    forall i, j | i in keys && j in keys && keys[i].keyHash == keys[j].keyHash :: i == j
  }

  /** A presented key with this hash is let in. */
  ghost predicate Validates(keys: Keys, keyHash: string) {
    exists k :: k in keys && keys[k].active && keys[k].keyHash == keyHash
  }

  /**
   What a rotation does to each row: of the application's active keys the current one loses that mark and
   the others are gone; every other key, pending ones included, stays as it is.
   */
  ghost predicate Turned(t: Keys, u: Keys, app: Id) {
    && (forall k :: k in u <==> k in t && !(t[k].active && t[k].applicationId == app && !t[k].isCurrent))
    && (forall k | k in u ::
          u[k] == if t[k].active && t[k].applicationId == app then t[k].(isCurrent := false) else t[k])
  }

  // ---------- the use case ----------

  class SecretKeyUseCase {
    var keys: Keys

    constructor ()
      ensures keys == map[]
    {
      keys := map[];
    }

    method RevokeSecretKey(id: Id)
      modifies this
      ensures keys == old(keys) - {id}
    {
      keys := map k | k in keys && k != id :: keys[k];
    }

    /** The part of an application's deletion that is about its keys. */
    method DeleteByApplication(app: Id)
      modifies this
      ensures keys == map k | k in old(keys) && old(keys)[k].applicationId != app :: old(keys)[k]
    {
      keys := map k | k in keys && keys[k].applicationId != app :: keys[k];
    }

    /** The ids of an application's keys, each once, in whatever order the store yields them. */
    method GetByApplicationId(app: Id) returns (list: seq<Id>)
      ensures forall k :: k in list <==> k in keys && keys[k].applicationId == app
      ensures forall i, j | 0 <= i < j < |list| :: list[i] != list[j]
    {
      list := [];
      var rest := set k | k in keys && keys[k].applicationId == app;
      while rest != {}
        invariant forall k :: k in keys && keys[k].applicationId == app <==> k in list || k in rest
        invariant forall k | k in list :: k !in rest
        invariant forall i, j | 0 <= i < j < |list| :: list[i] != list[j]
        decreases rest
      {
        var k :| k in rest;
        list := list + [k];
        rest := rest - {k};
      }
    }

    method RotateExistingKeys(app: Id)
      requires Named(keys)
      modifies this
      ensures keys == Rotated(old(keys), app)
      ensures Turned(old(keys), keys, app)
    {
      ghost var t := keys;
      var list := GetByApplicationId(app);
      for i := 0 to |list|
        invariant keys == RotatedSome(t, app, list[..i])
      {
        ListedOnce(list, i);
        RotateNext(t, app, list[..i], list[i]);
        var key := keys[list[i]];
        assert key == t[list[i]] && key.id == list[i];
        if !key.active {
          continue;
        }
        if key.isCurrent {
          keys := keys[key.id := key.(isCurrent := false)];
          continue;
        }
        RevokeSecretKey(key.id);
      }
      assert list[..|list|] == list;
    }

    method CreateSecretKey(app: Id, createdBy: Id, active: bool, id: Id, keyHash: string) returns (out: Outcome)
      modifies this
      ensures out == if ValidOwner(app, createdBy) then Ok else Failed(Validation)
      ensures keys == if out == Ok then old(keys)[id := NewKey(id, keyHash, app, createdBy, active)] else old(keys)
      ensures out == Ok <==> app != "" && createdBy != ""
      ensures out == Ok ==> id in keys && keys[id] == SecretKey(id, keyHash, app, createdBy, active, true, None)
      ensures keys - {id} == old(keys) - {id} && (out != Ok ==> keys == old(keys))
    {
      if app == "" {
        return Failed(Validation);
      }
      if createdBy == "" {
        return Failed(Validation);
      }
      keys := keys[id := NewKey(id, keyHash, app, createdBy, active)];
      out := Ok;
    }

    method RegenerateSecretKey(app: Id, createdBy: Id, id: Id, keyHash: string) returns (out: Outcome)
      requires Named(keys)
      modifies this
      ensures keys == Regenerated(old(keys), app, createdBy, id, keyHash)
      ensures out == if app == "" || createdBy == "" then Failed(Validation) else Ok
      ensures out == Ok ==> id in keys && keys[id] == SecretKey(id, keyHash, app, createdBy, true, true, None)
      ensures out == Ok ==> Turned(old(keys) - {id}, keys - {id}, app)
      ensures out != Ok ==> Turned(old(keys), keys, app)
    {
      RotateExistingKeys(app);
      out := CreateSecretKey(app, createdBy, true, id, keyHash);
    }

    method ActivateAndRotateSecretKey(newKeyId: Id, app: Id) returns (out: Outcome)
      requires Named(keys)
      modifies this
      ensures keys == Activated(old(keys), newKeyId, app)
      ensures out == if newKeyId in Rotated(old(keys), app) then Ok else Failed(NotFound)
      ensures out == Ok <==> newKeyId in old(keys) && !Previous(old(keys)[newKeyId], app)
      ensures out == Ok ==>
              newKeyId in keys && keys[newKeyId] == old(keys)[newKeyId].(active := true, isCurrent := true)
      ensures Turned(old(keys) - {newKeyId}, keys - {newKeyId}, app)
    {
      RotateExistingKeys(app);
      if newKeyId !in keys {
        return Failed(NotFound);
      }
      var newKey := keys[newKeyId].(active := true, isCurrent := true);
      keys := keys[newKeyId := newKey];
      out := Ok;
    }

    /** Authentication: only active keys count, and using one changes nothing but its timestamp. */
    method ValidateSecretKey(keyHash: string, now: int) returns (found: Option<Id>)
      requires Named(keys)
      modifies this
      ensures match found
        case None =>
          && keys == old(keys)
          && (DistinctHashes(keys) ==> forall k | k in keys && keys[k].keyHash == keyHash :: !keys[k].active)
        case Some(k) =>
          && k in old(keys) && old(keys)[k].keyHash == keyHash && old(keys)[k].active
          && keys == old(keys)[k := old(keys)[k].(lastUsedAt := Some(now))]
      ensures DistinctHashes(old(keys)) ==> (found.Some? <==> Validates(old(keys), keyHash))
    {
      var matching := set k | k in keys && keys[k].keyHash == keyHash;
      if matching == {} {
        assert forall k | k in keys && keys[k].keyHash == keyHash :: k in matching;
        return None;
      }
      var k :| k in matching;
      if !keys[k].active {
        return None;
      }
      keys := keys[k := keys[k].(lastUsedAt := Some(now))];
      found := Some(k);
    }
  }

  /** The rotation with only the listed keys visited. */
  ghost function RotatedSome(t: Keys, app: Id, done: seq<Id>): Keys {
    map k | k in t && !(k in done && Previous(t[k], app)) ::
      if k in done && Current(t[k], app) then t[k].(isCurrent := false) else t[k]
  }

  lemma ListedOnce(list: seq<Id>, i: nat)
    requires i < |list| && forall j, k | 0 <= j < k < |list| :: list[j] != list[k]
    ensures list[i] in list && list[i] !in list[..i] && list[..i + 1] == list[..i] + [list[i]]
  {
  }

  lemma RotateNext(t: Keys, app: Id, done: seq<Id>, k: Id)
    requires k in t && t[k].applicationId == app && k !in done
    ensures var u := RotatedSome(t, app, done);
      && k in u && u[k] == t[k]
      && RotatedSome(t, app, done + [k]) ==
           if !t[k].active then u
           else if t[k].isCurrent then u[k := t[k].(isCurrent := false)]
           else u - {k}
  {
    assert forall j :: j in done + [k] <==> j in done || j == k;
  }

  // ---------- the overlap slots ----------

  predicate Named(t: Keys) {
    forall k | k in t :: t[k].id == k
  }

  /** At most one active current and at most one active previous key per application. */
  ghost predicate OneSlotEach(t: Keys) {
    && Named(t)
    && forall i, j | i in t && j in t && t[i].active && t[j].active
                     && t[i].applicationId == t[j].applicationId && t[i].isCurrent == t[j].isCurrent :: i == j
  }

  lemma RotationKeepsSlots(t: Keys, app: Id)
    requires OneSlotEach(t)
    ensures OneSlotEach(Rotated(t, app))
    ensures forall k | k in Rotated(t, app) :: !Current(Rotated(t, app)[k], app)
  {
  }

  lemma RegenerateKeepsSlots(t: Keys, app: Id, createdBy: Id, id: Id, keyHash: string)
    requires OneSlotEach(t) && id !in t
    ensures OneSlotEach(Regenerated(t, app, createdBy, id, keyHash))
  {
    RotationKeepsSlots(t, app);
  }

  /** Holds for any key of the application: pending, current or previous, however often it is repeated. */
  lemma ActivateKeepsSlots(t: Keys, id: Id, app: Id)
    requires OneSlotEach(t) && (id in t ==> t[id].applicationId == app)
    ensures OneSlotEach(Activated(t, id, app))
  {
    RotationKeepsSlots(t, app);
  }

  /** Pending keys are never touched by a rotation. */
  lemma RotationSparesPending(t: Keys, app: Id, k: Id)
    requires k in t && !t[k].active
    ensures k in Rotated(t, app) && Rotated(t, app)[k] == t[k]
  {
  }

  // ---------- runs of rotations ----------

  datatype KeyStep =
    | Regenerate(app: Id, createdBy: Id, id: Id, keyHash: string)
    | Activate(id: Id, app: Id)
    | AddPending(app: Id, createdBy: Id, id: Id, keyHash: string)
    | DropPending(id: Id)

  /** New ids are unused, and what is activated or dropped is a pending key. */
  predicate StepOk(t: Keys, s: KeyStep) {
    match s
    case Regenerate(app, createdBy, id, _) => id !in t && ValidOwner(app, createdBy)
    case Activate(id, app) => id in t && !t[id].active && t[id].applicationId == app
    case AddPending(app, createdBy, id, _) => id !in t && ValidOwner(app, createdBy)
    case DropPending(id) => id in t ==> !t[id].active
  }

  function KeysAfter(t: Keys, s: KeyStep): Keys {
    match s
    case Regenerate(app, createdBy, id, keyHash) => Regenerated(t, app, createdBy, id, keyHash)
    case Activate(id, app) => Activated(t, id, app)
    case AddPending(app, createdBy, id, keyHash) => t[id := NewKey(id, keyHash, app, createdBy, false)]
    case DropPending(id) => t - {id}
  }

  predicate StepsOk(t: Keys, steps: seq<KeyStep>)
    decreases |steps|
  {
    steps == [] || (StepOk(t, steps[0]) && StepsOk(KeysAfter(t, steps[0]), steps[1..]))
  }

  function RunKeys(t: Keys, steps: seq<KeyStep>): Keys
    decreases |steps|
  {
    if steps == [] then t else RunKeys(KeysAfter(t, steps[0]), steps[1..])
  }

  /** The key that a step makes current, if it rotates `app`. */
  function TurnOf(s: KeyStep, app: Id): seq<Id> {
    match s
    case Regenerate(a, _, id, _) => if a == app then [id] else []
    case Activate(id, a) => if a == app then [id] else []
    case _ => []
  }

  /** The keys made current by the rotations of `app`, oldest first. */
  function Turns(steps: seq<KeyStep>, app: Id): seq<Id> {
    if steps == [] then [] else TurnOf(steps[0], app) + Turns(steps[1..], app)
  }

  /** The hash that the steps last gave to the key `id`. */
  function HashGiven(steps: seq<KeyStep>, id: Id): Option<string>
    decreases |steps|
  {
    if steps == [] then None
    else
      var later := HashGiven(steps[1..], id);
      if later.Some? then later
      else match steps[0]
        case Regenerate(_, _, i, keyHash) => if i == id then Some(keyHash) else None
        case AddPending(_, _, i, keyHash) => if i == id then Some(keyHash) else None
        case _ => None
  }

  ghost function Authenticating(t: Keys, app: Id): set<Id> {
    set k | k in t && t[k].active && t[k].applicationId == app
  }

  function LastTwo(ids: seq<Id>): set<Id> {
    if |ids| == 0 then {}
    else if |ids| == 1 then {ids[0]}
    else {ids[|ids| - 1], ids[|ids| - 2]}
  }

  /** The application's active keys are the last two of `turns`, the very last one being current. */
  ghost predicate Slots(t: Keys, app: Id, turns: seq<Id>) {
    && Authenticating(t, app) == LastTwo(turns)
    && (turns != [] ==> t[turns[|turns| - 1]].isCurrent)
    && (|turns| >= 2 ==> turns[|turns| - 1] != turns[|turns| - 2] && !t[turns[|turns| - 2]].isCurrent)
  }

  lemma RotateSlots(t: Keys, app: Id, turns: seq<Id>, u: Keys, id: Id)
    requires Slots(t, app, turns) && id !in Authenticating(t, app)
    requires id in u && u[id].active && u[id].applicationId == app && u[id].isCurrent
    requires forall k | k != id :: (k in u <==> k in Rotated(t, app)) && (k in u ==> u[k] == Rotated(t, app)[k])
    ensures Slots(u, app, turns + [id])
  {
    var next := turns + [id];
    assert next[|next| - 1] == id;
    if turns != [] {
      var last := turns[|turns| - 1];
      assert next[|next| - 2] == last && last in Authenticating(t, app);
      assert forall k | k in Authenticating(t, app) && t[k].isCurrent :: k == last;
      assert forall k | k in Authenticating(u, app) && k != id :: Current(t[k], app);
      assert Current(t[last], app) && last in u;
    } else {
      assert forall k | k in Authenticating(u, app) && k != id :: k in Authenticating(t, app);
    }
    assert Authenticating(u, app) == LastTwo(next);
  }

  lemma OtherSlots(t: Keys, app: Id, turns: seq<Id>, u: Keys)
    requires Slots(t, app, turns)
    requires forall k :: k in t && t[k].active && t[k].applicationId == app ==> k in u && u[k] == t[k]
    requires forall k :: k in u && u[k].active && u[k].applicationId == app ==> k in t && u[k] == t[k]
    ensures Slots(u, app, turns)
  {
    assert Authenticating(u, app) == Authenticating(t, app);
    if turns != [] {
      assert turns[|turns| - 1] in Authenticating(t, app);
      if |turns| >= 2 {
        assert turns[|turns| - 2] in Authenticating(t, app);
      }
    }
  }

  lemma StepMovesSlots(t: Keys, s: KeyStep, app: Id, turns: seq<Id>)
    requires StepOk(t, s) && Slots(t, app, turns)
    ensures Slots(KeysAfter(t, s), app, turns + TurnOf(s, app))
  {
    var u := KeysAfter(t, s);
    if TurnOf(s, app) != [] {
      RotateSlots(t, app, turns, u, s.id);
    } else {
      OtherSlots(t, app, turns, u);
      assert turns + [] == turns;
    }
  }

  lemma TurnsOneByOne(turns: seq<Id>, turn: seq<Id>, rest: seq<Id>)
    ensures (turns + turn) + rest == turns + (turn + rest)
  {
  }

  /**
   After any run of rotations, requests and withdrawals, without revocations or repeated executions,
   the keys of an application that authenticate are exactly those of its last two rotations.
   */
  lemma {:induction false} LastTwoAuthenticate(t: Keys, steps: seq<KeyStep>, app: Id, turns: seq<Id>)
    requires StepsOk(t, steps) && Slots(t, app, turns)
    ensures Slots(RunKeys(t, steps), app, turns + Turns(steps, app))
    decreases |steps|
  {
    if steps == [] {
      assert turns + [] == turns;
    } else {
      var turn := TurnOf(steps[0], app);
      StepMovesSlots(t, steps[0], app, turns);
      LastTwoAuthenticate(KeysAfter(t, steps[0]), steps[1..], app, turns + turn);
      TurnsOneByOne(turns, turn, Turns(steps[1..], app));
    }
  }

  /** Whether a step is about the pending key `k` itself. */
  predicate Touches(s: KeyStep, k: Id) {
    match s
    case Activate(id, _) => id == k
    case DropPending(id) => id == k
    case _ => false
  }

  /** Rotations, whoever asks for them and however often, never touch somebody else's pending key. */
  lemma {:induction false} PendingIsUntouched(t: Keys, steps: seq<KeyStep>, k: Id)
    requires StepsOk(t, steps) && k in t && !t[k].active
    requires forall j | 0 <= j < |steps| :: !Touches(steps[j], k)
    ensures k in RunKeys(t, steps) && RunKeys(t, steps)[k] == t[k]
    decreases |steps|
  {
    if steps != [] {
      match steps[0] {
        case Regenerate(app, _, _, _) => RotationSparesPending(t, app, k);
        case Activate(_, app) => RotationSparesPending(t, app, k);
        case _ =>
      }
      assert forall j | 0 <= j < |steps[1..]| :: steps[1..][j] == steps[j + 1];
      PendingIsUntouched(KeysAfter(t, steps[0]), steps[1..], k);
    }
  }

  /** From the empty table: exactly the keys of the last min(n, 2) rotations authenticate. */
  lemma RotationsFromEmpty(steps: seq<KeyStep>, app: Id)
    requires StepsOk(map[], steps)
    ensures Authenticating(RunKeys(map[], steps), app) == LastTwo(Turns(steps, app))
  {
    LastTwoAuthenticate(map[], steps, app, []);
    assert [] + Turns(steps, app) == Turns(steps, app);
  }

  /** A key keeps the hash that it was given, through all rotations. */
  lemma {:induction false} HashesAreKept(t: Keys, steps: seq<KeyStep>, k: Id)
    requires StepsOk(t, steps) && k in RunKeys(t, steps)
    ensures HashGiven(steps, k).None? ==> k in t
    ensures RunKeys(t, steps)[k].keyHash ==
      match HashGiven(steps, k)
      case Some(keyHash) => keyHash
      case None => t[k].keyHash
    decreases |steps|
  {
    if steps != [] {
      HashesAreKept(KeysAfter(t, steps[0]), steps[1..], k);
    }
  }

  /**
   Through the hashes: after any run from the empty table, a presented key is let in if and only if its
   hash was given to one of the last min(n, 2) keys that the rotations of some application made current.
   */
  lemma LastTwoHashesValidate(steps: seq<KeyStep>, keyHash: string)
    requires StepsOk(map[], steps)
    ensures Validates(RunKeys(map[], steps), keyHash) <==>
      exists app, k :: k in LastTwo(Turns(steps, app)) && HashGiven(steps, k) == Some(keyHash)
  {
    var u := RunKeys(map[], steps);
    if Validates(u, keyHash) {
      var k :| k in u && u[k].active && u[k].keyHash == keyHash;
      RotationsFromEmpty(steps, u[k].applicationId);
      HashesAreKept(map[], steps, k);
      assert k in Authenticating(u, u[k].applicationId);
    }
    if app, k :| k in LastTwo(Turns(steps, app)) && HashGiven(steps, k) == Some(keyHash) {
      RotationsFromEmpty(steps, app);
      assert k in Authenticating(u, app);
      HashesAreKept(map[], steps, k);
    }
  }
}
