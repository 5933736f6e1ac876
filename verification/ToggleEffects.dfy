/**
 What each toggle operation means for its caller, told through the rows it finds and leaves: when it is
 refused and how, which rows it changes, and in which columns.
 */
module ToggleEffects {
  import opened Wrappers
  import opened Paths
  import opened ToggleStore
  import opened ToggleOperations

  // ---------- refusals ----------

  /** Why an operation on one live row is refused, or `Ok`. */
  function Refusal(s: Store, id: Id, appId: string): Outcome {
    if id == "" || appId == "" then Failed(Validation)
    else if id !in s || s[id].deleted then Failed(NotFound)
    else if s[id].appId != appId then Failed(Validation)
    else Ok
  }

  function CreateRefusal(s: Store, apps: set<string>, path: string, appId: string, taken: bool): Outcome {
    if path == "" || appId == "" then Failed(Validation)
    else if appId !in apps then Failed(NotFound)
    else if taken then Failed(AlreadyExists)
    else Ok
  }

  function UpdateRefusal(path: string, appId: string, found: bool): Outcome {
    if path == "" || appId == "" then Failed(Validation)
    else if found then Ok
    else Failed(NotFound)
  }

  function TreeRefusal(s: Store, id: Id, appId: string): Outcome {
    if id !in s || s[id].deleted then Failed(NotFound)
    else if s[id].appId != appId then Failed(Validation)
    else Ok
  }

  function RestoreRefusal(s: Store, id: Id, appId: string, collides: bool): Outcome {
    if id == "" || appId == "" then Failed(Validation)
    else if id !in s then Failed(NotFound)
    else if s[id].appId != appId || !s[id].archivedRoot then Failed(Validation)
    else if collides then Failed(AlreadyExists)
    else Ok
  }

  /** Some row below `root` has its path taken by a live row. */
  ghost predicate Collides(s: Store, root: Id)
    requires Structured(s)
  {
    exists d, j :: d in s && Under(s, d, root) && FoundAt(s, j, s[d].path, s[d].appId)
  }

  // ---------- changes ----------

  /** Precisely these rows got the bit, and nothing else changed. */
  ghost predicate EnabledExactly(s: Store, u: Store, ids: set<Id>, enabled: bool) {
    && u.Keys == s.Keys
    && forall i | i in s :: u[i] == if i in ids then s[i].(enabled := enabled) else s[i]
  }

  ghost function LiveBelow(s: Store, root: Id): set<Id>
    requires Structured(s)
  {
    set d | d in s && !s[d].deleted && Under(s, d, root)
  }

  /** The subtree is archived, and its root remembers who did it. */
  ghost predicate ArchivedBelow(s: Store, u: Store, root: Id, user: string)
    requires Structured(s)
  {
    && u.Keys == s.Keys
    && forall i | i in s :: u[i] ==
         if i == root then s[i].(deleted := true, deletedBy := Some(user), archivedRoot := true)
         else if Under(s, i, root) then s[i].(deleted := true)
         else s[i]
  }

  /** The subtree is back, without any mark of its deletion. */
  ghost predicate RevivedBelow(s: Store, u: Store, root: Id)
    requires Structured(s)
  {
    && u.Keys == s.Keys
    && forall i | i in s :: u[i] ==
         if Under(s, i, root) then s[i].(deleted := false, deletedBy := None, archivedRoot := false) else s[i]
  }

  /** Only rows for prefixes of the path are new; they are all there, or an insertion failed. */
  ghost predicate CreatedAlong(s: Store, r: Result, path: string, enabled: bool, appId: string) {
    && (r.outcome == Ok || r.outcome == Failed(Database))
    && Grown(s, r.store, Split(path), 0, enabled, appId)
    && (r.outcome == Ok ==> PathOccupied(r.store, Split(path), 0, appId))
  }

  /** What a bulk update does that gets through `k` of the ids. */
  ghost predicate BulkStopsAt(s: Store, r: Result, ids: seq<Id>, k: nat, enabled: bool, appId: string) {
    && k <= |ids|
    && (forall j | 0 <= j < k :: Refusal(s, ids[j], appId) == Ok)
    && r.outcome == (if k < |ids| then Refusal(s, ids[k], appId) else Ok)
    && (k < |ids| ==> r.outcome != Ok)
    && EnabledExactly(s, r.store, (set i | i in ids[..k]), enabled)
  }

  /** What the operation `op` on `s` means, if `r` is what comes of it. */
  ghost predicate Means(s: Store, apps: set<string>, op: Operation, r: Result)
    requires Structured(s)
  {
    match op
    case Create(path, enabled, appId, _, _) =>
      var refusal := CreateRefusal(s, apps, path, appId, exists j :: FoundAt(s, j, path, appId));
      if refusal != Ok then r == Result(s, refusal)
      else CreatedAlong(s, r, path, enabled, appId)
    case Update(path, enabled, appId) =>
      var refusal := UpdateRefusal(path, appId, exists j :: FoundAt(s, j, path, appId));
      if refusal != Ok then r == Result(s, refusal)
      else r.outcome == Ok && forall i | FoundAt(s, i, path, appId) :: EnabledExactly(s, r.store, {i}, enabled)
    case UpdateById(id, enabled, appId) =>
      if Refusal(s, id, appId) != Ok then r == Result(s, Refusal(s, id, appId))
      else r.outcome == Ok && EnabledExactly(s, r.store, {id}, enabled)
    case BulkUpdate(ids, enabled, appId) =>
      if ids == [] then r == Result(s, Failed(Validation))
      else exists k :: BulkStopsAt(s, r, ids, k, enabled, appId)
    case UpdateTree(id, enabled, appId) =>
      if TreeRefusal(s, id, appId) != Ok then r == Result(s, TreeRefusal(s, id, appId))
      else r.outcome == Ok && EnabledExactly(s, r.store, LiveBelow(s, id), enabled)
    case Delete(id, appId, user) =>
      if Refusal(s, id, appId) != Ok then r == Result(s, Refusal(s, id, appId))
      else r.outcome == Ok && ArchivedBelow(s, r.store, id, user)
    case Restore(id, appId) =>
      var refusal := RestoreRefusal(s, id, appId, Collides(s, id));
      if refusal != Ok then r == Result(s, refusal)
      else r.outcome == Ok && RevivedBelow(s, r.store, id)
  }

  // ---------- the transitions mean it ----------

  lemma OccupiedIff(s: Store, path: string, appId: string)
    ensures Occupied(s, path, appId) <==> exists j :: FoundAt(s, j, path, appId)
  {
    if Occupied(s, path, appId) {
      var j :| Live(s, j) && s[j].path == path && s[j].appId == appId;
      assert FoundAt(s, j, path, appId);
    }
  }

  lemma CreateMeans(s: Store, apps: set<string>, op: Operation)
    requires WellFormed(s) && Supplied(s, op) && op.Create?
    ensures Means(s, apps, op, Apply(s, apps, op))
  {
    OccupiedIff(s, op.path, op.appId);
    InsertionMeans(s, op);
  }

  lemma InsertionMeans(s: Store, op: Operation)
    requires WellFormed(s) && Supplied(s, op) && op.Create?
    ensures var r := CreateFrom(s, Split(op.path), 0, None, op.enabled, op.appId, op.ids, op.faults);
      CreatedAlong(s, r, op.path, op.enabled, op.appId)
  {
    CreateFromIsSafe(s, Split(op.path), 0, None, op.enabled, op.appId, op.ids, op.faults);
    FailsWithDatabase(s, Split(op.path), 0, None, op.enabled, op.appId, op.ids, op.faults);
  }

  lemma {:induction false} FailsWithDatabase(s: Store, parts: seq<string>, level: nat, parent: Option<Id>,
                                             enabled: bool, appId: string, ids: seq<Id>, faults: set<nat>)
    requires |ids| == |parts|
    ensures var out := CreateFrom(s, parts, level, parent, enabled, appId, ids, faults).outcome;
      out == Ok || out == Failed(Database)
    decreases |parts| - level
  {
    if level < |parts| {
      var path := PathTo(parts, level);
      match FindLive(s, path, appId)
      case Some(i) => FailsWithDatabase(s, parts, level + 1, Some(i), enabled, appId, ids, faults);
      case None =>
        var row := NewToggle(ids[level], parts[level], level < |parts| - 1 || enabled, path, level, parent, appId);
        FailsWithDatabase(s[row.id := row], parts, level + 1, Some(row.id), enabled, appId, ids, faults);
    }
  }

  lemma UpdateMeans(s: Store, apps: set<string>, op: Operation)
    requires WellFormed(s) && Supplied(s, op) && op.Update?
    ensures Means(s, apps, op, Apply(s, apps, op))
  {
    OccupiedIff(s, op.path, op.appId);
    forall i | FoundAt(s, i, op.path, op.appId)
      ensures FindLive(s, op.path, op.appId) == Some(i)
    {
      FoundIsUnique(s, i, op.path, op.appId);
    }
  }

  lemma BulkMeans(s: Store, apps: set<string>, op: Operation)
    requires WellFormed(s) && Supplied(s, op) && op.BulkUpdate?
    ensures Means(s, apps, op, Apply(s, apps, op))
  {
    if op.toggleIds != [] {
      var k := FirstRejected(s, op.toggleIds, op.appId);
      assert BulkStopsAt(s, Apply(s, apps, op), op.toggleIds, k, op.enabled, op.appId);
    }
  }

  lemma TreeMeans(s: Store, apps: set<string>, op: Operation)
    requires WellFormed(s) && Supplied(s, op) && op.UpdateTree?
    ensures Means(s, apps, op, Apply(s, apps, op))
  {
    assert LiveSubtree(s, op.id) == LiveBelow(s, op.id);
  }

  lemma DeleteMeans(s: Store, apps: set<string>, op: Operation)
    requires WellFormed(s) && Supplied(s, op) && op.Delete?
    ensures Means(s, apps, op, Apply(s, apps, op))
  {
    assert op.id in s ==> Under(s, op.id, op.id);
  }

  lemma CollidesIff(s: Store, id: Id)
    requires Structured(s)
    ensures Collides(s, id) <==> !CollisionFree(s, id)
  {
    if !CollisionFree(s, id) {
      var d :| d in Subtree(s, id) && Occupied(s, s[d].path, s[d].appId);
      OccupiedIff(s, s[d].path, s[d].appId);
    }
  }

  lemma RestoreMeans(s: Store, apps: set<string>, op: Operation)
    requires WellFormed(s) && Supplied(s, op) && op.Restore?
    ensures Means(s, apps, op, Apply(s, apps, op))
  {
    CollidesIff(s, op.id);
  }

  /** Every operation means what it should. */
  lemma OperationMeans(s: Store, apps: set<string>, op: Operation)
    requires WellFormed(s) && Supplied(s, op)
    ensures Means(s, apps, op, Apply(s, apps, op))
  {
    match op
    case Create(_, _, _, _, _) => CreateMeans(s, apps, op);
    case Update(_, _, _) => UpdateMeans(s, apps, op);
    case UpdateById(_, _, _) =>
    case BulkUpdate(_, _, _) => BulkMeans(s, apps, op);
    case UpdateTree(_, _, _) => TreeMeans(s, apps, op);
    case Delete(_, _, _) => DeleteMeans(s, apps, op);
    case Restore(_, _) => RestoreMeans(s, apps, op);
  }
}
