/**
 The toggle use cases as transitions of the table, and what whole runs of them keep.
 */
module ToggleOperations {
  import opened Wrappers
  import opened Paths
  import opened ToggleStore

  datatype Operation =
    | Create(path: string, enabled: bool, appId: string, ids: seq<Id>, faults: set<nat>)
    | Update(path: string, enabled: bool, appId: string)
    | UpdateById(id: Id, enabled: bool, appId: string)
    | BulkUpdate(toggleIds: seq<Id>, enabled: bool, appId: string)
    | UpdateTree(id: Id, enabled: bool, appId: string)
    | Delete(id: Id, appId: string, user: string)
    | Restore(id: Id, appId: string)

  datatype Result = Result(store: Store, outcome: Outcome)

  // ---------- lookups and guards ----------

  ghost predicate FoundAt(s: Store, i: Id, path: string, appId: string) {
    Live(s, i) && s[i].path == path && s[i].appId == appId
  }

  ghost function FindLive(s: Store, path: string, appId: string): (found: Option<Id>)
    ensures found.Some? ==> FoundAt(s, found.value, path, appId)
    ensures found.None? <==> !Occupied(s, path, appId)
  {
    if exists i :: FoundAt(s, i, path, appId)
    then var i :| FoundAt(s, i, path, appId); Some(i)
    else assert forall i | Live(s, i) && s[i].path == path && s[i].appId == appId :: FoundAt(s, i, path, appId); None
  }

  /** On a well-formed table a path lookup has at most one answer. */
  lemma FoundIsUnique(s: Store, i: Id, path: string, appId: string)
    requires WellFormed(s) && FoundAt(s, i, path, appId)
    ensures FindLive(s, path, appId) == Some(i)
  {
    assert Occupied(s, path, appId);
    var j := FindLive(s, path, appId).value;
    assert SamePlace(s, i, j);
  }

  /** The checks shared by the operations that name a live row by id. */
  function Target(s: Store, id: Id, appId: string): Outcome {
    if id == "" || appId == "" then Failed(Validation)
    else if !Live(s, id) then Failed(NotFound)
    else if s[id].appId != appId then Failed(Validation)
    else Ok
  }

  /** The index of the first id a bulk update rejects, or the length of the list. */
  function FirstRejected(s: Store, ids: seq<Id>, appId: string): (k: nat)
    ensures k <= |ids|
    ensures forall j | 0 <= j < k :: Target(s, ids[j], appId) == Ok
    ensures k < |ids| ==> Target(s, ids[k], appId) != Ok
  {
    if ids == [] || Target(s, ids[0], appId) != Ok then 0
    else
      var rest := FirstRejected(s, ids[1..], appId);
      assert forall j | 1 <= j < rest + 1 :: ids[j] == ids[1..][j - 1];
      rest + 1
  }

  function Prefix(ids: seq<Id>, k: nat): set<Id>
    requires k <= |ids|
  {
    set i | i in ids[..k]
  }

  function RestoreTarget(s: Store, id: Id, appId: string): Outcome {
    if id == "" || appId == "" then Failed(Validation)
    else if id !in s then Failed(NotFound)
    else if s[id].appId != appId then Failed(Validation)
    else if !s[id].archivedRoot then Failed(Validation)
    else Ok
  }

  // ---------- creation ----------

  /** The path of the first `k + 1` segments. */
  function PathTo(parts: seq<string>, k: nat): string
    requires k < |parts|
  {
    Join(parts[..k + 1])
  }

  /** Walks down the path from `level`, reusing live rows and inserting the missing ones. */
  ghost function CreateFrom(s: Store, parts: seq<string>, level: nat, parent: Option<Id>,
                            enabled: bool, appId: string, ids: seq<Id>, faults: set<nat>): Result
    requires |ids| == |parts|
    decreases |parts| - level
  {
    if level >= |parts| then Result(s, Ok)
    else
      var path := PathTo(parts, level);
      match FindLive(s, path, appId)
      case Some(i) => CreateFrom(s, parts, level + 1, Some(i), enabled, appId, ids, faults)
      case None =>
        if level in faults then Result(s, Failed(Database))
        else
          var row := NewToggle(ids[level], parts[level], level < |parts| - 1 || enabled, path, level, parent, appId);
          CreateFrom(s[row.id := row], parts, level + 1, Some(row.id), enabled, appId, ids, faults)
  }

  /** `ids` are new identifiers: pairwise distinct and unused. */
  predicate Fresh(s: Store, ids: seq<Id>, from: nat) {
    && (forall j | from <= j < |ids| :: ids[j] !in s)
    && (forall j, k | from <= j < k < |ids| :: ids[j] != ids[k])
  }

  /** `parent` is the live row of the first `level` segments. */
  predicate Cursor(s: Store, parts: seq<string>, level: nat, parent: Option<Id>, appId: string) {
    && |parts| >= 1 && NoDots(parts) && level <= |parts|
    && if level == 0 then parent.None? else
         && parent.Some? && Live(s, parent.value)
         && s[parent.value].appId == appId
         && s[parent.value].level == level - 1
         && s[parent.value].path == Join(parts[..level])
  }

  lemma {:induction false} LevelCountsSegments(s: Store, i: Id)
    requires Structured(s) && i in s
    ensures |Split(s[i].path)| == s[i].level + 1
    decreases s[i].level
  {
    assert RowOk(s, i);
    match s[i].parentId
    case None => SplitSegment(s[i].value);
    case Some(p) =>
      LevelCountsSegments(s, p);
      SplitSnoc(s[p].path, s[i].value);
  }

  lemma FoundAdvances(s: Store, parts: seq<string>, level: nat, parent: Option<Id>, appId: string, i: Id)
    requires WellFormed(s) && Cursor(s, parts, level, parent, appId) && level < |parts|
    requires FoundAt(s, i, PathTo(parts, level), appId)
    ensures Cursor(s, parts, level + 1, Some(i), appId)
  {
    LevelCountsSegments(s, i);
    SplitJoin(parts[..level + 1]);
  }

  /** `row` is what creation inserts at `level`. */
  ghost predicate NewRow(s: Store, parts: seq<string>, level: nat, parent: Option<Id>, appId: string, row: Toggle) {
    && Cursor(s, parts, level, parent, appId) && level < |parts|
    && row.id !in s && !row.deleted && row.value == parts[level] && row.level == level
    && row.path == PathTo(parts, level) && row.parentId == parent && row.appId == appId
    && !Occupied(s, row.path, appId)
  }

  lemma InsertedRowOk(s: Store, parts: seq<string>, level: nat, parent: Option<Id>, appId: string, row: Toggle)
    requires NewRow(s, parts, level, parent, appId, row)
    ensures RowOk(s[row.id := row], row.id)
  {
    assert parts[..level + 1] == parts[..level] + [parts[level]];
    if level > 0 {
      JoinSnoc(parts[..level], parts[level]);
    }
  }

  lemma InsertKeepsUniquePaths(s: Store, parts: seq<string>, level: nat, parent: Option<Id>, appId: string, row: Toggle)
    requires UniqueLivePaths(s) && NewRow(s, parts, level, parent, appId, row)
    ensures UniqueLivePaths(s[row.id := row])
  {
    var u := s[row.id := row];
    assert forall i | Live(s, i) && s[i].path == row.path && s[i].appId == appId :: Occupied(s, row.path, appId);
    assert forall i | Live(u, i) && i != row.id :: Live(s, i);
    forall i, j | Live(u, i) && Live(u, j) && SamePlace(u, i, j)
      ensures i == j
    {
      assert i != row.id && j != row.id ==> SamePlace(s, i, j);
    }
  }

  lemma InsertKeepsWellFormed(s: Store, parts: seq<string>, level: nat, parent: Option<Id>, appId: string, row: Toggle)
    requires WellFormed(s) && NewRow(s, parts, level, parent, appId, row)
    ensures WellFormed(s[row.id := row])
    ensures Cursor(s[row.id := row], parts, level + 1, Some(row.id), appId)
  {
    var u := s[row.id := row];
    InsertedRowOk(s, parts, level, parent, appId, row);
    InsertKeepsUniquePaths(s, parts, level, parent, appId, row);
    forall i | i in u
      ensures RowOk(u, i)
    {
      if i != row.id {
        assert RowOk(s, i);
      }
    }
    forall i | Live(u, i)
      ensures ParentLive(u, i)
    {
      if i != row.id {
        assert Live(s, i) && ParentLive(s, i);
      }
    }
  }

  /** Row `i` was inserted for the first `k + 1` segments. */
  predicate InsertedFor(u: Store, i: Id, parts: seq<string>, k: nat, enabled: bool, appId: string)
    requires k < |parts|
  {
    && Live(u, i) && u[i].path == PathTo(parts, k) && u[i].appId == appId && u[i].level == k
    && u[i].enabled == (k < |parts| - 1 || enabled)
    && u[i].id == i && u[i].value == parts[k]
    && !u[i].hasRule && u[i].rule.None? && u[i].deletedBy.None? && !u[i].archivedRoot
  }

  /** `u` is `s` plus rows inserted for prefixes of the path, from `level` on. */
  ghost predicate Grown(s: Store, u: Store, parts: seq<string>, level: nat, enabled: bool, appId: string) {
    && (forall i | i in s :: i in u && u[i] == s[i])
    && (forall i | i in u && i !in s :: exists k | level <= k < |parts| :: InsertedFor(u, i, parts, k, enabled, appId))
  }

  lemma GrownFurther(s: Store, row: Toggle, u: Store, parts: seq<string>, level: nat, enabled: bool, appId: string)
    requires level < |parts| && row.id !in s
    requires Grown(s[row.id := row], u, parts, level + 1, enabled, appId)
    requires InsertedFor(s[row.id := row], row.id, parts, level, enabled, appId)
    ensures Grown(s, u, parts, level, enabled, appId)
  {
    var m := s[row.id := row];
    forall i | i in s
      ensures i in u && u[i] == s[i]
    {
      assert i in m && m[i] == s[i];
    }
    assert u[row.id] == m[row.id];
    assert InsertedFor(u, row.id, parts, level, enabled, appId);
  }

  /** Every prefix of the path, from `level` on, has a live row. */
  ghost predicate PathOccupied(u: Store, parts: seq<string>, level: nat, appId: string) {
    forall k | level <= k < |parts| :: Occupied(u, PathTo(parts, k), appId)
  }

  lemma OccupiedFurther(s: Store, i: Id, u: Store, parts: seq<string>, level: nat, appId: string)
    requires level < |parts| && FoundAt(s, i, PathTo(parts, level), appId) && i in u && u[i] == s[i]
    requires PathOccupied(u, parts, level + 1, appId)
    ensures PathOccupied(u, parts, level, appId)
  {
    assert Live(u, i);
  }

  /** What the rest of a creation leaves, seen from before the insertion at `level`. */
  lemma InsertedGrows(s: Store, row: Toggle, r: Result, parts: seq<string>, level: nat, enabled: bool, appId: string)
    requires level < |parts| && row.id !in s && InsertedFor(s[row.id := row], row.id, parts, level, enabled, appId)
    requires Grown(s[row.id := row], r.store, parts, level + 1, enabled, appId)
    requires r.outcome == Ok ==> PathOccupied(r.store, parts, level + 1, appId)
    ensures Grown(s, r.store, parts, level, enabled, appId)
    ensures r.outcome == Ok ==> PathOccupied(r.store, parts, level, appId)
  {
    GrownFurther(s, row, r.store, parts, level, enabled, appId);
    if r.outcome == Ok {
      OccupiedFurther(s[row.id := row], row.id, r.store, parts, level, appId);
    }
  }

  /**
   Creation keeps the invariant whichever insertion fails. Old rows are untouched, every new row
   stands for a prefix of the path, and success leaves every prefix occupied.
   */
  lemma {:induction false} CreateFromIsSafe(s: Store, parts: seq<string>, level: nat, parent: Option<Id>,
                                            enabled: bool, appId: string, ids: seq<Id>, faults: set<nat>)
    requires WellFormed(s) && Cursor(s, parts, level, parent, appId)
    requires |ids| == |parts| && Fresh(s, ids, level)
    ensures var r := CreateFrom(s, parts, level, parent, enabled, appId, ids, faults);
      && WellFormed(r.store)
      && Grown(s, r.store, parts, level, enabled, appId)
      && (r.outcome == Ok ==> PathOccupied(r.store, parts, level, appId))
      && (r.outcome != Ok ==> exists k :: level <= k < |parts| && k in faults)
    decreases |parts| - level
  {
    if level < |parts| {
      var path := PathTo(parts, level);
      var r := CreateFrom(s, parts, level, parent, enabled, appId, ids, faults);
      match FindLive(s, path, appId)
      case Some(i) =>
        FoundAdvances(s, parts, level, parent, appId, i);
        CreateFromIsSafe(s, parts, level + 1, Some(i), enabled, appId, ids, faults);
        if r.outcome == Ok {
          OccupiedFurther(s, i, r.store, parts, level, appId);
        }
      case None =>
        if level !in faults {
          var row := NewToggle(ids[level], parts[level], level < |parts| - 1 || enabled, path, level, parent, appId);
          InsertKeepsWellFormed(s, parts, level, parent, appId, row);
          CreateFromIsSafe(s[row.id := row], parts, level + 1, Some(row.id), enabled, appId, ids, faults);
          InsertedGrows(s, row, r, parts, level, enabled, appId);
        }
    }
  }

  // ---------- the transition ----------

  /** What the environment supplies: identifiers are fresh. */
  predicate Supplied(s: Store, op: Operation) {
    op.Create? ==> |op.ids| == |Split(op.path)| && Fresh(s, op.ids, 0)
  }

  ghost function Apply(s: Store, apps: set<string>, op: Operation): Result
    requires Structured(s) && Supplied(s, op)
  {
    match op
    case Create(path, enabled, appId, ids, faults) =>
      if path == "" || appId == "" then Result(s, Failed(Validation))
      else if appId !in apps then Result(s, Failed(NotFound))
      else if Occupied(s, path, appId) then Result(s, Failed(AlreadyExists))
      else CreateFrom(s, Split(path), 0, None, enabled, appId, ids, faults)
    case Update(path, enabled, appId) =>
      if path == "" || appId == "" then Result(s, Failed(Validation))
      else (match FindLive(s, path, appId)
            case None => Result(s, Failed(NotFound))
            case Some(i) => Result(SetEnabled(s, {i}, enabled), Ok))
    case UpdateById(id, enabled, appId) =>
      var guard := Target(s, id, appId);
      if guard == Ok then Result(SetEnabled(s, {id}, enabled), Ok) else Result(s, guard)
    case BulkUpdate(ids, enabled, appId) =>
      if ids == [] then Result(s, Failed(Validation))
      else
        var k := FirstRejected(s, ids, appId);
        Result(SetEnabled(s, Prefix(ids, k), enabled), if k < |ids| then Target(s, ids[k], appId) else Ok)
    case UpdateTree(id, enabled, appId) =>
      if !Live(s, id) then Result(s, Failed(NotFound))
      else if s[id].appId != appId then Result(s, Failed(Validation))
      else Result(SetEnabled(s, LiveSubtree(s, id), enabled), Ok)
    case Delete(id, appId, user) =>
      var guard := Target(s, id, appId);
      if guard == Ok then Result(Archive(MarkRoot(s, id, user), Subtree(s, id)), Ok) else Result(s, guard)
    case Restore(id, appId) =>
      var guard := RestoreTarget(s, id, appId);
      if guard != Ok then Result(s, guard)
      else if !CollisionFree(s, id) then Result(s, Failed(AlreadyExists))
      else Result(Revive(s, Subtree(s, id)), Ok)
  }

  /** The side condition of a restore that goes through; every other operation needs none. */
  ghost predicate RestoreIsSafe(s: Store, apps: set<string>, op: Operation)
    requires Structured(s) && Supplied(s, op)
  {
    op.Restore? && Apply(s, apps, op).outcome == Ok ==> ParentLive(s, op.id) && DistinctPaths(s, op.id)
  }

  /** One operation keeps the invariant if and only if it is not an unsafe restore. */
  lemma OperationKeepsWellFormedIff(s: Store, apps: set<string>, op: Operation)
    requires WellFormed(s) && Supplied(s, op)
    ensures WellFormed(Apply(s, apps, op).store) <==> RestoreIsSafe(s, apps, op)
  {
    match op
    case Create(path, enabled, appId, ids, faults) =>
      CreateFromIsSafe(s, Split(path), 0, None, enabled, appId, ids, faults);
    case Update(path, enabled, appId) =>
      var found := FindLive(s, path, appId);
      if found.Some? {
        EnablingKeepsWellFormed(s, {found.value}, enabled);
      }
    case UpdateById(id, enabled, appId) =>
      EnablingKeepsWellFormed(s, {id}, enabled);
    case BulkUpdate(ids, enabled, appId) =>
      EnablingKeepsWellFormed(s, Prefix(ids, FirstRejected(s, ids, appId)), enabled);
    case UpdateTree(id, enabled, appId) =>
      EnablingKeepsWellFormed(s, LiveSubtree(s, id), enabled);
    case Delete(id, appId, user) =>
      ArchivingSubtreeKeepsWellFormed(s, id, user);
    case Restore(id, appId) =>
      if RestoreTarget(s, id, appId) == Ok && CollisionFree(s, id) {
        RestoreKeepsWellFormedIff(s, id);
      }
  }

  /**
   What a successful creation promises: the path exists with the requested bit, all its prefixes
   exist, and no row that was there before has changed.
   */
  lemma CreateAddsPath(s: Store, apps: set<string>, path: string, enabled: bool, appId: string,
                       ids: seq<Id>, faults: set<nat>)
    requires WellFormed(s) && Supplied(s, Create(path, enabled, appId, ids, faults))
    requires Apply(s, apps, Create(path, enabled, appId, ids, faults)).outcome == Ok
    ensures var u := Apply(s, apps, Create(path, enabled, appId, ids, faults)).store;
      && Grown(s, u, Split(path), 0, enabled, appId)
      && PathOccupied(u, Split(path), 0, appId)
      && exists i :: i !in s && FoundAt(u, i, path, appId) && u[i].enabled == enabled
  {
    CreateFromIsSafe(s, Split(path), 0, None, enabled, appId, ids, faults);
    LastRowIsNew(s, Apply(s, apps, Create(path, enabled, appId, ids, faults)).store, path, enabled, appId);
  }

  lemma LastRowIsNew(s: Store, u: Store, path: string, enabled: bool, appId: string)
    requires Grown(s, u, Split(path), 0, enabled, appId) && PathOccupied(u, Split(path), 0, appId)
    requires !Occupied(s, path, appId)
    ensures exists i :: i !in s && FoundAt(u, i, path, appId) && u[i].enabled == enabled
  {
    var parts := Split(path);
    WholePath(path, |parts| - 1);
    assert Occupied(u, PathTo(parts, |parts| - 1), appId);
    var i :| Live(u, i) && u[i].path == path && u[i].appId == appId;
    assert i !in s by {
      assert forall j | Live(s, j) && s[j].path == path && s[j].appId == appId :: Occupied(s, path, appId);
    }
    var k :| 0 <= k < |parts| && InsertedFor(u, i, parts, k, enabled, appId);
    WholePath(path, k);
    assert FoundAt(u, i, path, appId);
  }

  /** Only the last prefix is the whole path. */
  lemma WholePath(path: string, k: nat)
    requires k < |Split(path)|
    ensures PathTo(Split(path), k) == path <==> k == |Split(path)| - 1
  {
    var parts := Split(path);
    JoinSplit(path);
    SplitJoin(parts[..k + 1]);
    assert k == |parts| - 1 ==> parts[..k + 1] == parts;
  }

  // ---------- runs ----------

  ghost predicate SuppliedRun(s: Store, apps: set<string>, ops: seq<Operation>)
    decreases |ops|
  {
    ops == [] ||
    (Structured(s) && Supplied(s, ops[0]) && SuppliedRun(Apply(s, apps, ops[0]).store, apps, ops[1..]))
  }

  ghost function Run(s: Store, apps: set<string>, ops: seq<Operation>): Store
    requires SuppliedRun(s, apps, ops)
    decreases |ops|
  {
    if ops == [] then s else Run(Apply(s, apps, ops[0]).store, apps, ops[1..])
  }

  /** Every restore of the run satisfies its side condition when it happens. */
  ghost predicate SafeRun(s: Store, apps: set<string>, ops: seq<Operation>)
    requires SuppliedRun(s, apps, ops)
    decreases |ops|
  {
    ops == [] || (RestoreIsSafe(s, apps, ops[0]) && SafeRun(Apply(s, apps, ops[0]).store, apps, ops[1..]))
  }

  /** The invariant holds after every step of the run. */
  ghost predicate StaysWellFormed(s: Store, apps: set<string>, ops: seq<Operation>)
    requires SuppliedRun(s, apps, ops)
    decreases |ops|
  {
    WellFormed(s) && (ops == [] || StaysWellFormed(Apply(s, apps, ops[0]).store, apps, ops[1..]))
  }

  /** Over whole runs: the table stays well-formed exactly as long as every restore is safe. */
  lemma {:induction false} RunStaysWellFormedIff(s: Store, apps: set<string>, ops: seq<Operation>)
    requires WellFormed(s) && SuppliedRun(s, apps, ops)
    ensures StaysWellFormed(s, apps, ops) <==> SafeRun(s, apps, ops)
    ensures SafeRun(s, apps, ops) ==> WellFormed(Run(s, apps, ops))
    decreases |ops|
  {
    if ops != [] {
      OperationKeepsWellFormedIff(s, apps, ops[0]);
      if RestoreIsSafe(s, apps, ops[0]) {
        RunStaysWellFormedIff(Apply(s, apps, ops[0]).store, apps, ops[1..]);
      }
    }
  }

  // ---------- delete and restore ----------

  /** The columns a reader of live rows sees. */
  function Visible(t: Toggle): Toggle {
    t.(deletedBy := None, archivedRoot := false)
  }

  ghost function LiveView(s: Store): Store {
    map i | i in s && !s[i].deleted :: Visible(s[i])
  }

  /** A restore that goes through adds exactly the subtree to the live rows and touches nothing else. */
  lemma RestoreRevivesSubtree(s: Store, apps: set<string>, id: Id, appId: string)
    requires WellFormed(s) && Apply(s, apps, Restore(id, appId)).outcome == Ok
    ensures var u := Apply(s, apps, Restore(id, appId)).store;
      && LiveView(u).Keys == LiveView(s).Keys + Subtree(s, id)
      && Subtree(s, id) !! LiveView(s).Keys
      && (forall i | i in s && i !in Subtree(s, id) :: i in u && u[i] == s[i])
      && (forall i | i in Subtree(s, id) :: u[i] == Visible(s[i]).(deleted := false))
  {
    CollisionFreeIsArchived(s, id);
  }

  /** A just-deleted subtree passes the collision check. */
  lemma DeletedSubtreeIsFree(s: Store, id: Id, user: string, u: Store)
    requires WellFormed(s) && (forall d | d in Subtree(s, id) :: !s[d].deleted)
    requires u == Archive(MarkRoot(s, id, user), Subtree(s, id))
    ensures Structured(u) && SameShape(s, u) && Subtree(u, id) == Subtree(s, id) && CollisionFree(u, id)
  {
    ShapeKeepsSubtree(s, u, id);
    forall d | d in Subtree(u, id)
      ensures !Occupied(u, u[d].path, u[d].appId)
    {
      forall j | Live(u, j) && u[j].path == u[d].path && u[j].appId == u[d].appId
        ensures j in Subtree(s, id)
      {
        assert Live(s, j) && Live(s, d) && SamePlace(s, j, d);
      }
    }
  }

  /** What deleting and then restoring does to each row. */
  lemma RowsAfterRoundTrip(s: Store, id: Id, user: string)
    requires Structured(s) && forall d | d in Subtree(s, id) :: !s[d].deleted
    ensures var tree := Subtree(s, id);
      var back := Revive(Archive(MarkRoot(s, id, user), tree), tree);
      && back.Keys == s.Keys
      && forall i | i in s :: back[i] == if i in tree then Visible(s[i]) else s[i]
  {
    assert id in s ==> Under(s, id, id);
  }

  lemma SameLiveView(s: Store, tree: set<Id>, back: Store)
    requires back.Keys == s.Keys
    requires forall i | i in s :: back[i] == if i in tree then Visible(s[i]) else s[i]
    ensures LiveView(back) == LiveView(s)
    ensures (forall d | d in tree && d in s :: s[d] == Visible(s[d])) ==> back == s
  {
    assert forall i | i in s :: back[i].deleted == s[i].deleted && Visible(back[i]) == Visible(s[i]);
    assert LiveView(back).Keys == LiveView(s).Keys;
  }

  lemma DeletedSubtreeIsRestorable(s: Store, id: Id, u: Store)
    requires WellFormed(s) && Live(s, id) && Structured(u) && SameShape(s, u)
    requires Subtree(u, id) == Subtree(s, id)
    requires forall d | d in Subtree(s, id) :: !s[d].deleted
    requires forall i | i in s && i !in Subtree(s, id) :: u[i] == s[i]
    ensures ParentLive(u, id) && DistinctPaths(u, id)
  {
    assert RowOk(s, id) && ParentLive(s, id) && SameRow(s[id], u[id]);
    if s[id].parentId.Some? {
      var p := s[id].parentId.value;
      if p in Subtree(s, id) {
        LevelsBelow(s, p, id);
      }
    }
    forall d, e | d in Subtree(u, id) && e in Subtree(u, id) && u[d].path == u[e].path
      ensures d == e
    {
      LevelsBelow(s, d, id);
      LevelsBelow(s, e, id);
      assert SameRow(s[d], u[d]) && SameRow(s[e], u[e]);
      assert Live(s, d) && Live(s, e) && SamePlace(s, d, e);
    }
  }

  lemma RoundTripIsSafe(s: Store, id: Id, user: string, u: Store)
    requires WellFormed(s) && Live(s, id) && (forall d | d in Subtree(s, id) :: !s[d].deleted)
    requires u == Archive(MarkRoot(s, id, user), Subtree(s, id))
    ensures Structured(u) && Subtree(u, id) == Subtree(s, id) && CollisionFree(u, id)
    ensures WellFormed(Revive(u, Subtree(s, id)))
    ensures u[id].appId == s[id].appId && u[id].archivedRoot
  {
    DeletedSubtreeIsFree(s, id, user, u);
    ArchivingSubtreeKeepsWellFormed(s, id, user);
    DeletedSubtreeIsRestorable(s, id, u);
    RestoreKeepsWellFormedIff(u, id);
  }

  lemma ApplyDelete(s: Store, apps: set<string>, id: Id, appId: string, user: string)
    requires Structured(s) && Target(s, id, appId) == Ok
    ensures Apply(s, apps, Delete(id, appId, user)) == Result(Archive(MarkRoot(s, id, user), Subtree(s, id)), Ok)
  {
  }

  lemma ApplyRestore(s: Store, apps: set<string>, id: Id, appId: string)
    requires Structured(s) && RestoreTarget(s, id, appId) == Ok && CollisionFree(s, id)
    ensures Apply(s, apps, Restore(id, appId)) == Result(Revive(s, Subtree(s, id)), Ok)
  {
  }

  /**
   Round trip: deleting a subtree without archived rows and restoring it at once succeeds and gives
   back the live tree; the table itself is the same if the subtree carried no deletion marks.
   */
  lemma DeleteThenRestore(s: Store, apps: set<string>, id: Id, appId: string, user: string)
    requires WellFormed(s) && Target(s, id, appId) == Ok
    requires forall d | d in Subtree(s, id) :: !s[d].deleted
    ensures var u := Apply(s, apps, Delete(id, appId, user)).store;
      && Structured(u)
      && var back := Apply(u, apps, Restore(id, appId));
         && back.outcome == Ok
         && WellFormed(back.store)
         && LiveView(back.store) == LiveView(s)
         && ((forall d | d in Subtree(s, id) :: s[d] == Visible(s[d])) ==> back.store == s)
  {
    var tree := Subtree(s, id);
    var u := Archive(MarkRoot(s, id, user), tree);
    ApplyDelete(s, apps, id, appId, user);
    RoundTripIsSafe(s, id, user, u);
    ApplyRestore(u, apps, id, appId);
    RowsAfterRoundTrip(s, id, user);
    SameLiveView(s, tree, Revive(u, tree));
  }
}
