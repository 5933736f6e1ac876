/**
 The imperative side of the toggle tree: the repository that holds the rows, and the use cases that
 change them step by step. Every use case is proved to perform the transition `Apply`.
 */
module ToggleService {
  import opened Wrappers
  import opened Paths
  import opened ToggleStore
  import opened ToggleOperations
  import opened ToggleEffects

  // ---------- one turn of each loop over children ----------

  lemma ArchiveNext(s: Store, id: Id, children: seq<Id>, k: nat)
    requires Structured(s) && k < |children| && ChildOf(s, children[k], id)
    ensures var r := Archive(s, Below(s, children[..k]));
      && Structured(r) && Deeper(r, children[k]) < Deeper(s, id)
      && Archive(r, Subtree(r, children[k])) == Archive(s, Below(s, children[..k + 1]))
  {
    var r := Archive(s, Below(s, children[..k]));
    ArchiveTwice(s, Below(s, children[..k]), Subtree(s, children[k]));
    ShapeKeepsSubtree(s, r, children[k]);
    ChildIsDeeper(s, children[k], id);
    BelowSnoc(s, children, k);
  }

  lemma ArchiveLast(s: Store, id: Id, children: seq<Id>)
    requires Structured(s) && id in s && forall c :: c in children <==> ChildOf(s, c, id)
    ensures var r := Archive(s, Below(s, children));
      r[id := r[id].(deleted := true)] == Archive(s, Subtree(s, id))
  {
    SubtreeOfChildren(s, id, children);
  }

  lemma ReviveNext(s: Store, id: Id, children: seq<Id>, k: nat)
    requires Structured(s) && k < |children| && ChildOf(s, children[k], id)
    ensures var r := Revive(s, Below(s, children[..k]));
      && Structured(r) && Deeper(r, children[k]) < Deeper(s, id) && children[k] in r
      && Revive(r, Subtree(r, children[k])) == Revive(s, Below(s, children[..k + 1]))
  {
    var r := Revive(s, Below(s, children[..k]));
    ReviveTwice(s, Below(s, children[..k]), Subtree(s, children[k]));
    ShapeKeepsSubtree(s, r, children[k]);
    ChildIsDeeper(s, children[k], id);
    BelowSnoc(s, children, k);
  }

  lemma ReviveLast(s: Store, id: Id, children: seq<Id>)
    requires Structured(s) && id in s && forall c :: c in children <==> ChildOf(s, c, id)
    ensures var r := Revive(s, Below(s, children));
      r[id := r[id].(deleted := false, deletedBy := None, archivedRoot := false)] == Revive(s, Subtree(s, id))
  {
    SubtreeOfChildren(s, id, children);
  }

  /** The root and the live rows below the children visited so far. */
  ghost function Visited(s: Store, id: Id, kids: seq<Id>): set<Id>
    requires Structured(s)
  {
    {id} + set d | d in Below(s, kids) && Live(s, d)
  }

  lemma EnableNext(s: Store, id: Id, children: seq<Id>, k: nat, enabled: bool)
    requires WellFormed(s) && k < |children| && ChildOf(s, children[k], id)
    ensures var r := SetEnabled(s, Visited(s, id, children[..k]), enabled);
      && WellFormed(r) && Deeper(r, children[k]) < Deeper(s, id)
      && SetEnabled(r, LiveSubtree(r, children[k]), enabled)
         == SetEnabled(s, Visited(s, id, children[..k + 1]), enabled)
  {
    var r := SetEnabled(s, Visited(s, id, children[..k]), enabled);
    EnableTwice(s, Visited(s, id, children[..k]), LiveSubtree(s, children[k]), enabled);
    ShapeKeepsSubtree(s, r, children[k]);
    EnablingKeepsWellFormed(s, Visited(s, id, children[..k]), enabled);
    ChildIsDeeper(s, children[k], id);
    BelowSnoc(s, children, k);
    assert LiveSubtree(r, children[k]) == LiveSubtree(s, children[k]);
    assert Visited(s, id, children[..k + 1]) == Visited(s, id, children[..k]) + LiveSubtree(s, children[k]);
  }

  /** What visiting one more child of the same application leaves. */
  lemma VisitChild(s: Store, apps: set<string>, id: Id, children: seq<Id>, k: nat, enabled: bool)
    requires WellFormed(s) && id in s && k < |children| && ChildOf(s, children[k], id) && Live(s, children[k])
    ensures var r := SetEnabled(s, Visited(s, id, children[..k]), enabled);
      && WellFormed(r) && Deeper(r, children[k]) < Deeper(s, id)
      && Apply(r, apps, Operation.UpdateTree(children[k], enabled, s[id].appId))
         == Result(SetEnabled(s, Visited(s, id, children[..k + 1]), enabled), Ok)
  {
    assert RowOk(s, children[k]);
    EnableNext(s, id, children, k, enabled);
  }

  lemma EnableOne(s: Store, i: Id, enabled: bool)
    requires Structured(s) && i in s
    ensures s[i].id == i
    ensures s[i := s[i].(enabled := enabled)] == SetEnabled(s, {i}, enabled)
  {
    assert RowOk(s, i);
  }

  lemma BulkNext(s: Store, ids: seq<Id>, k: nat, enabled: bool, appId: string)
    requires WellFormed(s) && k < |ids|
    ensures var r := SetEnabled(s, Prefix(ids, k), enabled);
      && WellFormed(r) && Target(r, ids[k], appId) == Target(s, ids[k], appId)
      && SetEnabled(r, {ids[k]}, enabled) == SetEnabled(s, Prefix(ids, k + 1), enabled)
  {
    EnablingKeepsWellFormed(s, Prefix(ids, k), enabled);
    EnableTwice(s, Prefix(ids, k), {ids[k]}, enabled);
    assert ids[..k + 1] == ids[..k] + [ids[k]];
    assert Prefix(ids, k + 1) == Prefix(ids, k) + {ids[k]};
  }

  lemma {:induction false} FirstRejectedIs(s: Store, ids: seq<Id>, k: nat, appId: string)
    requires k <= |ids| && forall j | 0 <= j < k :: Target(s, ids[j], appId) == Ok
    requires k < |ids| ==> Target(s, ids[k], appId) != Ok
    ensures FirstRejected(s, ids, appId) == k
  {
  }

  /** Where a bulk update stops: at the first rejected id, or at the end. */
  lemma BulkStops(s: Store, apps: set<string>, ids: seq<Id>, k: nat, enabled: bool, appId: string)
    requires WellFormed(s) && ids != [] && k <= |ids| && forall j | 0 <= j < k :: Target(s, ids[j], appId) == Ok
    requires k < |ids| ==> Target(s, ids[k], appId) != Ok
    ensures Apply(s, apps, Operation.BulkUpdate(ids, enabled, appId))
         == Result(SetEnabled(s, Prefix(ids, k), enabled), if k < |ids| then Target(s, ids[k], appId) else Ok)
    ensures Means(s, apps, Operation.BulkUpdate(ids, enabled, appId),
                  Apply(s, apps, Operation.BulkUpdate(ids, enabled, appId)))
  {
    OperationMeans(s, apps, Operation.BulkUpdate(ids, enabled, appId));
    FirstRejectedIs(s, ids, k, appId);
  }

  lemma BulkBegins(s: Store, ids: seq<Id>, enabled: bool)
    ensures SetEnabled(s, Prefix(ids, 0), enabled) == s
  {
  }

  /** Once all children are visited, the live subtree is. */
  lemma TreeEnds(s: Store, apps: set<string>, id: Id, children: seq<Id>, enabled: bool)
    requires WellFormed(s) && Live(s, id)
    requires forall c :: c in children <==> ChildOf(s, c, id) && Live(s, c)
    ensures Apply(s, apps, Operation.UpdateTree(id, enabled, s[id].appId))
         == Result(SetEnabled(s, Visited(s, id, children), enabled), Ok)
    ensures Means(s, apps, Operation.UpdateTree(id, enabled, s[id].appId),
                  Result(SetEnabled(s, Visited(s, id, children), enabled), Ok))
  {
    OperationMeans(s, apps, Operation.UpdateTree(id, enabled, s[id].appId));
    LiveSubtreeOfChildren(s, id, children);
  }

  // ---------- one level of creation ----------

  lemma CreateReusing(s: Store, parts: seq<string>, level: nat, parent: Option<Id>, enabled: bool,
                      appId: string, ids: seq<Id>, faults: set<nat>, i: Id)
    requires WellFormed(s) && Cursor(s, parts, level, parent, appId) && level < |parts| == |ids|
    requires FoundAt(s, i, PathTo(parts, level), appId)
    ensures s[i].id == i && Cursor(s, parts, level + 1, Some(i), appId)
    ensures CreateFrom(s, parts, level, parent, enabled, appId, ids, faults)
         == CreateFrom(s, parts, level + 1, Some(i), enabled, appId, ids, faults)
  {
    assert RowOk(s, i);
    FoundIsUnique(s, i, PathTo(parts, level), appId);
    FoundAdvances(s, parts, level, parent, appId, i);
  }

  lemma CreateInserting(s: Store, parts: seq<string>, level: nat, parent: Option<Id>, enabled: bool,
                        appId: string, ids: seq<Id>, faults: set<nat>, row: Toggle)
    requires WellFormed(s) && Cursor(s, parts, level, parent, appId) && level < |parts| == |ids|
    requires Fresh(s, ids, level) && level !in faults && !Occupied(s, PathTo(parts, level), appId)
    requires row == NewToggle(ids[level], parts[level], level < |parts| - 1 || enabled, PathTo(parts, level), level,
                              parent, appId)
    ensures var u := s[row.id := row];
      && WellFormed(u) && Cursor(u, parts, level + 1, Some(row.id), appId) && Fresh(u, ids, level + 1)
      && CreateFrom(s, parts, level, parent, enabled, appId, ids, faults)
      == CreateFrom(u, parts, level + 1, Some(row.id), enabled, appId, ids, faults)
  {
    InsertKeepsWellFormed(s, parts, level, parent, appId, row);
  }

  /** The in-memory repository: a map of rows, with soft deletion. */
  class ToggleRepository {
    var rows: Store

    constructor ()
      ensures rows == map[] && WellFormed(rows)
    {
      rows := map[];
    }

    method Insert(toggle: Toggle, fault: bool) returns (out: Outcome)
      modifies this
      ensures out == if fault then Failed(Database) else Ok
      ensures rows == if fault then old(rows) else old(rows)[toggle.id := toggle]
    {
      if fault {
        return Failed(Database);
      }
      rows := rows[toggle.id := toggle];
      out := Ok;
    }

    method GetById(id: Id) returns (found: Option<Toggle>)
      ensures found == if Live(rows, id) then Some(rows[id]) else None
    {
      if id in rows && !rows[id].deleted {
        return Some(rows[id]);
      }
      found := None;
    }

    method GetByPath(path: string, appId: string) returns (found: Option<Toggle>)
      ensures match found
        case Some(t) => exists i :: FoundAt(rows, i, path, appId) && t == rows[i]
        case None => !Occupied(rows, path, appId)
    {
      var matching := set i | i in rows && rows[i].path == path && rows[i].appId == appId && !rows[i].deleted;
      if matching == {} {
        assert forall i | Live(rows, i) && rows[i].path == path && rows[i].appId == appId :: i in matching;
        return None;
      }
      var i :| i in matching;
      assert FoundAt(rows, i, path, appId);
      found := Some(rows[i]);
    }

    method Exists(path: string, appId: string) returns (taken: bool)
      ensures taken == Occupied(rows, path, appId)
    {
      var found := GetByPath(path, appId);
      taken := found.Some?;
    }

    /** The rows whose ids are in `ids`, each once, in whatever order the map yields them. */
    method Listing(ids: set<Id>) returns (list: seq<Id>)
      ensures forall i :: i in list <==> i in ids
      ensures forall j, k | 0 <= j < k < |list| :: list[j] != list[k]
    {
      list := [];
      var rest := ids;
      while rest != {}
        invariant forall i :: i in ids <==> i in list || i in rest
        invariant forall i | i in list :: i !in rest
        invariant forall j, k | 0 <= j < k < |list| :: list[j] != list[k]
        decreases rest
      {
        var i :| i in rest;
        list := list + [i];
        rest := rest - {i};
      }
    }

    method GetChildren(parentId: Id) returns (children: seq<Id>)
      ensures forall c :: c in children <==> ChildOf(rows, c, parentId) && Live(rows, c)
    {
      children := Listing(set c | c in rows && rows[c].parentId == Some(parentId) && !rows[c].deleted);
    }

    method GetChildrenUnscoped(parentId: Id) returns (children: seq<Id>)
      ensures forall c :: c in children <==> ChildOf(rows, c, parentId)
    {
      children := Listing(set c | c in rows && rows[c].parentId == Some(parentId));
    }

    method MarkDeletionMeta(id: Id, user: string) returns (out: Outcome)
      modifies this
      ensures out == if id in old(rows) then Ok else Failed(NotFound)
      ensures rows == MarkRoot(old(rows), id, user)
    {
      if id !in rows {
        return Failed(NotFound);
      }
      rows := rows[id := rows[id].(deletedBy := Some(user), archivedRoot := true)];
      out := Ok;
    }

    /** Recursive soft deletion, children first. */
    method Delete(id: Id)
      requires Structured(rows)
      modifies this
      ensures rows == Archive(old(rows), Subtree(old(rows), id))
      decreases Deeper(rows, id)
    {
      ghost var s := rows;
      if id !in rows {
        forall d | d in s
          ensures d !in Subtree(s, id)
        {
          if Under(s, d, id) {
            LevelsBelow(s, d, id);
          }
        }
        return;
      }
      var children := GetChildrenUnscoped(id);
      assert rows == Archive(s, Below(s, children[..0]));
      for k := 0 to |children|
        invariant rows == Archive(s, Below(s, children[..k]))
      {
        assert children[k] in children;
        ArchiveNext(s, id, children, k);
        Delete(children[k]);
      }
      assert children[..|children|] == children;
      ArchiveLast(s, id, children);
      rows := rows[id := rows[id].(deleted := true)];
    }

    /** Recursive restoration, children first. */
    method Restore(id: Id) returns (out: Outcome)
      requires Structured(rows)
      modifies this
      ensures out == if id in old(rows) then Ok else Failed(NotFound)
      ensures id in old(rows) ==> rows == Revive(old(rows), Subtree(old(rows), id))
      ensures id !in old(rows) ==> rows == old(rows)
      decreases Deeper(rows, id)
    {
      ghost var s := rows;
      if id !in rows {
        return Failed(NotFound);
      }
      var children := GetChildrenUnscoped(id);
      assert rows == Revive(s, Below(s, children[..0]));
      for k := 0 to |children|
        invariant rows == Revive(s, Below(s, children[..k]))
      {
        assert children[k] in children;
        ReviveNext(s, id, children, k);
        var restored := Restore(children[k]);
      }
      assert children[..|children|] == children;
      ReviveLast(s, id, children);
      rows := rows[id := rows[id].(deleted := false, deletedBy := None, archivedRoot := false)];
      out := Ok;
    }
  }

  class ToggleUseCase {
    const repo: ToggleRepository
    const apps: set<string>

    constructor (repo: ToggleRepository, apps: set<string>)
      ensures this.repo == repo && this.apps == apps
    {
      this.repo := repo;
      this.apps := apps;
    }

    method CreateToggle(path: string, enabled: bool, appId: string, ids: seq<Id>, faults: set<nat>)
      returns (out: Outcome)
      requires WellFormed(repo.rows) && Supplied(repo.rows, Operation.Create(path, enabled, appId, ids, faults))
      modifies repo
      ensures Result(repo.rows, out) == Apply(old(repo.rows), apps, Operation.Create(path, enabled, appId, ids, faults))
      ensures Means(old(repo.rows), apps, Operation.Create(path, enabled, appId, ids, faults), Result(repo.rows, out))
    {
      OperationMeans(repo.rows, apps, Operation.Create(path, enabled, appId, ids, faults));
      if path == "" {
        return Failed(Validation);
      }
      if appId == "" {
        return Failed(Validation);
      }
      if appId !in apps {
        return Failed(NotFound);
      }
      var taken := repo.Exists(path, appId);
      if taken {
        return Failed(AlreadyExists);
      }
      out := CreateToggleHierarchy(Split(path), enabled, appId, None, 0, ids, faults);
    }

    method CreateToggleHierarchy(parts: seq<string>, enabled: bool, appId: string, parentId: Option<Id>, level: nat,
                                 ids: seq<Id>, faults: set<nat>) returns (out: Outcome)
      requires WellFormed(repo.rows) && Cursor(repo.rows, parts, level, parentId, appId)
      requires |ids| == |parts| && Fresh(repo.rows, ids, level)
      modifies repo
      ensures Result(repo.rows, out) == CreateFrom(old(repo.rows), parts, level, parentId, enabled, appId, ids, faults)
      decreases |parts| - level
    {
      if level >= |parts| {
        return Ok;
      }
      var currentPart := parts[level];
      var currentPath := PathTo(parts, level);
      var existing := repo.GetByPath(currentPath, appId);
      if existing.Some? {
        ghost var i :| FoundAt(repo.rows, i, currentPath, appId) && existing.value == repo.rows[i];
        CreateReusing(repo.rows, parts, level, parentId, enabled, appId, ids, faults, i);
        if level + 1 < |parts| {
          out := CreateToggleHierarchy(parts, enabled, appId, Some(existing.value.id), level + 1, ids, faults);
          return;
        }
        return Ok;
      }
      var isFinalToggle := level == |parts| - 1;
      var toggleEnabled := enabled;
      if !isFinalToggle {
        toggleEnabled := true;
      }
      var toggle := NewToggle(ids[level], currentPart, toggleEnabled, currentPath, level, parentId, appId);
      if level !in faults {
        CreateInserting(repo.rows, parts, level, parentId, enabled, appId, ids, faults, toggle);
      }
      var created := repo.Insert(toggle, level in faults);
      if created != Ok {
        return Failed(Database);
      }
      if level + 1 < |parts| {
        out := CreateToggleHierarchy(parts, enabled, appId, Some(toggle.id), level + 1, ids, faults);
        return;
      }
      out := Ok;
    }

    method UpdateToggle(path: string, enabled: bool, appId: string) returns (out: Outcome)
      requires WellFormed(repo.rows)
      modifies repo
      ensures Result(repo.rows, out) == Apply(old(repo.rows), apps, Operation.Update(path, enabled, appId))
      ensures Means(old(repo.rows), apps, Operation.Update(path, enabled, appId), Result(repo.rows, out))
    {
      OperationMeans(repo.rows, apps, Operation.Update(path, enabled, appId));
      if path == "" {
        return Failed(Validation);
      }
      if appId == "" {
        return Failed(Validation);
      }
      var toggle := repo.GetByPath(path, appId);
      if toggle.None? {
        return Failed(NotFound);
      }
      ghost var i :| FoundAt(repo.rows, i, path, appId) && toggle.value == repo.rows[i];
      FoundIsUnique(repo.rows, i, path, appId);
      EnableOne(repo.rows, i, enabled);
      out := repo.Insert(toggle.value.(enabled := enabled), false);
    }

    method UpdateToggleById(toggleId: Id, enabled: bool, appId: string) returns (out: Outcome)
      requires WellFormed(repo.rows)
      modifies repo
      ensures Result(repo.rows, out) == Apply(old(repo.rows), apps, Operation.UpdateById(toggleId, enabled, appId))
      ensures Means(old(repo.rows), apps, Operation.UpdateById(toggleId, enabled, appId), Result(repo.rows, out))
    {
      OperationMeans(repo.rows, apps, Operation.UpdateById(toggleId, enabled, appId));
      if toggleId == "" || appId == "" {
        return Failed(Validation);
      }
      var toggle := repo.GetById(toggleId);
      if toggle.None? {
        return Failed(NotFound);
      }
      if toggle.value.appId != appId {
        return Failed(Validation);
      }
      EnableOne(repo.rows, toggleId, enabled);
      out := repo.Insert(toggle.value.(enabled := enabled), false);
    }

    /** Stops at the first id that fails and keeps what it already changed. */
    method BulkUpdateEnabled(toggleIds: seq<Id>, enabled: bool, appId: string) returns (out: Outcome)
      requires WellFormed(repo.rows)
      modifies repo
      ensures Result(repo.rows, out) == Apply(old(repo.rows), apps, Operation.BulkUpdate(toggleIds, enabled, appId))
      ensures Means(old(repo.rows), apps, Operation.BulkUpdate(toggleIds, enabled, appId), Result(repo.rows, out))
    {
      if |toggleIds| == 0 {
        return Failed(Validation);
      }
      ghost var s := repo.rows;
      BulkBegins(s, toggleIds, enabled);
      for k := 0 to |toggleIds|
        invariant repo.rows == SetEnabled(s, Prefix(toggleIds, k), enabled)
        invariant forall j | 0 <= j < k :: Target(s, toggleIds[j], appId) == Ok
      {
        BulkNext(s, toggleIds, k, enabled, appId);
        var one := UpdateToggleById(toggleIds[k], enabled, appId);
        if one != Ok {
          BulkStops(s, apps, toggleIds, k, enabled, appId);
          return one;
        }
      }
      BulkStops(s, apps, toggleIds, |toggleIds|, enabled, appId);
      out := Ok;
    }

    method UpdateEnabledRecursively(toggleId: Id, enabled: bool, appId: string) returns (out: Outcome)
      requires WellFormed(repo.rows)
      modifies repo
      ensures Result(repo.rows, out) == Apply(old(repo.rows), apps, Operation.UpdateTree(toggleId, enabled, appId))
      ensures Means(old(repo.rows), apps, Operation.UpdateTree(toggleId, enabled, appId), Result(repo.rows, out))
      decreases Deeper(repo.rows, toggleId)
    {
      ghost var s := repo.rows;
      var toggle := repo.GetById(toggleId);
      if toggle.None? {
        return Failed(NotFound);
      }
      if toggle.value.appId != appId {
        return Failed(Validation);
      }
      EnableOne(s, toggleId, enabled);
      var updated := repo.Insert(toggle.value.(enabled := enabled), false);
      var children := repo.GetChildren(toggleId);
      assert forall c :: c in children <==> ChildOf(s, c, toggleId) && Live(s, c);
      assert Visited(s, toggleId, children[..0]) == {toggleId};
      for k := 0 to |children|
        invariant repo.rows == SetEnabled(s, Visited(s, toggleId, children[..k]), enabled)
      {
        assert children[k] in children;
        VisitChild(s, apps, toggleId, children, k, enabled);
        var one := UpdateEnabledRecursively(children[k], enabled, appId);
        assert one == Ok;
        if one != Ok {
          return one;
        }
      }
      assert children[..|children|] == children;
      TreeEnds(s, apps, toggleId, children, enabled);
      out := Ok;
    }

    method DeleteToggleById(toggleId: Id, appId: string, deletedBy: string) returns (out: Outcome)
      requires WellFormed(repo.rows)
      modifies repo
      ensures Result(repo.rows, out) == Apply(old(repo.rows), apps, Operation.Delete(toggleId, appId, deletedBy))
      ensures Means(old(repo.rows), apps, Operation.Delete(toggleId, appId, deletedBy), Result(repo.rows, out))
    {
      OperationMeans(repo.rows, apps, Operation.Delete(toggleId, appId, deletedBy));
      if toggleId == "" || appId == "" {
        return Failed(Validation);
      }
      var toggle := repo.GetById(toggleId);
      if toggle.None? {
        return Failed(NotFound);
      }
      if toggle.value.appId != appId {
        return Failed(Validation);
      }
      ghost var s := repo.rows;
      var marked := repo.MarkDeletionMeta(toggleId, deletedBy);
      assert SameShape(s, repo.rows);
      ShapeKeepsSubtree(s, repo.rows, toggleId);
      repo.Delete(toggleId);
      out := Ok;
    }

    method RestoreToggle(toggleId: Id, appId: string) returns (out: Outcome)
      requires WellFormed(repo.rows)
      modifies repo
      ensures Result(repo.rows, out) == Apply(old(repo.rows), apps, Operation.Restore(toggleId, appId))
      ensures Means(old(repo.rows), apps, Operation.Restore(toggleId, appId), Result(repo.rows, out))
    {
      OperationMeans(repo.rows, apps, Operation.Restore(toggleId, appId));
      if toggleId == "" || appId == "" {
        return Failed(Validation);
      }
      if toggleId !in repo.rows {
        return Failed(NotFound);
      }
      var toggle := repo.rows[toggleId];
      if toggle.appId != appId {
        return Failed(Validation);
      }
      if !toggle.archivedRoot {
        return Failed(Validation);
      }
      var free := CheckRestoreCollision(toggleId);
      if !free {
        return Failed(AlreadyExists);
      }
      out := repo.Restore(toggleId);
    }

    /** Walks the archived subtree and stops at the first path that is taken again. */
    method CheckRestoreCollision(toggleId: Id) returns (free: bool)
      requires Structured(repo.rows) && toggleId in repo.rows
      ensures free == CollisionFree(repo.rows, toggleId)
      decreases Deeper(repo.rows, toggleId)
    {
      ghost var s := repo.rows;
      var toggle := repo.rows[toggleId];
      assert Under(s, toggleId, toggleId);
      var taken := repo.Exists(toggle.path, toggle.appId);
      if taken {
        return false;
      }
      var children := repo.GetChildrenUnscoped(toggleId);
      SubtreeOfChildren(s, toggleId, children);
      for k := 0 to |children|
        invariant forall d | d in Below(s, children[..k]) :: !Occupied(s, s[d].path, s[d].appId)
      {
        assert children[k] in children;
        ChildIsDeeper(s, children[k], toggleId);
        var clear := CheckRestoreCollision(children[k]);
        BelowSnoc(s, children, k);
        if !clear {
          ghost var d :| d in Subtree(s, children[k]) && Occupied(s, s[d].path, s[d].appId);
          assert d in Below(s, children) by {
            assert Under(s, d, children[k]);
          }
          return false;
        }
      }
      assert children[..|children|] == children;
      free := true;
    }
  }
}
