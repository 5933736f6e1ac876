/**
 The table of toggle rows: its well-formedness, the subtree below a row, and what the store
 operations do to the table as a value. A row is never removed; deleting only marks it.
 */
module ToggleStore {
  import opened Wrappers
  import opened Paths

  type Id = string

  /** An activation rule. The evaluation modules treat matching as an arbitrary function of it. */
  datatype Rule = Rule(kind: string, value: string, config: string)

  datatype Toggle = Toggle(
    id: Id, value: string, enabled: bool, path: string, level: nat, parentId: Option<Id>,
    appId: string, hasRule: bool, rule: Option<Rule>,
    deleted: bool, deletedBy: Option<string>, archivedRoot: bool)

  type Store = map<Id, Toggle>

  function NewToggle(id: Id, value: string, enabled: bool, path: string, level: nat,
                     parentId: Option<Id>, appId: string): Toggle {
    Toggle(id, value, enabled, path, level, parentId, appId, false, None, false, None, false)
  }

  predicate Live(s: Store, i: Id) {
    i in s && !s[i].deleted
  }

  // ---------- the invariant ----------

  predicate RowOk(s: Store, i: Id)
    requires i in s
  {
    var t := s[i];
    && t.id == i
    && NoDot(t.value)
    && match t.parentId
       case None => t.level == 0 && t.path == t.value
       case Some(p) =>
         && p in s
         && s[p].appId == t.appId
         && t.level == s[p].level + 1
         && t.path == s[p].path + "." + t.value
  }

  /** Parent links, levels and paths agree, over live and archived rows alike. */
  ghost predicate Structured(s: Store) {
    forall i {:trigger RowOk(s, i)} | i in s :: RowOk(s, i)
  }

  /** The parent is live, or there is none. A caller can check this before restoring `id`. */
  predicate ParentLive(s: Store, id: Id)
    requires id in s
  {
    s[id].parentId.Some? ==> Live(s, s[id].parentId.value)
  }

  ghost predicate LiveParents(s: Store) {
    forall i {:trigger ParentLive(s, i)} | Live(s, i) :: ParentLive(s, i)
  }

  predicate SamePlace(s: Store, i: Id, j: Id)
    requires i in s && j in s
  {
    s[i].appId == s[j].appId && s[i].path == s[j].path
  }

  ghost predicate UniqueLivePaths(s: Store) {
    forall i, j {:trigger SamePlace(s, i, j)} | Live(s, i) && Live(s, j) && SamePlace(s, i, j) :: i == j
  }

  ghost predicate WellFormed(s: Store) {
    Structured(s) && LiveParents(s) && UniqueLivePaths(s)
  }

  // ---------- subtrees ----------

  /** Whether `d` is `root` or one of its descendants, archived rows included. */
  ghost predicate Under(s: Store, d: Id, root: Id)
    requires Structured(s) && d in s
    decreases s[d].level
  {
    assert RowOk(s, d);
    d == root || (s[d].parentId.Some? && Under(s, s[d].parentId.value, root))
  }

  ghost function Subtree(s: Store, root: Id): set<Id>
    requires Structured(s)
  {
    set d | d in s && Under(s, d, root)
  }

  ghost predicate ChildOf(s: Store, c: Id, id: Id) {
    c in s && s[c].parentId == Some(id)
  }

  /** Everything below one of the rows `kids`. */
  ghost function Below(s: Store, kids: seq<Id>): set<Id>
    requires Structured(s)
  {
    set d | d in s && exists k | 0 <= k < |kids| :: Under(s, d, kids[k])
  }

  /** Termination measure of every walk down the tree. */
  ghost function Deeper(s: Store, id: Id): set<Id> {
    if id in s then set d | d in s && s[d].level >= s[id].level else {}
  }

  lemma ChildIsDeeper(s: Store, c: Id, id: Id)
    requires Structured(s) && ChildOf(s, c, id)
    ensures Deeper(s, c) < Deeper(s, id)
  {
    assert RowOk(s, c);
    assert id in Deeper(s, id) && id !in Deeper(s, c);
  }

  lemma {:induction false} UnderChild(s: Store, d: Id, root: Id) returns (c: Id)
    requires Structured(s) && d in s && Under(s, d, root) && d != root
    ensures ChildOf(s, c, root) && Under(s, d, c)
    decreases s[d].level
  {
    assert RowOk(s, d);
    var p := s[d].parentId.value;
    if p == root {
      c := d;
    } else {
      c := UnderChild(s, p, root);
    }
  }

  lemma {:induction false} UnderParent(s: Store, d: Id, c: Id, root: Id)
    requires Structured(s) && d in s && Under(s, d, c) && ChildOf(s, c, root)
    ensures Under(s, d, root)
    decreases s[d].level
  {
    assert RowOk(s, d);
    assert RowOk(s, c);
    if d != c {
      UnderParent(s, s[d].parentId.value, c, root);
    } else {
      assert Under(s, root, root);
    }
  }

  /** A subtree is its root and the subtrees of the root's children. */
  lemma SubtreeOfChildren(s: Store, root: Id, kids: seq<Id>)
    requires Structured(s) && root in s
    requires forall c :: c in kids <==> ChildOf(s, c, root)
    ensures Subtree(s, root) == {root} + Below(s, kids)
  {
    forall d | d in Subtree(s, root) && d != root
      ensures d in Below(s, kids)
    {
      var c := UnderChild(s, d, root);
      assert c in kids;
    }
    forall d | d in Below(s, kids)
      ensures d in Subtree(s, root)
    {
      var k :| 0 <= k < |kids| && Under(s, d, kids[k]);
      assert kids[k] in kids;
      UnderParent(s, d, kids[k], root);
    }
  }

  lemma BelowSnoc(s: Store, kids: seq<Id>, k: nat)
    requires Structured(s) && k < |kids|
    ensures Below(s, kids[..k + 1]) == Below(s, kids[..k]) + Subtree(s, kids[k])
  {
    forall d | d in Below(s, kids[..k + 1])
      ensures d in Below(s, kids[..k]) + Subtree(s, kids[k])
    {
      var j :| 0 <= j < k + 1 && Under(s, d, kids[..k + 1][j]);
      if j < k {
        assert kids[..k][j] == kids[j];
      }
    }
    forall d | d in Below(s, kids[..k])
      ensures d in Below(s, kids[..k + 1])
    {
      var j :| 0 <= j < k && Under(s, d, kids[..k][j]);
      assert kids[..k + 1][j] == kids[j];
    }
    assert kids[..k + 1][k] == kids[k];
  }

  lemma {:induction false} LevelsBelow(s: Store, d: Id, root: Id)
    requires Structured(s) && d in s && Under(s, d, root)
    ensures root in s && s[d].appId == s[root].appId
    ensures d != root ==> s[d].level > s[root].level
    decreases s[d].level
  {
    assert RowOk(s, d);
    if d != root {
      LevelsBelow(s, s[d].parentId.value, root);
    }
  }

  // ---------- frames ----------

  /** Equal up to the mutable columns. */
  predicate SameRow(t: Toggle, u: Toggle) {
    u == t.(enabled := u.enabled, hasRule := u.hasRule, rule := u.rule,
            deleted := u.deleted, deletedBy := u.deletedBy, archivedRoot := u.archivedRoot)
  }

  ghost predicate SameShape(s: Store, u: Store) {
    s.Keys == u.Keys && forall i | i in s :: SameRow(s[i], u[i])
  }

  lemma ShapeKeepsStructure(s: Store, u: Store)
    requires Structured(s) && SameShape(s, u)
    ensures Structured(u)
  {
    forall i | i in u
      ensures RowOk(u, i)
    {
      assert RowOk(s, i) && SameRow(s[i], u[i]);
      if s[i].parentId.Some? {
        assert SameRow(s[s[i].parentId.value], u[s[i].parentId.value]);
      }
    }
  }

  lemma {:induction false} ShapeKeepsUnder(s: Store, u: Store, d: Id, root: Id)
    requires Structured(s) && Structured(u) && SameShape(s, u) && d in s
    ensures Under(s, d, root) == Under(u, d, root)
    decreases s[d].level
  {
    assert RowOk(s, d) && SameRow(s[d], u[d]);
    if d != root && s[d].parentId.Some? {
      ShapeKeepsUnder(s, u, s[d].parentId.value, root);
    }
  }

  lemma ShapeKeepsSubtree(s: Store, u: Store, root: Id)
    requires Structured(s) && SameShape(s, u)
    ensures Structured(u)
    ensures Subtree(s, root) == Subtree(u, root)
    ensures Deeper(s, root) == Deeper(u, root)
  {
    ShapeKeepsStructure(s, u);
    forall d | d in s
      ensures Under(s, d, root) == Under(u, d, root)
    {
      ShapeKeepsUnder(s, u, d, root);
    }
    forall d | d in s
      ensures s[d].level == u[d].level
    {
      assert SameRow(s[d], u[d]);
    }
  }

  // ---------- updates, as functions of the table ----------

  function SetEnabled(s: Store, ids: set<Id>, enabled: bool): Store {
    map i | i in s :: if i in ids then s[i].(enabled := enabled) else s[i]
  }

  function Archive(s: Store, ids: set<Id>): Store {
    map i | i in s :: if i in ids then s[i].(deleted := true) else s[i]
  }

  function MarkRoot(s: Store, id: Id, user: string): Store {
    map i | i in s :: if i == id then s[i].(deletedBy := Some(user), archivedRoot := true) else s[i]
  }

  function Revive(s: Store, ids: set<Id>): Store {
    map i | i in s ::
      if i in ids then s[i].(deleted := false, deletedBy := None, archivedRoot := false) else s[i]
  }

  lemma ArchiveTwice(s: Store, a: set<Id>, b: set<Id>)
    ensures SameShape(s, Archive(s, a)) && Archive(Archive(s, a), b) == Archive(s, a + b)
  {
  }

  lemma ReviveTwice(s: Store, a: set<Id>, b: set<Id>)
    ensures SameShape(s, Revive(s, a)) && Revive(Revive(s, a), b) == Revive(s, a + b)
  {
  }

  lemma EnableTwice(s: Store, a: set<Id>, b: set<Id>, enabled: bool)
    ensures SameShape(s, SetEnabled(s, a, enabled))
    ensures SetEnabled(SetEnabled(s, a, enabled), b, enabled) == SetEnabled(s, a + b, enabled)
  {
  }

  ghost function LiveSubtree(s: Store, root: Id): set<Id>
    requires Structured(s)
  {
    set d | d in Subtree(s, root) && Live(s, d)
  }

  /** A live row's whole chain of parents is live. */
  lemma {:induction false} LiveChain(s: Store, d: Id, root: Id)
    requires WellFormed(s) && Live(s, d) && Under(s, d, root)
    ensures Live(s, root)
    decreases s[d].level
  {
    assert RowOk(s, d) && ParentLive(s, d);
    if d != root {
      LiveChain(s, s[d].parentId.value, root);
    }
  }

  /** `id`'s live subtree is itself and the live subtrees of its live children. */
  lemma LiveSubtreeOfChildren(s: Store, root: Id, kids: seq<Id>)
    requires WellFormed(s) && Live(s, root)
    requires forall c :: c in kids <==> ChildOf(s, c, root) && Live(s, c)
    ensures LiveSubtree(s, root) == {root} + set d | d in Below(s, kids) && Live(s, d)
  {
    forall d | d in LiveSubtree(s, root) && d != root
      ensures d in Below(s, kids)
    {
      var c := UnderChild(s, d, root);
      LiveChain(s, d, c);
      assert c in kids;
    }
    forall d | d in Below(s, kids)
      ensures d in Subtree(s, root)
    {
      var k :| 0 <= k < |kids| && Under(s, d, kids[k]);
      assert kids[k] in kids;
      UnderParent(s, d, kids[k], root);
    }
  }

  /** A walk over live children only archives the same rows as one over all children. */
  lemma ArchivingLiveRowsIsEnough(s: Store, id: Id)
    requires WellFormed(s) && Live(s, id)
    ensures Archive(s, LiveSubtree(s, id)) == Archive(s, Subtree(s, id))
  {
    assert forall d | d in Subtree(s, id) && d !in LiveSubtree(s, id) :: s[d].deleted;
  }

  // ---------- what each update does to the invariant ----------

  lemma EnablingKeepsWellFormed(s: Store, ids: set<Id>, enabled: bool)
    requires WellFormed(s)
    ensures WellFormed(SetEnabled(s, ids, enabled))
  {
    var u := SetEnabled(s, ids, enabled);
    ShapeKeepsStructure(s, u);
    forall i | Live(u, i)
      ensures ParentLive(u, i)
    {
      assert Live(s, i) && ParentLive(s, i);
    }
    forall i, j | Live(u, i) && Live(u, j) && SamePlace(u, i, j)
      ensures i == j
    {
      assert Live(s, i) && Live(s, j) && SamePlace(s, i, j);
    }
  }

  lemma ArchivingSubtreeKeepsWellFormed(s: Store, id: Id, user: string)
    requires WellFormed(s)
    ensures Structured(MarkRoot(s, id, user))
    ensures WellFormed(Archive(MarkRoot(s, id, user), Subtree(s, id)))
  {
    var m := MarkRoot(s, id, user);
    ShapeKeepsSubtree(s, m, id);
    var u := Archive(m, Subtree(s, id));
    assert SameShape(s, u);
    ShapeKeepsStructure(s, u);
    forall i | Live(u, i)
      ensures ParentLive(u, i)
    {
      assert Live(s, i) && RowOk(s, i) && ParentLive(s, i);
      assert s[i].parentId.Some? && s[i].parentId.value in Subtree(s, id) ==> Under(s, i, id);
    }
    forall i, j | Live(u, i) && Live(u, j) && SamePlace(u, i, j)
      ensures i == j
    {
      assert Live(s, i) && Live(s, j) && SamePlace(s, i, j);
    }
  }

  // ---------- restoring ----------

  /** A live row sits on this application's path. */
  ghost predicate Occupied(s: Store, path: string, appId: string) {
    exists j :: Live(s, j) && s[j].path == path && s[j].appId == appId
  }

  /** The collision check of a restore: no row of the subtree finds its path taken. */
  ghost predicate CollisionFree(s: Store, id: Id)
    requires Structured(s)
  {
    forall d | d in Subtree(s, id) :: !Occupied(s, s[d].path, s[d].appId)
  }

  /** No two rows of the archived subtree have the same path. */
  ghost predicate DistinctPaths(s: Store, id: Id)
    requires Structured(s)
  {
    forall d, e | d in Subtree(s, id) && e in Subtree(s, id) && s[d].path == s[e].path :: d == e
  }

  lemma CollisionFreeIsArchived(s: Store, id: Id)
    requires Structured(s) && CollisionFree(s, id)
    ensures forall d | d in Subtree(s, id) :: s[d].deleted
  {
    assert forall d | Live(s, d) :: Occupied(s, s[d].path, s[d].appId);
  }

  /**
   A restore that passed its collision check keeps the invariant exactly when the parent is live and
   the subtree's paths are distinct. The check alone looks at neither.
   */
  lemma RestoreKeepsWellFormedIff(s: Store, id: Id)
    requires WellFormed(s) && id in s && CollisionFree(s, id)
    ensures WellFormed(Revive(s, Subtree(s, id))) <==> ParentLive(s, id) && DistinctPaths(s, id)
  {
    var tree := Subtree(s, id);
    var u := Revive(s, tree);
    assert SameShape(s, u);
    ShapeKeepsStructure(s, u);
    CollisionFreeIsArchived(s, id);
    assert RowOk(s, id);
    assert id in tree;
    if WellFormed(u) {
      RestoreNeedsBoth(s, id);
    }
    if ParentLive(s, id) && DistinctPaths(s, id) {
      RestoreKeepsParents(s, id);
      assert forall j | Live(s, j) :: Occupied(s, s[j].path, s[j].appId);
      forall i, j | Live(u, i) && Live(u, j) && SamePlace(u, i, j)
        ensures i == j
      {
        assert SamePlace(s, i, j);
      }
    }
  }

  lemma RestoreNeedsBoth(s: Store, id: Id)
    requires WellFormed(s) && id in s && WellFormed(Revive(s, Subtree(s, id)))
    ensures ParentLive(s, id) && DistinctPaths(s, id)
  {
    var tree := Subtree(s, id);
    var u := Revive(s, tree);
    assert id in tree && Live(u, id) && RowOk(s, id) && ParentLive(u, id);
    if s[id].parentId.Some? {
      var p := s[id].parentId.value;
      if p in tree {
        LevelsBelow(s, p, id);
      }
    }
    forall d, e | d in tree && e in tree && s[d].path == s[e].path
      ensures d == e
    {
      LevelsBelow(s, d, id);
      LevelsBelow(s, e, id);
      assert Live(u, d) && Live(u, e) && SamePlace(u, d, e);
    }
  }

  lemma RestoreKeepsParents(s: Store, id: Id)
    requires WellFormed(s) && id in s && ParentLive(s, id)
    ensures LiveParents(Revive(s, Subtree(s, id)))
  {
    var tree := Subtree(s, id);
    var u := Revive(s, tree);
    forall i | Live(u, i)
      ensures ParentLive(u, i)
    {
      assert RowOk(s, i);
      if i in tree {
        assert i != id && s[i].parentId.Some? ==> Under(s, s[i].parentId.value, id);
      } else {
        assert Live(s, i) && ParentLive(s, i);
      }
    }
  }
}
