/**
 The nested array the server builds for its UI: rows are bucketed by level and the tree is put
 together again by parent id, pushing the enabled bit down.
 */
module ToggleHierarchy {
  import opened Wrappers
  import opened ToggleStore
  import opened ToggleEvaluation

  datatype Node = Node(id: Id, value: string, enabled: bool, toggles: seq<Node>)

  // ---------- the build, as a function of the row list ----------

  function AtLevel(list: seq<Toggle>, level: nat): seq<Toggle> {
    if list == [] then []
    else (if list[0].level == level then [list[0]] else []) + AtLevel(list[1..], level)
  }

  /** The levels still below `level`: what bounds the recursion. */
  ghost function LevelsAfter(list: seq<Toggle>, level: nat): set<nat> {
    set t | t in list && t.level > level :: t.level
  }

  lemma {:induction false} AtLevelMembers(list: seq<Toggle>, level: nat, t: Toggle)
    ensures t in AtLevel(list, level) <==> t in list && t.level == level
  {
    if list != [] {
      AtLevelMembers(list[1..], level, t);
    }
  }

  function BuildNode(list: seq<Toggle>, t: Toggle, parentEnabled: bool): Node
    decreases LevelsAfter(list, t.level), 1, 0
  {
    var enabled := t.enabled && parentEnabled;
    Node(t.id, t.value, enabled, BuildKids(list, t, AtLevel(list, t.level + 1), enabled))
  }

  /** The nodes of those rows in `rest` whose parent is `t`. */
  function BuildKids(list: seq<Toggle>, t: Toggle, rest: seq<Toggle>, enabled: bool): seq<Node>
    decreases LevelsAfter(list, t.level), 0, |rest|
  {
    if rest == [] then []
    else
      var c := rest[0];
      (if IsKid(list, t, c) then LevelShrinks(list, t, c); [BuildNode(list, c, enabled)] else [])
      + BuildKids(list, t, rest[1..], enabled)
  }

  predicate IsKid(list: seq<Toggle>, t: Toggle, c: Toggle) {
    c in list && c.level == t.level + 1 && c.parentId == Some(t.id)
  }

  lemma LevelShrinks(list: seq<Toggle>, t: Toggle, c: Toggle)
    requires IsKid(list, t, c)
    ensures LevelsAfter(list, c.level) < LevelsAfter(list, t.level)
  {
    assert c.level in LevelsAfter(list, t.level);
    assert c.level !in LevelsAfter(list, c.level);
  }

  function BuildRoots(list: seq<Toggle>, rest: seq<Toggle>): seq<Node> {
    if rest == [] then [] else [BuildNode(list, rest[0], rest[0].enabled)] + BuildRoots(list, rest[1..])
  }

  // ---------- the loops ----------

  function Bucket(byLevel: map<nat, seq<Toggle>>, level: nat): seq<Toggle> {
    if level in byLevel then byLevel[level] else []
  }

  ghost predicate Grouped(byLevel: map<nat, seq<Toggle>>, list: seq<Toggle>) {
    forall l: nat :: Bucket(byLevel, l) == AtLevel(list, l)
  }

  lemma {:induction false} AtLevelSnoc(list: seq<Toggle>, t: Toggle, level: nat)
    ensures AtLevel(list + [t], level) == AtLevel(list, level) + (if t.level == level then [t] else [])
  {
    if list != [] {
      assert (list + [t])[1..] == list[1..] + [t];
      AtLevelSnoc(list[1..], t, level);
    }
  }

  lemma GroupedSnoc(byLevel: map<nat, seq<Toggle>>, list: seq<Toggle>, i: nat)
    requires i < |list| && Grouped(byLevel, list[..i])
    ensures var t := list[i];
      Grouped(byLevel[t.level := Bucket(byLevel, t.level) + [t]], list[..i + 1])
  {
    var t := list[i];
    var more := byLevel[t.level := Bucket(byLevel, t.level) + [t]];
    assert list[..i + 1] == list[..i] + [t];
    forall l: nat
      ensures Bucket(more, l) == AtLevel(list[..i + 1], l)
    {
      AtLevelSnoc(list[..i], t, l);
    }
  }

  method BuildHierarchyArray(list: seq<Toggle>) returns (result: seq<Node>)
    ensures result == BuildRoots(list, AtLevel(list, 0))
  {
    var byLevel: map<nat, seq<Toggle>> := map[];
    for i := 0 to |list|
      invariant Grouped(byLevel, list[..i])
    {
      var t := list[i];
      GroupedSnoc(byLevel, list, i);
      byLevel := byLevel[t.level := Bucket(byLevel, t.level) + [t]];
    }
    assert list[..|list|] == list;
    result := [];
    var roots := Bucket(byLevel, 0);
    for i := 0 to |roots|
      invariant result + BuildRoots(list, roots[i..]) == BuildRoots(list, roots)
    {
      var node := BuildToggleNode(list, roots[i], byLevel, roots[i].enabled);
      result := result + [node];
    }
  }

  lemma {:induction false} KidsAppend(list: seq<Toggle>, t: Toggle, a: seq<Toggle>, b: seq<Toggle>, enabled: bool)
    ensures BuildKids(list, t, a + b, enabled) == BuildKids(list, t, a, enabled) + BuildKids(list, t, b, enabled)
    decreases |a|
  {
    if a == [] {
      assert a + b == b;
    } else {
      assert (a + b)[1..] == a[1..] + b;
      KidsAppend(list, t, a[1..], b, enabled);
    }
  }

  lemma KidsSnoc(list: seq<Toggle>, t: Toggle, level: seq<Toggle>, i: nat, enabled: bool)
    requires i < |level|
    ensures BuildKids(list, t, level[..i + 1], enabled)
         == BuildKids(list, t, level[..i], enabled)
            + (if IsKid(list, t, level[i]) then [BuildNode(list, level[i], enabled)] else [])
  {
    assert level[..i + 1] == level[..i] + [level[i]];
    KidsAppend(list, t, level[..i], [level[i]], enabled);
  }

  method BuildToggleNode(ghost list: seq<Toggle>, toggle: Toggle, byLevel: map<nat, seq<Toggle>>, parentEnabled: bool)
    returns (node: Node)
    requires Grouped(byLevel, list)
    ensures node == BuildNode(list, toggle, parentEnabled)
    decreases LevelsAfter(list, toggle.level)
  {
    var enabled := toggle.enabled && parentEnabled;
    var children: seq<Node> := [];
    var level := Bucket(byLevel, toggle.level + 1);
    for i := 0 to |level|
      invariant children == BuildKids(list, toggle, level[..i], enabled)
    {
      var child := level[i];
      AtLevelMembers(list, toggle.level + 1, child);
      KidsSnoc(list, toggle, level, i, enabled);
      if child.parentId == Some(toggle.id) {
        LevelShrinks(list, toggle, child);
        var built := BuildToggleNode(list, child, byLevel, enabled);
        children := children + [built];
      }
    }
    assert level[..|level|] == level;
    node := Node(toggle.id, toggle.value, enabled, children);
  }

  // ---------- nothing is lost, nothing is doubled ----------

  /** What a node says about a row: who it is, its name, whether it is on, and under which parent it hangs. */
  datatype Entry = Entry(id: Id, value: string, enabled: bool, parent: Option<Id>)

  function Flatten(nodes: seq<Node>, parent: Option<Id>): seq<Entry> {
    if nodes == [] then []
    else
      [Entry(nodes[0].id, nodes[0].value, nodes[0].enabled, parent)]
      + Flatten(nodes[0].toggles, Some(nodes[0].id)) + Flatten(nodes[1..], parent)
  }

  lemma {:induction false} FlattenAppend(a: seq<Node>, b: seq<Node>, parent: Option<Id>)
    ensures Flatten(a + b, parent) == Flatten(a, parent) + Flatten(b, parent)
  {
    if a == [] {
      assert a + b == b;
    } else {
      assert (a + b)[1..] == a[1..] + b;
      FlattenAppend(a[1..], b, parent);
    }
  }

  /** The rows of one application that a reader sees, each once, in any order. */
  ghost predicate Lists(s: Store, appId: string, list: seq<Toggle>) {
    && (forall t :: t in list <==> Live(s, t.id) && s[t.id] == t && t.appId == appId)
    && (forall j, k | 0 <= j < k < |list| :: list[j] != list[k])
  }

  ghost function EntryOf(s: Store, id: Id): Entry
    requires Structured(s) && id in s
  {
    Entry(id, s[id].value, IsToggleEnabled(s, id), s[id].parentId)
  }

  ghost function Entries(s: Store, ids: set<Id>): multiset<Entry>
    requires Structured(s) && ids <= s.Keys
  {
    multiset(set i | i in ids :: EntryOf(s, i))
  }

  lemma EntriesUnion(s: Store, a: set<Id>, b: set<Id>)
    requires Structured(s) && a <= s.Keys && b <= s.Keys && a !! b
    ensures Entries(s, a + b) == Entries(s, a) + Entries(s, b)
  {
    var x := set i | i in a :: EntryOf(s, i);
    var y := set i | i in b :: EntryOf(s, i);
    assert (set i | i in a + b :: EntryOf(s, i)) == x + y;
    assert x !! y;
  }

  /** Two rows of one level share no descendant. */
  lemma {:induction false} SubtreesApart(s: Store, d: Id, c: Id, e: Id)
    requires Structured(s) && d in s && c in s && e in s && s[c].level == s[e].level
    requires Under(s, d, c) && Under(s, d, e)
    ensures c == e
    decreases s[d].level
  {
    assert RowOk(s, d);
    LevelsBelow(s, d, c);
    LevelsBelow(s, d, e);
    if d != c && d != e {
      SubtreesApart(s, s[d].parentId.value, c, e);
    }
  }

  /** The live subtrees of the rows in `rest` that hang under `t`. */
  ghost function KidTrees(s: Store, list: seq<Toggle>, t: Toggle, rest: seq<Toggle>): set<Id>
    requires Structured(s)
  {
    set d | d in s && exists c | c in rest && IsKid(list, t, c) :: d in LiveSubtree(s, c.id)
  }

  lemma KidTreesHead(s: Store, appId: string, list: seq<Toggle>, t: Toggle, rest: seq<Toggle>)
    requires WellFormed(s) && Lists(s, appId, list) && rest != []
    requires forall j, k | 0 <= j < k < |rest| :: rest[j] != rest[k]
    ensures !IsKid(list, t, rest[0]) ==> KidTrees(s, list, t, rest) == KidTrees(s, list, t, rest[1..])
    ensures IsKid(list, t, rest[0]) ==>
      && KidTrees(s, list, t, rest) == LiveSubtree(s, rest[0].id) + KidTrees(s, list, t, rest[1..])
      && LiveSubtree(s, rest[0].id) !! KidTrees(s, list, t, rest[1..])
  {
    assert forall c :: c in rest <==> c == rest[0] || c in rest[1..];
    if IsKid(list, t, rest[0]) {
      forall d | d in LiveSubtree(s, rest[0].id)
        ensures d !in KidTrees(s, list, t, rest[1..])
      {
        forall c | c in rest[1..] && IsKid(list, t, c)
          ensures d !in LiveSubtree(s, c.id)
        {
          if Under(s, d, c.id) {
            SubtreesApart(s, d, c.id, rest[0].id);
          }
        }
      }
    }
  }

  lemma {:induction false} AtLevelDistinct(list: seq<Toggle>, level: nat)
    requires forall j, k | 0 <= j < k < |list| :: list[j] != list[k]
    ensures forall j, k | 0 <= j < k < |AtLevel(list, level)| :: AtLevel(list, level)[j] != AtLevel(list, level)[k]
  {
    if list != [] {
      AtLevelDistinct(list[1..], level);
      AtLevelMembers(list[1..], level, list[0]);
      var rest := AtLevel(list[1..], level);
      assert forall j | 0 <= j < |rest| :: rest[j] in rest;
    }
  }

  /** The bucket one level down holds all of a row's children: bucketing loses none. */
  lemma KidTreesAreSubtree(s: Store, appId: string, list: seq<Toggle>, t: Toggle)
    requires WellFormed(s) && Lists(s, appId, list) && t in list
    ensures LiveSubtree(s, t.id) == {t.id} + KidTrees(s, list, t, AtLevel(list, t.level + 1))
    ensures t.id !in KidTrees(s, list, t, AtLevel(list, t.level + 1))
  {
    var rest := AtLevel(list, t.level + 1);
    forall d | d in LiveSubtree(s, t.id) && d != t.id
      ensures d in KidTrees(s, list, t, rest)
    {
      var c := UnderChild(s, d, t.id);
      LiveChain(s, d, c);
      assert RowOk(s, c);
      AtLevelMembers(list, t.level + 1, s[c]);
      assert IsKid(list, t, s[c]);
    }
    forall d | d in KidTrees(s, list, t, rest)
      ensures d in LiveSubtree(s, t.id) && d != t.id
    {
      var c :| c in rest && IsKid(list, t, c) && d in LiveSubtree(s, c.id);
      UnderParent(s, d, c.id, t.id);
      LevelsBelow(s, d, c.id);
    }
    assert Under(s, t.id, t.id);
  }

  /** The bit handed down to a node is the parent's effective bit. */
  ghost predicate HandsDown(s: Store, t: Toggle, parentEnabled: bool)
    requires Structured(s)
  {
    t.id in s &&
    (match t.parentId
     case None => parentEnabled || !t.enabled
     case Some(p) => Live(s, p) && parentEnabled == IsToggleEnabled(s, p))
  }

  lemma HandedBit(s: Store, t: Toggle, parentEnabled: bool)
    requires WellFormed(s) && Live(s, t.id) && s[t.id] == t && HandsDown(s, t, parentEnabled)
    ensures (t.enabled && parentEnabled) == IsToggleEnabled(s, t.id)
  {
    assert RowOk(s, t.id);
  }

  lemma HandsToKid(s: Store, t: Toggle, c: Toggle, enabled: bool)
    requires WellFormed(s) && Live(s, t.id) && Live(s, c.id) && c.parentId == Some(t.id)
    requires enabled == IsToggleEnabled(s, t.id)
    ensures HandsDown(s, c, enabled)
  {
  }

  lemma FlattenOne(node: Node, parent: Option<Id>)
    ensures Flatten([node], parent)
         == [Entry(node.id, node.value, node.enabled, parent)] + Flatten(node.toggles, Some(node.id))
  {
    var entry := Entry(node.id, node.value, node.enabled, parent);
    assert Flatten([node], parent) == [entry] + Flatten(node.toggles, Some(node.id)) + Flatten([], parent);
  }

  lemma EntriesWithRoot(s: Store, id: Id, below: set<Id>)
    requires Structured(s) && id in s && below <= s.Keys && id !in below
    ensures Entries(s, {id} + below) == multiset{EntryOf(s, id)} + Entries(s, below)
  {
    EntriesUnion(s, {id}, below);
    assert (set i | i in {id} :: EntryOf(s, i)) == {EntryOf(s, id)};
  }

  lemma {:induction false} NodeConserves(s: Store, appId: string, list: seq<Toggle>, t: Toggle, parentEnabled: bool)
    requires WellFormed(s) && Lists(s, appId, list) && t in list && HandsDown(s, t, parentEnabled)
    ensures multiset(Flatten([BuildNode(list, t, parentEnabled)], t.parentId)) == Entries(s, LiveSubtree(s, t.id))
    decreases LevelsAfter(list, t.level), 1, 0
  {
    var node := BuildNode(list, t, parentEnabled);
    var rest := AtLevel(list, t.level + 1);
    HandedBit(s, t, parentEnabled);
    AtLevelDistinct(list, t.level + 1);
    KidsConserve(s, appId, list, t, rest, t.enabled && parentEnabled);
    NodeUnfolds(list, t, parentEnabled);
    NodeFromKids(s, appId, list, t, node, KidTrees(s, list, t, rest));
  }

  lemma NodeUnfolds(list: seq<Toggle>, t: Toggle, parentEnabled: bool)
    ensures var node := BuildNode(list, t, parentEnabled);
      && node.id == t.id && node.value == t.value && node.enabled == (t.enabled && parentEnabled)
      && node.toggles == BuildKids(list, t, AtLevel(list, t.level + 1), t.enabled && parentEnabled)
  {
  }

  lemma NodeFromKids(s: Store, appId: string, list: seq<Toggle>, t: Toggle, node: Node, below: set<Id>)
    requires WellFormed(s) && Lists(s, appId, list) && t in list
    requires node.id == t.id && node.value == t.value && node.enabled == IsToggleEnabled(s, t.id)
    requires below == KidTrees(s, list, t, AtLevel(list, t.level + 1))
    requires multiset(Flatten(node.toggles, Some(t.id))) == Entries(s, below)
    ensures multiset(Flatten([node], t.parentId)) == Entries(s, LiveSubtree(s, t.id))
  {
    KidTreesAreSubtree(s, appId, list, t);
    EntriesWithRoot(s, t.id, below);
    FlattenOne(node, t.parentId);
  }

  lemma {:induction false} KidsConserve(s: Store, appId: string, list: seq<Toggle>, t: Toggle, rest: seq<Toggle>,
                                        enabled: bool)
    requires WellFormed(s) && Lists(s, appId, list) && t in list && enabled == IsToggleEnabled(s, t.id)
    requires forall j, k | 0 <= j < k < |rest| :: rest[j] != rest[k]
    ensures multiset(Flatten(BuildKids(list, t, rest, enabled), Some(t.id))) == Entries(s, KidTrees(s, list, t, rest))
    decreases LevelsAfter(list, t.level), 0, |rest|
  {
    if rest == [] {
      assert KidTrees(s, list, t, rest) == {};
    } else {
      var c := rest[0];
      KidsConserve(s, appId, list, t, rest[1..], enabled);
      KidTreesHead(s, appId, list, t, rest);
      KidsUnfold(list, t, rest, enabled);
      if IsKid(list, t, c) {
        LevelShrinks(list, t, c);
        HandsToKid(s, t, c, enabled);
        NodeConserves(s, appId, list, c, enabled);
        EntriesUnion(s, LiveSubtree(s, c.id), KidTrees(s, list, t, rest[1..]));
      }
    }
  }

  lemma KidsUnfold(list: seq<Toggle>, t: Toggle, rest: seq<Toggle>, enabled: bool)
    requires rest != []
    ensures var all := multiset(Flatten(BuildKids(list, t, rest, enabled), Some(t.id)));
      var later := multiset(Flatten(BuildKids(list, t, rest[1..], enabled), Some(t.id)));
      if IsKid(list, t, rest[0])
      then all == multiset(Flatten([BuildNode(list, rest[0], enabled)], Some(t.id))) + later
      else all == later
  {
    if IsKid(list, t, rest[0]) {
      FlattenAppend([BuildNode(list, rest[0], enabled)], BuildKids(list, t, rest[1..], enabled), Some(t.id));
    } else {
      assert BuildKids(list, t, rest, enabled) == BuildKids(list, t, rest[1..], enabled);
    }
  }

  /** The live subtrees of the roots in `rest`. */
  ghost function RootTrees(s: Store, rest: seq<Toggle>): set<Id>
    requires Structured(s)
  {
    set d | d in s && exists r | r in rest :: d in LiveSubtree(s, r.id)
  }

  lemma {:induction false} RootsConserve(s: Store, appId: string, list: seq<Toggle>, rest: seq<Toggle>)
    requires WellFormed(s) && Lists(s, appId, list)
    requires forall r | r in rest :: r in list && r.level == 0
    requires forall j, k | 0 <= j < k < |rest| :: rest[j] != rest[k]
    ensures multiset(Flatten(BuildRoots(list, rest), None)) == Entries(s, RootTrees(s, rest))
    decreases |rest|
  {
    if rest == [] {
      assert RootTrees(s, rest) == {};
    } else {
      var r := rest[0];
      assert r in list && RowOk(s, r.id);
      NodeConserves(s, appId, list, r, r.enabled);
      RootsConserve(s, appId, list, rest[1..]);
      RootTreesHead(s, appId, list, rest);
      EntriesUnion(s, LiveSubtree(s, r.id), RootTrees(s, rest[1..]));
      FlattenAppend([BuildNode(list, r, r.enabled)], BuildRoots(list, rest[1..]), None);
    }
  }

  lemma RootTreesHead(s: Store, appId: string, list: seq<Toggle>, rest: seq<Toggle>)
    requires WellFormed(s) && Lists(s, appId, list) && rest != []
    requires forall r | r in rest :: r in list && r.level == 0
    requires forall j, k | 0 <= j < k < |rest| :: rest[j] != rest[k]
    ensures RootTrees(s, rest) == LiveSubtree(s, rest[0].id) + RootTrees(s, rest[1..])
    ensures LiveSubtree(s, rest[0].id) !! RootTrees(s, rest[1..])
  {
    assert forall c :: c in rest <==> c == rest[0] || c in rest[1..];
    forall d | d in LiveSubtree(s, rest[0].id)
      ensures d !in RootTrees(s, rest[1..])
    {
      forall r | r in rest[1..]
        ensures d !in LiveSubtree(s, r.id)
      {
        if Under(s, d, r.id) {
          SubtreesApart(s, d, r.id, rest[0].id);
        }
      }
    }
  }

  lemma {:induction false} RootOf(s: Store, d: Id) returns (r: Id)
    requires WellFormed(s) && Live(s, d)
    ensures Live(s, r) && Under(s, d, r) && s[r].level == 0 && s[r].appId == s[d].appId && s[r].id == r
    decreases s[d].level
  {
    assert RowOk(s, d) && ParentLive(s, d);
    if s[d].parentId.None? {
      r := d;
    } else {
      r := RootOf(s, s[d].parentId.value);
    }
  }

  ghost function LiveIds(s: Store, appId: string): set<Id> {
    set i | i in s && Live(s, i) && s[i].appId == appId
  }

  /**
   Conservation: flattening the built hierarchy gives every live row of the application exactly once,
   with its name, under its own parent, with the bit that the server's recursion computes.
   */
  lemma HierarchyConserves(s: Store, appId: string, list: seq<Toggle>)
    requires WellFormed(s) && Lists(s, appId, list)
    ensures multiset(Flatten(BuildRoots(list, AtLevel(list, 0)), None)) == Entries(s, LiveIds(s, appId))
  {
    var roots := AtLevel(list, 0);
    AtLevelDistinct(list, 0);
    forall r
      ensures r in roots <==> r in list && r.level == 0
    {
      AtLevelMembers(list, 0, r);
    }
    RootsConserve(s, appId, list, roots);
    forall d | d in LiveIds(s, appId)
      ensures d in RootTrees(s, roots)
    {
      var r := RootOf(s, d);
      assert s[r] in roots;
    }
    forall d | d in RootTrees(s, roots)
      ensures d in LiveIds(s, appId)
    {
      var r :| r in roots && d in LiveSubtree(s, r.id);
      LevelsBelow(s, d, r.id);
    }
    assert RootTrees(s, roots) == LiveIds(s, appId);
  }

  // ---------- siblings keep their order ----------

  /** The rows with these ids come in this order, others between them. */
  predicate InOrder(ids: seq<Id>, rows: seq<Toggle>) {
    ids == [] ||
    (rows != [] && if rows[0].id == ids[0] then InOrder(ids[1..], rows[1..]) else InOrder(ids, rows[1..]))
  }

  function NodeIds(nodes: seq<Node>): seq<Id> {
    if nodes == [] then [] else [nodes[0].id] + NodeIds(nodes[1..])
  }

  /** Siblings, at every depth, come in the order of the listing. */
  predicate Ordered(nodes: seq<Node>, list: seq<Toggle>) {
    InOrder(NodeIds(nodes), list) && forall k | 0 <= k < |nodes| :: Ordered(nodes[k].toggles, list)
  }

  lemma {:induction false} FewerInOrder(ids: seq<Id>, rows: seq<Toggle>)
    requires ids != [] && InOrder(ids, rows)
    ensures InOrder(ids[1..], rows)
    decreases |rows|, 1
  {
    if rows[0].id == ids[0] {
      LaterInOrder(ids[1..], rows);
    } else {
      FewerInOrder(ids, rows[1..]);
      LaterInOrder(ids[1..], rows);
    }
  }

  /** One more row in front does no harm. */
  lemma {:induction false} LaterInOrder(ids: seq<Id>, rows: seq<Toggle>)
    requires rows != [] && InOrder(ids, rows[1..])
    ensures InOrder(ids, rows)
    decreases |rows|, 0
  {
    if ids != [] && rows[0].id == ids[0] {
      FewerInOrder(ids, rows[1..]);
    }
  }

  lemma {:induction false} KidsInOrder(list: seq<Toggle>, t: Toggle, rows: seq<Toggle>, enabled: bool)
    ensures InOrder(NodeIds(BuildKids(list, t, AtLevel(rows, t.level + 1), enabled)), rows)
  {
    if rows != [] {
      var later := BuildKids(list, t, AtLevel(rows[1..], t.level + 1), enabled);
      KidsInOrder(list, t, rows[1..], enabled);
      if rows[0].level == t.level + 1 && IsKid(list, t, rows[0]) {
        LevelShrinks(list, t, rows[0]);
        var here := [BuildNode(list, rows[0], enabled)] + later;
        assert AtLevel(rows, t.level + 1)[1..] == AtLevel(rows[1..], t.level + 1);
        assert BuildKids(list, t, AtLevel(rows, t.level + 1), enabled) == here;
        assert here[1..] == later && NodeIds(here)[1..] == NodeIds(later);
      } else {
        KidsSkip(list, t, rows, enabled);
        LaterInOrder(NodeIds(later), rows);
      }
    }
  }

  lemma KidsSkip(list: seq<Toggle>, t: Toggle, rows: seq<Toggle>, enabled: bool)
    requires rows != [] && !(rows[0].level == t.level + 1 && IsKid(list, t, rows[0]))
    ensures BuildKids(list, t, AtLevel(rows, t.level + 1), enabled)
         == BuildKids(list, t, AtLevel(rows[1..], t.level + 1), enabled)
  {
    if rows[0].level == t.level + 1 {
      assert AtLevel(rows, t.level + 1)[1..] == AtLevel(rows[1..], t.level + 1);
    } else {
      assert AtLevel(rows, t.level + 1) == AtLevel(rows[1..], t.level + 1);
    }
  }

  lemma {:induction false} RootsInOrder(list: seq<Toggle>, rows: seq<Toggle>)
    ensures InOrder(NodeIds(BuildRoots(list, AtLevel(rows, 0))), rows)
  {
    if rows != [] {
      RootsInOrder(list, rows[1..]);
      var later := BuildRoots(list, AtLevel(rows[1..], 0));
      if rows[0].level == 0 {
        var here := [BuildNode(list, rows[0], rows[0].enabled)] + later;
        assert AtLevel(rows, 0)[1..] == AtLevel(rows[1..], 0) && BuildRoots(list, AtLevel(rows, 0)) == here;
        assert here[1..] == later && NodeIds(here)[1..] == NodeIds(later);
      } else {
        assert AtLevel(rows, 0) == AtLevel(rows[1..], 0);
        LaterInOrder(NodeIds(later), rows);
      }
    }
  }

  lemma {:induction false} NodeIsOrdered(list: seq<Toggle>, t: Toggle, parentEnabled: bool)
    ensures Ordered(BuildNode(list, t, parentEnabled).toggles, list)
    decreases LevelsAfter(list, t.level), 1, 0
  {
    KidsInOrder(list, t, list, t.enabled && parentEnabled);
    KidsAreOrdered(list, t, AtLevel(list, t.level + 1), t.enabled && parentEnabled);
  }

  lemma {:induction false} KidsAreOrdered(list: seq<Toggle>, t: Toggle, rest: seq<Toggle>, enabled: bool)
    ensures forall k | 0 <= k < |BuildKids(list, t, rest, enabled)| ::
              Ordered(BuildKids(list, t, rest, enabled)[k].toggles, list)
    decreases LevelsAfter(list, t.level), 0, |rest|
  {
    if rest != [] {
      KidsAreOrdered(list, t, rest[1..], enabled);
      if IsKid(list, t, rest[0]) {
        LevelShrinks(list, t, rest[0]);
        NodeIsOrdered(list, rest[0], enabled);
      }
    }
  }

  lemma {:induction false} RootsAreOrdered(list: seq<Toggle>, rest: seq<Toggle>)
    ensures forall k | 0 <= k < |BuildRoots(list, rest)| :: Ordered(BuildRoots(list, rest)[k].toggles, list)
  {
    if rest != [] {
      NodeIsOrdered(list, rest[0], rest[0].enabled);
      RootsAreOrdered(list, rest[1..]);
    }
  }

  /** The built hierarchy keeps the order of the listing among the nodes of every parent. */
  lemma HierarchyIsOrdered(list: seq<Toggle>)
    ensures Ordered(BuildRoots(list, AtLevel(list, 0)), list)
  {
    RootsInOrder(list, list);
    RootsAreOrdered(list, AtLevel(list, 0));
  }
}
