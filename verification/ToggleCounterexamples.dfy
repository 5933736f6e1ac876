/**
 Two runs from the empty table in which every operation succeeds and a restore still breaks the
 invariant: the collision check looks only at live rows, and not at the parent.
 */
module ToggleCounterexamples {
  import opened Wrappers
  import opened Paths
  import opened ToggleStore
  import opened ToggleOperations

  const APP := "shop"
  const USER := "ana"

  function Root(deleted: bool, marked: bool): Toggle {
    Toggle("1", "a", true, "a", 0, None, APP, false, None,
           deleted, if marked then Some(USER) else None, marked)
  }

  function Leaf(id: Id, deleted: bool, marked: bool): Toggle {
    Toggle(id, "b", true, "a.b", 1, Some("1"), APP, false, None,
           deleted, if marked then Some(USER) else None, marked)
  }

  /** `Apply` succeeds and leaves `u`. */
  ghost predicate Steps(s: Store, op: Operation, u: Store) {
    Structured(s) && Supplied(s, op) && Apply(s, {APP}, op) == Result(u, Ok)
  }

  lemma PathAB()
    ensures Split("a.b") == ["a", "b"]
    ensures PathTo(["a", "b"], 0) == "a" && PathTo(["a", "b"], 1) == "a.b"
  {
    SplitSegment("a");
    SplitSnoc("a", "b");
    assert "a" + "." + "b" == "a.b";
    assert ["a", "b"][..1] == ["a"] && ["a", "b"][..2] == ["a", "b"];
    assert Join(["a", "b"]) == "a" + "." + Join(["a", "b"][1..]);
  }

  /** A table with row "1" at "a" and leaves at "a.b". */
  ghost predicate Table(s: Store) {
    && s.Keys <= {"1", "2", "3"} && "1" in s
    && (exists d, m :: s["1"] == Root(d, m))
    && (forall i | i in s && i != "1" :: exists d, m :: s[i] == Leaf(i, d, m))
  }

  lemma ShapeOf(s: Store)
    requires Table(s)
    ensures Structured(s)
    ensures Subtree(s, "1") == s.Keys
    ensures forall i | i in s && i != "1" :: Subtree(s, i) == {i}
  {
    forall i | i in s
      ensures RowOk(s, i)
    {
    }
    forall i | i in s
      ensures Under(s, i, "1")
      ensures forall r :: r != "1" && r != i ==> !Under(s, i, r)
    {
      if i != "1" {
        assert forall r :: Under(s, "1", r) <==> r == "1";
      }
    }
    assert forall i | i in s && i != "1" :: Under(s, i, i);
  }

  lemma CreateBoth()
    ensures Steps(map[], Create("a.b", true, APP, ["1", "2"], {}),
                  map["1" := Root(false, false), "2" := Leaf("2", false, false)])
  {
    PathAB();
    var parts, ids := ["a", "b"], ["1", "2"];
    var s1: Store := map["1" := Root(false, false)];
    var s2: Store := map["1" := Root(false, false), "2" := Leaf("2", false, false)];
    assert CreateFrom(s2, parts, 2, Some("2"), true, APP, ids, {}) == Result(s2, Ok);
    assert s1["2" := Leaf("2", false, false)] == s2;
    assert CreateFrom(s1, parts, 1, Some("1"), true, APP, ids, {}) == Result(s2, Ok);
    assert CreateFrom(map[], parts, 0, None, true, APP, ids, {}) == Result(s2, Ok);
  }

  lemma DeleteLeaf(s: Store, id: Id)
    requires Table(s) && id in s && id != "1" && s[id] == Leaf(id, false, false)
    ensures Steps(s, Delete(id, APP, USER), s[id := Leaf(id, true, true)])
  {
    ShapeOf(s);
    ApplyDelete(s, {APP}, id, APP, USER);
    assert Archive(MarkRoot(s, id, USER), {id}) == s[id := Leaf(id, true, true)];
  }

  lemma DeleteRoot(s: Store)
    requires Table(s) && s["1"] == Root(false, false) && (forall i | i in s && i != "1" :: s[i].deleted)
    ensures Steps(s, Delete("1", APP, USER), s["1" := Root(true, true)])
  {
    ShapeOf(s);
    ApplyDelete(s, {APP}, "1", APP, USER);
    assert Archive(MarkRoot(s, "1", USER), s.Keys) == s["1" := Root(true, true)];
  }

  lemma RestoreArchived(s: Store, id: Id)
    requires Table(s) && id in s && s[id].archivedRoot && (forall i | i in s :: s[i].deleted)
    ensures WellFormed(s) && Steps(s, Restore(id, APP), Revive(s, if id == "1" then s.Keys else {id}))
  {
    ShapeOf(s);
    assert forall i :: !Live(s, i);
    ApplyRestore(s, {APP}, id, APP);
  }

  /** Restoring "a.b" below the archived "a" leaves a live row whose parent is archived. */
  lemma RestoreUnderArchivedParent() returns (s1: Store, s2: Store, s3: Store, s4: Store)
    ensures
      && Steps(map[], Create("a.b", true, APP, ["1", "2"], {}), s1)
      && Steps(s1, Delete("2", APP, USER), s2)
      && Steps(s2, Delete("1", APP, USER), s3)
      && Steps(s3, Restore("2", APP), s4)
      && WellFormed(s3) && !ParentLive(s3, "2") && !LiveParents(s4)
  {
    CreateBoth();
    s1 := map["1" := Root(false, false), "2" := Leaf("2", false, false)];
    s2 := s1["2" := Leaf("2", true, true)];
    DeleteLeaf(s1, "2");
    s3, s4 := RestoreLeafOnly(s2);
  }

  lemma RestoreLeafOnly(s2: Store) returns (s3: Store, s4: Store)
    requires s2 == map["1" := Root(false, false), "2" := Leaf("2", true, true)]
    ensures Steps(s2, Delete("1", APP, USER), s3) && Steps(s3, Restore("2", APP), s4)
    ensures WellFormed(s3) && !ParentLive(s3, "2") && !LiveParents(s4)
  {
    s3 := s2["1" := Root(true, true)];
    s4 := Revive(s3, {"2"});
    DeleteRoot(s2);
    RestoreArchived(s3, "2");
    assert Live(s4, "2") && !ParentLive(s4, "2");
  }

  lemma CreateLeafAgain(s: Store, u: Store)
    requires s.Keys == {"1", "2"} && s["1"] == Root(false, false) && s["2"] == Leaf("2", true, true)
    requires u == s["3" := Leaf("3", false, false)]
    ensures Steps(s, Create("a.b", true, APP, ["4", "3"], {}), u)
  {
    PathAB();
    ShapeOf(s);
    var parts, ids := ["a", "b"], ["4", "3"];
    assert FoundAt(s, "1", "a", APP);
    assert Occupied(s, "a", APP);
    assert FindLive(s, "a", APP) == Some("1");
    assert CreateFrom(u, parts, 2, Some("3"), true, APP, ids, {}) == Result(u, Ok);
    assert CreateFrom(s, parts, 1, Some("1"), true, APP, ids, {}) == Result(u, Ok);
    assert CreateFrom(s, parts, 0, None, true, APP, ids, {}) == Result(u, Ok);
  }

  lemma TwinsCollide(s: Store)
    requires Table(s) && "2" in s && "3" in s
    ensures Structured(s) && !DistinctPaths(s, "1") && !UniqueLivePaths(Revive(s, s.Keys))
  {
    ShapeOf(s);
    var u := Revive(s, s.Keys);
    assert Live(u, "2") && Live(u, "3") && SamePlace(u, "2", "3");
  }

  lemma DeleteLeafTwice() returns (s1: Store, s2: Store, s3: Store, s4: Store)
    ensures
      && Steps(map[], Create("a.b", true, APP, ["1", "2"], {}), s1)
      && Steps(s1, Delete("2", APP, USER), s2)
      && Steps(s2, Create("a.b", true, APP, ["4", "3"], {}), s3)
      && Steps(s3, Delete("3", APP, USER), s4)
    ensures s4 == map["1" := Root(false, false), "2" := Leaf("2", true, true), "3" := Leaf("3", true, true)]
  {
    CreateBoth();
    s1 := map["1" := Root(false, false), "2" := Leaf("2", false, false)];
    s2 := s1["2" := Leaf("2", true, true)];
    s3 := s2["3" := Leaf("3", false, false)];
    s4 := s3["3" := Leaf("3", true, true)];
    DeleteLeaf(s1, "2");
    CreateLeafAgain(s2, s3);
    DeleteLeaf(s3, "3");
  }

  /** Restoring "a" after "a.b" was deleted twice revives two live rows on one path. */
  lemma RestoreOfTwinRows()
    returns (s1: Store, s2: Store, s3: Store, s4: Store, s5: Store, s6: Store)
    ensures
      && Steps(map[], Create("a.b", true, APP, ["1", "2"], {}), s1)
      && Steps(s1, Delete("2", APP, USER), s2)
      && Steps(s2, Create("a.b", true, APP, ["4", "3"], {}), s3)
      && Steps(s3, Delete("3", APP, USER), s4)
      && Steps(s4, Delete("1", APP, USER), s5)
      && Steps(s5, Restore("1", APP), s6)
      && WellFormed(s5) && !DistinctPaths(s5, "1") && !UniqueLivePaths(s6)
  {
    s1, s2, s3, s4 := DeleteLeafTwice();
    s5, s6 := RestoreBoth(s4);
  }

  /** Once both leaves are archived, deleting and restoring the root revives the two. */
  lemma RestoreBoth(s4: Store) returns (s5: Store, s6: Store)
    requires s4 == map["1" := Root(false, false), "2" := Leaf("2", true, true), "3" := Leaf("3", true, true)]
    ensures Steps(s4, Delete("1", APP, USER), s5) && Steps(s5, Restore("1", APP), s6)
    ensures WellFormed(s5) && !DistinctPaths(s5, "1") && !UniqueLivePaths(s6)
  {
    s5 := s4["1" := Root(true, true)];
    s6 := Revive(s5, s5.Keys);
    DeleteRoot(s4);
    RestoreArchived(s5, "1");
    TwinsCollide(s5);
  }
}
