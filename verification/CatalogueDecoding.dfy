/**
 Which catalogues a client can decode, and what that means for its agreement with the server. A client
 refuses a catalogue as a whole if one path in it has an empty segment. The toggle endpoint checks paths
 before it creates them; an approved creation is executed unchecked and starts out disabled.
 */
module CatalogueDecoding {
  import opened Wrappers
  import opened Paths
  import opened PathValidation
  import opened ToggleStore
  import opened ToggleOperations
  import opened ToggleEffects
  import opened ToggleEvaluation
  import opened ToggleHierarchy
  import opened Catalogue
  import opened SdkEvaluation

  /** A client started on this catalogue: an undecodable one leaves it empty, so it answers false. */
  predicate ClientAnswer(catalogue: seq<PublicToggle>, path: string, matches: Matcher) {
    Decodes(catalogue) && Answer(Index(catalogue), path, matches)
  }

  /** The paths that an application's catalogue shows have no empty segment. */
  ghost predicate Decodable(s: Store, appId: string) {
    forall i | Live(s, i) && s[i].appId == appId :: ValidPath(s[i].path)
  }

  lemma DecodesIff(s: Store, appId: string, list: seq<Toggle>)
    requires WellFormed(s) && Lists(s, appId, list)
    ensures Decodes(Published(list)) <==> Decodable(s, appId)
  {
    var c := Published(list);
    PublishedMembers(s, appId, list);
    if Decodes(c) {
      forall i | Live(s, i) && s[i].appId == appId
        ensures ValidPath(s[i].path)
      {
        assert Publish(s[i]) in VisibleRows(s, appId);
        var k :| 0 <= k < |c| && c[k] == Publish(s[i]);
      }
    }
    if Decodable(s, appId) {
      forall k | 0 <= k < |c|
        ensures ValidPath(c[k].path)
      {
        assert c[k] in c;
        var i :| i in s && Live(s, i) && s[i].appId == appId && Publish(s[i]) == c[k];
      }
    }
  }

  /** Exactly what a decodable catalogue buys: with one, the client answers as the server. */
  lemma DecodableAgrees(s: Store, appId: string, list: seq<Toggle>, path: string, matches: Matcher)
    requires WellFormed(s) && Lists(s, appId, list) && Decodable(s, appId)
    ensures ClientAnswer(Published(list), path, matches) <==> ServerAnswer(s, appId, path, matches)
  {
    DecodesIff(s, appId, list);
    SdkAgreesWithServer(s, appId, list, path, matches);
  }

  // ---------- what creation does to decodability ----------

  /** Every row, archived ones included: a restore can bring any of them back. */
  ghost predicate PathsOk(s: Store) {
    forall i | i in s :: ValidPath(s[i].path)
  }

  lemma PrefixIsValid(parts: seq<string>, k: nat)
    requires NoDots(parts) && k < |parts| && (forall j | 0 <= j <= k :: parts[j] != "")
    ensures ValidPath(PathTo(parts, k))
  {
    SplitJoin(parts[..k + 1]);
  }

  lemma ValidatedIsValid(path: string)
    requires Validated(path)
    ensures ValidPath(path)
  {
    forall k | 0 <= k < |Split(path)|
      ensures Split(path)[k] != ""
    {
      assert IsName(Split(path)[k]);
    }
  }

  /** Creating a path without empty segments inserts only such paths, whichever insertion fails. */
  lemma GrownPathsAreValid(s: Store, u: Store, path: string, enabled: bool, appId: string, i: Id)
    requires ValidPath(path) && Grown(s, u, Split(path), 0, enabled, appId) && i in u && i !in s
    ensures ValidPath(u[i].path) && u[i].appId == appId
  {
    var k :| 0 <= k < |Split(path)| && InsertedFor(u, i, Split(path), k, enabled, appId);
    PrefixIsValid(Split(path), k);
  }

  /** The first empty segment, or the number of segments. */
  function FirstEmpty(parts: seq<string>): (k: nat)
    ensures k <= |parts| && forall j | 0 <= j < k :: parts[j] != ""
    ensures k < |parts| ==> parts[k] == ""
  {
    if parts == [] || parts[0] == "" then 0
    else
      var rest := FirstEmpty(parts[1..]);
      assert forall j | 1 <= j < rest + 1 :: parts[j] == parts[1..][j - 1];
      rest + 1
  }

  /** The checks that a creation passes before it inserts anything. */
  ghost predicate Accepted(s: Store, apps: set<string>, op: Operation)
    requires op.Create?
  {
    op.path != "" && op.appId != "" && op.appId in apps && !Occupied(s, op.path, op.appId)
  }

  /** No insertion fails from `level` up to the `k`-th segment. */
  ghost predicate Reaches(s: Store, parts: seq<string>, level: nat, k: nat, appId: string, faults: set<nat>)
    requires k < |parts|
  {
    forall j | level <= j <= k :: Occupied(s, PathTo(parts, j), appId) || j !in faults
  }

  /** A row for one prefix leaves the other prefixes as they are. */
  lemma OtherPrefixSame(s: Store, parts: seq<string>, row: Toggle, level: nat, j: nat, appId: string)
    requires NoDots(parts) && level < |parts| && j < |parts| && j != level
    requires row.id !in s && row.path == PathTo(parts, level)
    ensures Occupied(s[row.id := row], PathTo(parts, j), appId) <==> Occupied(s, PathTo(parts, j), appId)
  {
    var u, path := s[row.id := row], PathTo(parts, j);
    SplitJoin(parts[..level + 1]);
    SplitJoin(parts[..j + 1]);
    assert row.path != path;
    if Occupied(s, path, appId) {
      var i :| Live(s, i) && s[i].path == path && s[i].appId == appId;
      assert Live(u, i) && u[i].path == path;
    }
    if Occupied(u, path, appId) {
      var i :| Live(u, i) && u[i].path == path && u[i].appId == appId;
      assert Live(s, i) && s[i].path == path;
    }
  }

  /** What is reached, seen from before and from after the insertion at `level`. */
  lemma ReachesFurther(s: Store, parts: seq<string>, row: Toggle, level: nat, k: nat, appId: string, faults: set<nat>)
    requires NoDots(parts) && level < k < |parts| && level !in faults
    requires row.id !in s && row.path == PathTo(parts, level)
    ensures var u := s[row.id := row];
      && (Occupied(u, PathTo(parts, k), appId) <==> Occupied(s, PathTo(parts, k), appId))
      && (Reaches(u, parts, level + 1, k, appId, faults) <==> Reaches(s, parts, level, k, appId, faults))
  {
    forall j | level < j <= k
      ensures Occupied(s[row.id := row], PathTo(parts, j), appId) <==> Occupied(s, PathTo(parts, j), appId)
    {
      OtherPrefixSame(s, parts, row, level, j, appId);
    }
  }

  /** Which prefixes have a live row after a creation, whatever its outcome. */
  lemma {:induction false} OccupiedAfterIff(s: Store, parts: seq<string>, level: nat, parent: Option<Id>,
                                            enabled: bool, appId: string, ids: seq<Id>, faults: set<nat>, k: nat)
    requires WellFormed(s) && Cursor(s, parts, level, parent, appId)
    requires |ids| == |parts| && Fresh(s, ids, level) && level <= k < |parts|
    ensures var r := CreateFrom(s, parts, level, parent, enabled, appId, ids, faults);
      Occupied(r.store, PathTo(parts, k), appId) <==>
      Occupied(s, PathTo(parts, k), appId) || Reaches(s, parts, level, k, appId, faults)
    decreases |parts| - level, 1
  {
    var path := PathTo(parts, level);
    if k == level {
      NextOccupiedIff(s, parts, level, parent, enabled, appId, ids, faults);
    } else {
      match FindLive(s, path, appId)
      case Some(i) =>
        FoundAdvances(s, parts, level, parent, appId, i);
        OccupiedAfterIff(s, parts, level + 1, Some(i), enabled, appId, ids, faults, k);
        ReachesPast(s, parts, level, k, appId, faults);
      case None =>
        if level !in faults {
          OccupiedAfterInserting(s, parts, level, parent, enabled, appId, ids, faults, k);
        } else {
          StopsShort(s, parts, level, k, appId, faults);
        }
    }
  }

  lemma {:induction false} OccupiedAfterInserting(s: Store, parts: seq<string>, level: nat, parent: Option<Id>,
                                                  enabled: bool, appId: string, ids: seq<Id>, faults: set<nat>, k: nat)
    requires WellFormed(s) && Cursor(s, parts, level, parent, appId)
    requires |ids| == |parts| && Fresh(s, ids, level) && level < k < |parts|
    requires FindLive(s, PathTo(parts, level), appId).None? && level !in faults
    ensures var r := CreateFrom(s, parts, level, parent, enabled, appId, ids, faults);
      Occupied(r.store, PathTo(parts, k), appId) <==>
      Occupied(s, PathTo(parts, k), appId) || Reaches(s, parts, level, k, appId, faults)
    decreases |parts| - level, 0
  {
    var path := PathTo(parts, level);
    var row := NewToggle(ids[level], parts[level], level < |parts| - 1 || enabled, path, level, parent, appId);
    InsertKeepsWellFormed(s, parts, level, parent, appId, row);
    OccupiedAfterIff(s[row.id := row], parts, level + 1, Some(row.id), enabled, appId, ids, faults, k);
    ReachesFurther(s, parts, row, level, k, appId, faults);
  }

  lemma ReachesPast(s: Store, parts: seq<string>, level: nat, k: nat, appId: string, faults: set<nat>)
    requires level < k < |parts| && Occupied(s, PathTo(parts, level), appId)
    ensures Reaches(s, parts, level + 1, k, appId, faults) <==> Reaches(s, parts, level, k, appId, faults)
  {
  }

  lemma StopsShort(s: Store, parts: seq<string>, level: nat, k: nat, appId: string, faults: set<nat>)
    requires level <= k < |parts| && !Occupied(s, PathTo(parts, level), appId) && level in faults
    ensures !Reaches(s, parts, level, k, appId, faults)
  {
  }

  /** The same for the next prefix. */
  lemma NextOccupiedIff(s: Store, parts: seq<string>, level: nat, parent: Option<Id>,
                        enabled: bool, appId: string, ids: seq<Id>, faults: set<nat>)
    requires WellFormed(s) && Cursor(s, parts, level, parent, appId)
    requires |ids| == |parts| && Fresh(s, ids, level) && level < |parts|
    ensures var r := CreateFrom(s, parts, level, parent, enabled, appId, ids, faults);
      Occupied(r.store, PathTo(parts, level), appId) <==>
      Occupied(s, PathTo(parts, level), appId) || Reaches(s, parts, level, level, appId, faults)
  {
    var path := PathTo(parts, level);
    if Occupied(s, path, appId) {
      StillOccupied(s, parts, level, parent, enabled, appId, ids, faults, path);
    } else if level !in faults {
      var row := NewToggle(ids[level], parts[level], level < |parts| - 1 || enabled, path, level, parent, appId);
      var u := s[row.id := row];
      InsertKeepsWellFormed(s, parts, level, parent, appId, row);
      assert Live(u, row.id) && u[row.id].path == path;
      StillOccupied(u, parts, level + 1, Some(row.id), enabled, appId, ids, faults, path);
    }
  }

  /** Creation takes no path away. */
  lemma StillOccupied(s: Store, parts: seq<string>, level: nat, parent: Option<Id>,
                      enabled: bool, appId: string, ids: seq<Id>, faults: set<nat>, path: string)
    requires WellFormed(s) && Cursor(s, parts, level, parent, appId)
    requires |ids| == |parts| && Fresh(s, ids, level) && Occupied(s, path, appId)
    ensures Occupied(CreateFrom(s, parts, level, parent, enabled, appId, ids, faults).store, path, appId)
  {
    CreateFromIsSafe(s, parts, level, parent, enabled, appId, ids, faults);
    var u := CreateFrom(s, parts, level, parent, enabled, appId, ids, faults).store;
    var i :| Live(s, i) && s[i].path == path && s[i].appId == appId;
    assert Live(u, i) && u[i].path == path;
  }

  /** A prefix that includes an empty segment has no live row in a decodable catalogue. */
  lemma EmptyIsNotOccupied(s: Store, parts: seq<string>, k: nat, appId: string)
    requires NoDots(parts) && k < |parts| && FirstEmpty(parts) <= k && Decodable(s, appId)
    ensures !Occupied(s, PathTo(parts, k), appId)
  {
    SplitJoin(parts[..k + 1]);
    assert parts[..k + 1][FirstEmpty(parts)] == "";
    assert !ValidPath(PathTo(parts, k));
  }

  /** What a creation inserts before it reaches the first empty segment is decodable. */
  lemma UnreachedIsDecodable(s: Store, op: Operation)
    requires WellFormed(s) && Supplied(s, op) && op.Create? && Decodable(s, op.appId)
    requires var parts := Split(op.path); var e := FirstEmpty(parts);
      e < |parts| ==> !Reaches(s, parts, 0, e, op.appId, op.faults)
    ensures Decodable(CreateFrom(s, Split(op.path), 0, None, op.enabled, op.appId, op.ids, op.faults).store, op.appId)
  {
    var parts := Split(op.path);
    var u := CreateFrom(s, parts, 0, None, op.enabled, op.appId, op.ids, op.faults).store;
    CreateFromIsSafe(s, parts, 0, None, op.enabled, op.appId, op.ids, op.faults);
    forall i | Live(u, i) && u[i].appId == op.appId
      ensures ValidPath(u[i].path)
    {
      if i in s {
        assert Live(s, i);
      } else {
        var k :| 0 <= k < |parts| && InsertedFor(u, i, parts, k, op.enabled, op.appId);
        assert Occupied(u, PathTo(parts, k), op.appId);
        OccupiedAfterIff(s, parts, 0, None, op.enabled, op.appId, op.ids, op.faults, k);
        if FirstEmpty(parts) <= k {
          EmptyIsNotOccupied(s, parts, k, op.appId);
        } else {
          PrefixIsValid(parts, k);
        }
      }
    }
  }

  /** The row of the first empty segment makes a catalogue undecodable. */
  lemma ReachedIsUndecodable(s: Store, op: Operation)
    requires WellFormed(s) && Supplied(s, op) && op.Create? && Decodable(s, op.appId)
    requires var parts := Split(op.path); var e := FirstEmpty(parts);
      e < |parts| && Reaches(s, parts, 0, e, op.appId, op.faults)
    ensures !Decodable(CreateFrom(s, Split(op.path), 0, None, op.enabled, op.appId, op.ids, op.faults).store, op.appId)
  {
    var parts := Split(op.path);
    var e := FirstEmpty(parts);
    var u := CreateFrom(s, parts, 0, None, op.enabled, op.appId, op.ids, op.faults).store;
    OccupiedAfterIff(s, parts, 0, None, op.enabled, op.appId, op.ids, op.faults, e);
    if Decodable(u, op.appId) {
      EmptyIsNotOccupied(u, parts, e, op.appId);
    }
  }

  /** Another application's catalogue does not change. */
  lemma OthersStayDecodable(s: Store, op: Operation, appId: string)
    requires WellFormed(s) && Supplied(s, op) && op.Create? && Decodable(s, appId) && appId != op.appId
    ensures Decodable(CreateFrom(s, Split(op.path), 0, None, op.enabled, op.appId, op.ids, op.faults).store, appId)
  {
    var parts := Split(op.path);
    var u := CreateFrom(s, parts, 0, None, op.enabled, op.appId, op.ids, op.faults).store;
    CreateFromIsSafe(s, parts, 0, None, op.enabled, op.appId, op.ids, op.faults);
    forall i | Live(u, i) && u[i].appId == appId
      ensures ValidPath(u[i].path)
    {
      assert i in s && Live(s, i);
    }
  }

  /**
   The guard, whatever the outcome: a creation makes the application's catalogue undecodable if and only if
   it is accepted, its path has an empty segment, and no insertion fails up to the first such segment. It
   never touches another application's.
   */
  lemma CreateKeepsDecodableIff(s: Store, apps: set<string>, op: Operation, appId: string)
    requires WellFormed(s) && Supplied(s, op) && op.Create? && Decodable(s, appId)
    ensures var parts := Split(op.path); var e := FirstEmpty(parts);
      !Decodable(Apply(s, apps, op).store, appId) <==>
      && appId == op.appId && Accepted(s, apps, op)
      && e < |parts| && Reaches(s, parts, 0, e, op.appId, op.faults)
  {
    var parts := Split(op.path);
    var e := FirstEmpty(parts);
    if appId != op.appId {
      OthersStayDecodable(s, op, appId);
    } else if e < |parts| && Reaches(s, parts, 0, e, op.appId, op.faults) {
      ReachedIsUndecodable(s, op);
    } else {
      UnreachedIsDecodable(s, op);
    }
  }

  /** A creation that goes through is one in which no insertion fails. */
  lemma SuccessKeepsDecodableIff(s: Store, apps: set<string>, op: Operation, appId: string)
    requires WellFormed(s) && Supplied(s, op) && op.Create? && Apply(s, apps, op).outcome == Ok
    requires Decodable(s, appId)
    ensures Decodable(Apply(s, apps, op).store, appId) <==> appId != op.appId || ValidPath(op.path)
  {
    var u, parts := Apply(s, apps, op).store, Split(op.path);
    var e := FirstEmpty(parts);
    CreateKeepsDecodableIff(s, apps, op, appId);
    CreateAddsPath(s, apps, op.path, op.enabled, op.appId, op.ids, op.faults);
    if e < |parts| && appId == op.appId {
      OccupiedAfterIff(s, parts, 0, None, op.enabled, op.appId, op.ids, op.faults, e);
      EmptyIsNotOccupied(s, parts, e, op.appId);
      assert Occupied(u, PathTo(parts, e), op.appId);
    }
  }

  // ---------- whole runs ----------

  /** Every creation of the run has passed the endpoint's check. */
  predicate ValidatedRun(ops: seq<Operation>) {
    forall k | 0 <= k < |ops| :: ops[k].Create? ==> Validated(ops[k].path)
  }

  lemma ShapeKeepsPaths(s: Store, u: Store)
    requires PathsOk(s) && SameShape(s, u)
    ensures PathsOk(u)
  {
    forall i | i in u
      ensures ValidPath(u[i].path)
    {
      assert SameRow(s[i], u[i]);
    }
  }

  lemma OperationKeepsPaths(s: Store, apps: set<string>, op: Operation)
    requires WellFormed(s) && Supplied(s, op) && PathsOk(s) && (op.Create? ==> Validated(op.path))
    ensures PathsOk(Apply(s, apps, op).store)
  {
    var u := Apply(s, apps, op).store;
    if op.Create? {
      ValidatedIsValid(op.path);
      CreateFromIsSafe(s, Split(op.path), 0, None, op.enabled, op.appId, op.ids, op.faults);
      forall i | i in u
        ensures ValidPath(u[i].path)
      {
        if i !in s {
          GrownPathsAreValid(s, u, op.path, op.enabled, op.appId, i);
        }
      }
    } else {
      OthersKeepShape(s, apps, op);
      ShapeKeepsPaths(s, u);
    }
  }

  /** Operations other than creation only change the mutable columns of existing rows. */
  lemma OthersKeepShape(s: Store, apps: set<string>, op: Operation)
    requires Structured(s) && Supplied(s, op) && !op.Create?
    ensures SameShape(s, Apply(s, apps, op).store)
  {
    match op
    case Delete(id, _, user) => ArchivingKeepsShape(s, id, user, Subtree(s, id));
    case Restore(id, _) => ReviveTwice(s, Subtree(s, id), {});
    case _ => UpdatesKeepShape(s, apps, op);
  }

  lemma UpdatesKeepShape(s: Store, apps: set<string>, op: Operation)
    requires Structured(s) && Supplied(s, op) && (op.Update? || op.UpdateById? || op.BulkUpdate? || op.UpdateTree?)
    ensures SameShape(s, Apply(s, apps, op).store)
  {
    match op
    case Update(path, enabled, appId) =>
      if FindLive(s, path, appId).Some? {
        EnablingKeepsShape(s, {FindLive(s, path, appId).value}, enabled);
      }
    case UpdateById(id, enabled, _) => EnablingKeepsShape(s, {id}, enabled);
    case BulkUpdate(ids, enabled, appId) => EnablingKeepsShape(s, Prefix(ids, FirstRejected(s, ids, appId)), enabled);
    case UpdateTree(id, enabled, _) => EnablingKeepsShape(s, LiveSubtree(s, id), enabled);
  }

  lemma EnablingKeepsShape(s: Store, ids: set<Id>, enabled: bool)
    ensures SameShape(s, SetEnabled(s, ids, enabled))
  {
  }

  lemma ArchivingKeepsShape(s: Store, id: Id, user: string, ids: set<Id>)
    ensures SameShape(s, Archive(MarkRoot(s, id, user), ids))
  {
  }

  lemma {:induction false} RunKeepsPaths(s: Store, apps: set<string>, ops: seq<Operation>)
    requires WellFormed(s) && SuppliedRun(s, apps, ops) && SafeRun(s, apps, ops)
    requires PathsOk(s) && ValidatedRun(ops)
    ensures PathsOk(ToggleOperations.Run(s, apps, ops))
    decreases |ops|
  {
    if ops != [] {
      assert forall k | 0 <= k < |ops[1..]| :: ops[1..][k] == ops[k + 1];
      OperationKeepsWellFormedIff(s, apps, ops[0]);
      OperationKeepsPaths(s, apps, ops[0]);
      RunKeepsPaths(Apply(s, apps, ops[0]).store, apps, ops[1..]);
    }
  }

  /**
   Agreement over whole runs: if every creation passed the endpoint's check and every restore was safe,
   the client answers as the server for every application, path and rule matcher.
   */
  lemma ValidatedRunAgrees(apps: set<string>, ops: seq<Operation>, appId: string, list: seq<Toggle>,
                           path: string, matches: Matcher)
    requires SuppliedRun(map[], apps, ops) && SafeRun(map[], apps, ops) && ValidatedRun(ops)
    requires Lists(ToggleOperations.Run(map[], apps, ops), appId, list)
    ensures WellFormed(ToggleOperations.Run(map[], apps, ops))
    ensures ClientAnswer(Published(list), path, matches)
       <==> ServerAnswer(ToggleOperations.Run(map[], apps, ops), appId, path, matches)
  {
    RunStaysWellFormedIff(map[], apps, ops);
    RunKeepsPaths(map[], apps, ops);
    DecodableAgrees(ToggleOperations.Run(map[], apps, ops), appId, list, path, matches);
  }

  // ---------- an approved creation that breaks it ----------

  lemma EmptyMiddleSegment()
    ensures Split("a..b") == ["a", "", "b"] && !ValidPath("a..b") && !Validated("a..b")
  {
    SplitSegment("a");
    SplitSnoc("a", "");
    assert "a" + "." + "" == "a.";
    SplitSnoc("a.", "b");
    assert "a." + "." + "b" == "a..b";
    assert Split("a..b")[1] == "";
    EmptySegmentIsNoName("a..b", 1);
  }

  /**
   An approved creation of "a..b" goes through and leaves "a" on; from then on the server has "a" on
   while a client, which refuses the whole catalogue, answers false.
   */
  lemma EmptySegmentDisagrees(appId: string, ids: seq<Id>, list: seq<Toggle>, matches: Matcher)
    requires appId != "" && Supplied(map[], Create("a..b", false, appId, ids, {}))
    requires Lists(Apply(map[], {appId}, Create("a..b", false, appId, ids, {})).store, appId, list)
    ensures var u := Apply(map[], {appId}, Create("a..b", false, appId, ids, {}));
      && u.outcome == Ok && WellFormed(u.store)
      && ServerAnswer(u.store, appId, "a", matches)
      && !ClientAnswer(Published(list), "a", matches)
  {
    var op := Create("a..b", false, appId, ids, {});
    var u := Apply(map[], {appId}, op).store;
    EmptyMiddleSegment();
    CreateFromIsSafe(map[], Split("a..b"), 0, None, false, appId, ids, {});
    SuccessKeepsDecodableIff(map[], {appId}, op, appId);
    DecodesIff(u, appId, list);
    RootIsOn(u, appId);
  }

  lemma RootIsOn(u: Store, appId: string)
    requires WellFormed(u) && Grown(map[], u, ["a", "", "b"], 0, false, appId)
    requires PathOccupied(u, ["a", "", "b"], 0, appId)
    ensures exists i :: FoundAt(u, i, "a", appId) && IsToggleEnabled(u, i) && !u[i].hasRule
  {
    var parts := ["a", "", "b"];
    assert parts[..1] == ["a"] && PathTo(parts, 0) == "a";
    assert Occupied(u, PathTo(parts, 0), appId);
    var i :| Live(u, i) && u[i].path == "a" && u[i].appId == appId;
    var k :| 0 <= k < 3 && InsertedFor(u, i, parts, k, false, appId);
    SplitJoin(parts[..k + 1]);
    SplitSegment("a");
    assert RowOk(u, i);
    assert FoundAt(u, i, "a", appId);
  }

  // ---------- disabling ----------

  /** The operations that only clear bits. */
  predicate Disables(op: Operation) {
    match op
    case Update(_, enabled, _) => !enabled
    case UpdateById(_, enabled, _) => !enabled
    case BulkUpdate(_, enabled, _) => !enabled
    case UpdateTree(_, enabled, _) => !enabled
    case _ => false
  }

  lemma DisablesSome(s: Store, apps: set<string>, op: Operation) returns (ids: set<Id>)
    requires Structured(s) && Supplied(s, op) && Disables(op)
    ensures Apply(s, apps, op).store == SetEnabled(s, ids, false)
  {
    var u := Apply(s, apps, op).store;
    ids := match op
      case Update(path, _, appId) =>
        if path == "" || appId == "" || FindLive(s, path, appId).None? then {} else {FindLive(s, path, appId).value}
      case UpdateById(id, _, appId) => if Target(s, id, appId) == Ok then {id} else {}
      case BulkUpdate(toggleIds, _, appId) => Prefix(toggleIds, FirstRejected(s, toggleIds, appId))
      case UpdateTree(id, _, appId) => if Live(s, id) && s[id].appId == appId then LiveSubtree(s, id) else {}
      case _ => {};
    assert SetEnabled(s, {}, false) == s;
  }

  /** Disabling never turns a client's answer from false to true, for any path and any rule matcher. */
  lemma DisablingNeverActivates(s: Store, apps: set<string>, op: Operation, appId: string,
                                before: seq<Toggle>, after: seq<Toggle>, path: string, matches: Matcher)
    requires WellFormed(s) && Supplied(s, op) && Disables(op)
    requires Lists(s, appId, before) && Lists(Apply(s, apps, op).store, appId, after)
    ensures ClientAnswer(Published(after), path, matches) ==> ClientAnswer(Published(before), path, matches)
  {
    var u := Apply(s, apps, op).store;
    var ids := DisablesSome(s, apps, op);
    EnablingKeepsWellFormed(s, ids, false);
    DecodesIff(s, appId, before);
    DecodesIff(u, appId, after);
    if ClientAnswer(Published(after), path, matches) {
      DisablingKeepsDecodable(s, ids, appId);
      SdkAgreesWithServer(u, appId, after, path, matches);
      SdkAgreesWithServer(s, appId, before, path, matches);
      DisabledServerAnswer(s, ids, appId, path, matches);
    }
  }

  lemma DisabledServerAnswer(s: Store, ids: set<Id>, appId: string, path: string, matches: Matcher)
    requires WellFormed(s) && WellFormed(SetEnabled(s, ids, false))
    requires ServerAnswer(SetEnabled(s, ids, false), appId, path, matches)
    ensures ServerAnswer(s, appId, path, matches)
  {
    var u := SetEnabled(s, ids, false);
    var i :| FoundAt(u, i, path, appId) && IsToggleEnabled(u, i)
             && (u[i].hasRule && u[i].rule.Some? ==> matches(path, u[i].rule.value));
    assert FoundAt(s, i, path, appId);
    DisablingIsMonotone(s, ids, i);
  }

  lemma DisablingKeepsDecodable(s: Store, ids: set<Id>, appId: string)
    requires Decodable(SetEnabled(s, ids, false), appId)
    ensures Decodable(s, appId)
  {
    var u := SetEnabled(s, ids, false);
    forall i | Live(s, i) && s[i].appId == appId
      ensures ValidPath(s[i].path)
    {
      assert Live(u, i) && u[i].path == s[i].path;
    }
  }

  /** The part of a path before one of its dots is among its prefixes. */
  lemma PrefixOf(path: string, q: string)
    requires path + "." <= q
    ensures |Split(path)| < |Split(q)| && PathTo(Split(q), |Split(path)| - 1) == path
  {
    var rest := q[|path| + 1..];
    assert q == path + ['.'] + rest;
    SplitAppendAt(path, rest, '.');
    JoinSplit(path);
    assert Split(q)[..|Split(path)|] == Split(path);
  }

  /**
   What disabling by path is for: after it, the client answers false for this path and for every path
   below it, whatever the rules, the order of the listing and the bits below.
   */
  lemma DisablingSilences(s: Store, apps: set<string>, path: string, appId: string,
                          list: seq<Toggle>, q: string, matches: Matcher)
    requires WellFormed(s) && Apply(s, apps, Operation.Update(path, false, appId)).outcome == Ok
    requires Lists(Apply(s, apps, Operation.Update(path, false, appId)).store, appId, list)
    requires q == path || path + "." <= q
    ensures !ClientAnswer(Published(list), q, matches)
  {
    var op := Operation.Update(path, false, appId);
    var u := Apply(s, apps, op).store;
    OperationMeans(s, apps, op);
    OperationKeepsWellFormedIff(s, apps, op);
    var i :| FoundAt(s, i, path, appId);
    assert FoundAt(u, i, path, appId) && !u[i].enabled;
    LookupIsLiveRow(u, appId, list, path);
    if q != path {
      PrefixOf(path, q);
    }
  }

  /** What enabling by path is for: the toggle is then on if and only if no ancestor is off. */
  lemma EnablingUnblocks(s: Store, apps: set<string>, path: string, appId: string, i: Id)
    requires WellFormed(s) && Apply(s, apps, Operation.Update(path, true, appId)).outcome == Ok
    requires FoundAt(s, i, path, appId)
    ensures var u := Apply(s, apps, Operation.Update(path, true, appId)).store;
      && WellFormed(u) && Live(u, i)
      && (IsToggleEnabled(u, i) <==> AllEnabled(s, Chain(s, i)[..s[i].level]))
  {
    var op := Operation.Update(path, true, appId);
    var u := Apply(s, apps, op).store;
    OperationMeans(s, apps, op);
    OperationKeepsWellFormedIff(s, apps, op);
    SwitchedOnAlone(s, u, i);
  }

  lemma SwitchedOnAlone(s: Store, u: Store, i: Id)
    requires WellFormed(s) && WellFormed(u) && EnabledExactly(s, u, {i}, true) && Live(s, i)
    ensures Live(u, i) && (IsToggleEnabled(u, i) <==> AllEnabled(s, Chain(s, i)[..s[i].level]))
  {
    OneBitSwitched(s, u, i);
    AboveKept(s, u, i);
    EnabledIffNotBlocked(u, i);
  }

  lemma OneBitSwitched(s: Store, u: Store, i: Id)
    requires Structured(s) && Structured(u) && EnabledExactly(s, u, {i}, true) && Live(s, i)
    ensures Live(u, i) && u[i].enabled && u[i].level == s[i].level && Chain(u, i) == Chain(s, i)
  {
    assert SameShape(s, u);
    SameChain(s, u, i);
  }

  lemma AboveKept(s: Store, u: Store, i: Id)
    requires WellFormed(s) && EnabledExactly(s, u, {i}, true) && Live(s, i)
    ensures AllEnabled(s, Chain(s, i)[..s[i].level]) <==> AllEnabled(u, Chain(s, i)[..s[i].level])
  {
    var above := Chain(s, i)[..s[i].level];
    forall k | 0 <= k < |above|
      ensures above[k] in s && u[above[k]].enabled == s[above[k]].enabled
    {
      ChainAt(s, i, k);
      assert above[k] == Chain(s, i)[k] != i;
    }
    SameBits(s, u, above);
  }

  lemma SameBits(s: Store, u: Store, ids: seq<Id>)
    requires u.Keys == s.Keys && forall k | 0 <= k < |ids| :: ids[k] in s && u[ids[k]].enabled == s[ids[k]].enabled
    ensures AllEnabled(s, ids) <==> AllEnabled(u, ids)
  {
  }

  /** Once a node is off, its own path and every path below it answer false. */
  lemma DisabledNodeSilencesSubtree(s: Store, appId: string, list: seq<Toggle>, root: Id, d: Id, matches: Matcher)
    requires WellFormed(s) && Lists(s, appId, list)
    requires Live(s, d) && s[d].appId == appId && root in s && Under(s, d, root) && !s[root].enabled
    ensures !ClientAnswer(Published(list), s[d].path, matches)
  {
    if Decodes(Published(list)) {
      SdkAgreesWithServer(s, appId, list, s[d].path, matches);
      forall i | FoundAt(s, i, s[d].path, appId)
        ensures !IsToggleEnabled(s, i)
      {
        assert SamePlace(s, i, d);
        DisabledAbove(s, d, root);
      }
    }
  }
}
