/**
 The Go SDK's evaluation: paths, the index by path, the walk over path prefixes, and its agreement
 with the server's parent links.
 */
module SdkEvaluation {
  import opened Paths
  import opened ToggleStore
  import opened ToggleOperations
  import opened ToggleEvaluation
  import opened ToggleHierarchy
  import opened Catalogue

  // ---------- paths ----------

  /** No segment is empty; the empty string has one empty segment. */
  predicate ValidPath(raw: string) {
    forall k | 0 <= k < |Split(raw)| :: Split(raw)[k] != ""
  }

  method NewPath(raw: string) returns (ok: bool)
    ensures ok == ValidPath(raw)
  {
    if raw == "" {
      assert Split(raw)[0] == "";
      return false;
    }
    var segments := Split(raw);
    for k := 0 to |segments|
      invariant forall j | 0 <= j < k :: segments[j] != ""
    {
      if segments[k] == "" {
        return false;
      }
    }
    ok := true;
  }

  /** Every proper prefix of the path, root first. */
  function Prefixes(path: string): seq<string> {
    seq(|Split(path)| - 1, k requires 0 <= k < |Split(path)| - 1 => PathTo(Split(path), k))
  }

  method AncestorPaths(path: string) returns (ancestors: seq<string>)
    ensures ancestors == Prefixes(path)
    ensures |ancestors| == |Split(path)| - 1
    ensures forall k | 0 <= k < |ancestors| :: PrefixAt(path, ancestors[k], k)
  {
    PrefixesAreProper(path);
    var segments := Split(path);
    ancestors := [];
    for i := 1 to |segments|
      invariant |ancestors| == i - 1
      invariant forall k | 0 <= k < |ancestors| :: ancestors[k] == PathTo(segments, k)
    {
      ancestors := ancestors + [Join(segments[..i])];
    }
  }

  /** `above` is the part of the path before its `k + 1`-st dot. */
  predicate PrefixAt(path: string, above: string, k: nat) {
    above + "." <= path && |Split(above)| == k + 1
  }

  lemma PrefixesAreProper(path: string)
    ensures forall k | 0 <= k < |Prefixes(path)| :: PrefixAt(path, Prefixes(path)[k], k)
  {
    forall k | 0 <= k < |Prefixes(path)|
      ensures PrefixAt(path, Prefixes(path)[k], k)
    {
      var parts := Split(path);
      SplitJoin(parts[..k + 1]);
      JoinAppend(parts[..k + 1], parts[k + 1..]);
      assert parts == parts[..k + 1] + parts[k + 1..];
      JoinSplit(path);
    }
  }

  // ---------- the application index ----------

  type ByPath = map<string, PublicToggle>

  /** Later rows overwrite earlier ones. */
  function Index(toggles: seq<PublicToggle>): ByPath {
    if toggles == [] then map[]
    else
      var last := toggles[|toggles| - 1];
      Index(toggles[..|toggles| - 1])[last.path := last]
  }

  method NewApplication(toggles: seq<PublicToggle>) returns (byPath: ByPath)
    ensures byPath == Index(toggles)
    ensures forall k | 0 <= k < |toggles| :: toggles[k].path in byPath
    ensures forall p | p in byPath :: exists k :: LastAt(toggles, k, p) && byPath[p] == toggles[k]
  {
    IndexIsLast(toggles);
    byPath := map[];
    for k := 0 to |toggles|
      invariant byPath == Index(toggles[..k])
    {
      byPath := byPath[toggles[k].path := toggles[k]];
      assert toggles[..k + 1][..k] == toggles[..k];
    }
    assert toggles[..|toggles|] == toggles;
  }

  /** The `k`-th row is the last one with this path. */
  predicate LastAt(toggles: seq<PublicToggle>, k: int, path: string) {
    0 <= k < |toggles| && toggles[k].path == path && forall j | k < j < |toggles| :: toggles[j].path != path
  }

  lemma {:induction false} IndexAtLast(toggles: seq<PublicToggle>, p: string) returns (k: int)
    ensures p in Index(toggles) ==> LastAt(toggles, k, p) && Index(toggles)[p] == toggles[k]
    ensures p !in Index(toggles) ==> forall j | 0 <= j < |toggles| :: toggles[j].path != p
  {
    k := 0;
    if toggles != [] {
      var n := |toggles| - 1;
      assert forall j | 0 <= j < n :: toggles[..n][j] == toggles[j];
      if toggles[n].path == p {
        k := n;
      } else {
        k := IndexAtLast(toggles[..n], p);
      }
    }
  }

  lemma IndexIsLast(toggles: seq<PublicToggle>)
    ensures forall k | 0 <= k < |toggles| :: toggles[k].path in Index(toggles)
    ensures forall p | p in Index(toggles) :: exists k :: LastAt(toggles, k, p) && Index(toggles)[p] == toggles[k]
  {
    forall k | 0 <= k < |toggles|
      ensures toggles[k].path in Index(toggles)
    {
      var last := IndexAtLast(toggles, toggles[k].path);
    }
    forall p | p in Index(toggles)
      ensures exists k :: LastAt(toggles, k, p) && Index(toggles)[p] == toggles[k]
    {
      var last := IndexAtLast(toggles, p);
    }
  }

  predicate AncestorsOn(byPath: ByPath, path: string) {
    forall k | 0 <= k < |Split(path)| - 1 ::
      PathTo(Split(path), k) in byPath ==> byPath[PathTo(Split(path), k)].enabled
  }

  /** The rows at those of the paths that are configured, in order. */
  function Known(byPath: ByPath, paths: seq<string>): seq<PublicToggle> {
    if paths == [] then []
    else
      var last := paths[|paths| - 1];
      Known(byPath, paths[..|paths| - 1]) + (if last in byPath then [byPath[last]] else [])
  }

  /** The ancestors that exist, root first; a prefix that was never configured is skipped. */
  method AncestorsOf(byPath: ByPath, path: string) returns (ancestors: seq<PublicToggle>)
    ensures ancestors == Known(byPath, Prefixes(path))
    ensures exists at :: PickedAt(byPath, Prefixes(path), ancestors, at)
  {
    ghost var at := KnownIsPicked(byPath, Prefixes(path));
    var ancestorPaths := AncestorPaths(path);
    ancestors := [];
    for i := 0 to |ancestorPaths|
      invariant ancestors == Known(byPath, ancestorPaths[..i])
    {
      var p := ancestorPaths[i];
      assert ancestorPaths[..i + 1][..i] == ancestorPaths[..i];
      if p in byPath {
        ancestors := ancestors + [byPath[p]];
      }
    }
    assert ancestorPaths[..|ancestorPaths|] == ancestorPaths;
  }

  /** `rows` are the configured ones of these paths, at the positions `at`, in order. */
  predicate PickedAt(byPath: ByPath, paths: seq<string>, rows: seq<PublicToggle>, at: seq<nat>) {
    && |at| == |rows|
    && (forall j, k | 0 <= j < k < |at| :: at[j] < at[k])
    && (forall j | 0 <= j < |at| :: at[j] < |paths| && paths[at[j]] in byPath && rows[j] == byPath[paths[at[j]]])
    && (forall k | 0 <= k < |paths| && paths[k] in byPath :: k in at)
  }

  lemma PickedSnoc(byPath: ByPath, paths: seq<string>, rows: seq<PublicToggle>, at: seq<nat>, p: string)
    requires PickedAt(byPath, paths, rows, at)
    ensures p !in byPath ==> PickedAt(byPath, paths + [p], rows, at)
    ensures p in byPath ==> PickedAt(byPath, paths + [p], rows + [byPath[p]], at + [|paths|])
  {
    var more := at + [|paths|];
    assert forall k | k in at :: k in more;
    assert more[|at|] == |paths|;
  }

  lemma {:induction false} KnownIsPicked(byPath: ByPath, paths: seq<string>) returns (at: seq<nat>)
    ensures PickedAt(byPath, paths, Known(byPath, paths), at)
  {
    at := [];
    if paths != [] {
      var n := |paths| - 1;
      assert paths == paths[..n] + [paths[n]];
      at := KnownIsPicked(byPath, paths[..n]);
      PickedSnoc(byPath, paths[..n], Known(byPath, paths[..n]), at, paths[n]);
      if paths[n] in byPath {
        at := at + [n];
      } else {
        assert Known(byPath, paths) == Known(byPath, paths[..n]);
      }
    }
  }

  predicate AllOn(rows: seq<PublicToggle>) {
    forall k | 0 <= k < |rows| :: rows[k].enabled
  }

  lemma AllOnSnoc(rows: seq<PublicToggle>, row: PublicToggle)
    ensures AllOn(rows + [row]) <==> AllOn(rows) && row.enabled
  {
    if AllOn(rows + [row]) {
      assert (rows + [row])[|rows|] == row;
      assert forall k | 0 <= k < |rows| :: (rows + [row])[k] == rows[k];
    }
  }

  /** A path is on, or not configured at all. */
  predicate OnOrUnknown(byPath: ByPath, path: string) {
    path in byPath ==> byPath[path].enabled
  }

  lemma {:induction false} KnownAreOn(byPath: ByPath, paths: seq<string>)
    ensures AllOn(Known(byPath, paths)) <==> forall k | 0 <= k < |paths| :: OnOrUnknown(byPath, paths[k])
  {
    if paths != [] {
      var n := |paths| - 1;
      KnownAreOn(byPath, paths[..n]);
      assert forall k | 0 <= k < n :: paths[..n][k] == paths[k];
      if paths[n] in byPath {
        AllOnSnoc(Known(byPath, paths[..n]), byPath[paths[n]]);
      } else {
        assert Known(byPath, paths) == Known(byPath, paths[..n]);
      }
    }
  }

  /** Walking the ancestors that exist asks exactly for the enabled bit of every configured prefix. */
  lemma AncestorsOnIff(byPath: ByPath, path: string)
    ensures AllOn(Known(byPath, Prefixes(path))) <==> AncestorsOn(byPath, path)
  {
    var paths := Prefixes(path);
    KnownAreOn(byPath, paths);
    assert forall k | 0 <= k < |Split(path)| - 1 :: paths[k] == PathTo(Split(path), k);
    if AncestorsOn(byPath, path) {
      assert forall k | 0 <= k < |paths| :: OnOrUnknown(byPath, paths[k]);
    }
    if forall k | 0 <= k < |paths| :: OnOrUnknown(byPath, paths[k]) {
      assert forall k | 0 <= k < |Split(path)| - 1 :: OnOrUnknown(byPath, paths[k]);
    }
  }

  lemma OnAlongIff(byPath: ByPath, path: string)
    ensures AncestorsOn(byPath, path) <==> forall p | p in Prefixes(path) && p in byPath :: byPath[p].enabled
  {
    AncestorsOnIff(byPath, path);
    KnownAreOn(byPath, Prefixes(path));
    var paths := Prefixes(path);
    if AncestorsOn(byPath, path) {
      forall p | p in paths && p in byPath
        ensures byPath[p].enabled
      {
        var k :| 0 <= k < |paths| && paths[k] == p;
        assert OnOrUnknown(byPath, paths[k]);
      }
    }
    if forall p | p in paths && p in byPath :: byPath[p].enabled {
      assert forall k | 0 <= k < |paths| :: paths[k] in paths && OnOrUnknown(byPath, paths[k]);
    }
  }

  // ---------- evaluation ----------

  /** How a rule matches in the current request, as a function of the toggle's path and the rule. */
  type Matcher = (string, Rule) -> bool

  predicate RuleHolds(t: PublicToggle, matches: Matcher) {
    !t.hasRule || t.rule.None? || matches(t.path, t.rule.value)
  }

  predicate Answer(byPath: ByPath, path: string, matches: Matcher) {
    && ValidPath(path) && path in byPath
    && AncestorsOn(byPath, path) && byPath[path].enabled && RuleHolds(byPath[path], matches)
  }

  method Evaluate(byPath: ByPath, path: string, matches: Matcher) returns (active: bool)
    ensures active == Answer(byPath, path, matches)
    ensures active <==>
              && (forall k | 0 <= k < |Split(path)| :: Split(path)[k] != "")
              && path in byPath && byPath[path].enabled
              && (forall p | p in Prefixes(path) && p in byPath :: byPath[p].enabled)
              && var row := byPath[path]; row.hasRule && row.rule.Some? ==> matches(row.path, row.rule.value)
  {
    OnAlongIff(byPath, path);
    var valid := NewPath(path);
    if !valid {
      return false;
    }
    if path !in byPath {
      return false;
    }
    var target := byPath[path];
    var ancestors := AncestorsOf(byPath, path);
    AncestorsOnIff(byPath, path);
    for k := 0 to |ancestors|
      invariant forall j | 0 <= j < k :: ancestors[j].enabled
    {
      if !ancestors[k].enabled {
        return false;
      }
    }
    active := target.enabled && RuleHolds(target, matches);
  }

  // ---------- the index of a published catalogue ----------

  ghost predicate DistinctPaths(list: seq<PublicToggle>) {
    forall j, k | 0 <= j < |list| && 0 <= k < |list| && list[j].path == list[k].path :: j == k
  }

  lemma {:induction false} IndexAt(list: seq<PublicToggle>, path: string)
    requires DistinctPaths(list)
    ensures path in Index(list) ==> Index(list)[path] in list && Index(list)[path].path == path
    ensures forall t | t in list && t.path == path :: path in Index(list) && Index(list)[path] == t
  {
    if list != [] {
      var init := list[..|list| - 1];
      assert list == init + [list[|list| - 1]];
      assert forall j | 0 <= j < |init| :: init[j] == list[j];
      IndexAt(init, path);
    }
  }

  /** What the server publishes for the rows `list` of a table. */
  function Published(list: seq<Toggle>): seq<PublicToggle> {
    Sort(PublishAll(list))
  }

  lemma PublishedMembers(s: Store, appId: string, list: seq<Toggle>)
    requires WellFormed(s) && Lists(s, appId, list)
    ensures Canonical(Published(list))
    ensures forall t :: t in Published(list) <==> t in VisibleRows(s, appId)
  {
    PublishedListing(s, appId, list);
    SortIsCanonical(PublishAll(list));
    forall t
      ensures t in Published(list) <==> t in VisibleRows(s, appId)
    {
      assert t in Published(list) <==> t in multiset(Published(list));
      assert t in PublishAll(list) <==> t in multiset(PublishAll(list));
    }
  }

  lemma OneRowPerPath(s: Store, appId: string, t: PublicToggle, u: PublicToggle)
    requires WellFormed(s) && t in VisibleRows(s, appId) && u in VisibleRows(s, appId) && t.path == u.path
    ensures t == u
  {
    var i :| i in s && Live(s, i) && s[i].appId == appId && Publish(s[i]) == t;
    var j :| j in s && Live(s, j) && s[j].appId == appId && Publish(s[j]) == u;
    assert SamePlace(s, i, j);
  }

  lemma PublishedPathsDistinct(s: Store, appId: string, list: seq<Toggle>)
    requires WellFormed(s) && Lists(s, appId, list)
    ensures DistinctPaths(Published(list))
  {
    var c := Published(list);
    PublishedMembers(s, appId, list);
    forall j, k | 0 <= j < |c| && 0 <= k < |c| && c[j].path == c[k].path
      ensures j == k
    {
      assert c[j] in c && c[k] in c;
      OneRowPerPath(s, appId, c[j], c[k]);
      BeforeAsymmetric(c[j], c[j]);
    }
  }

  /** Looking a path up in the index is looking for the live row at that path. */
  lemma LookupIsLiveRow(s: Store, appId: string, list: seq<Toggle>, path: string)
    requires WellFormed(s) && Lists(s, appId, list)
    ensures path in Index(Published(list)) <==> Occupied(s, path, appId)
    ensures forall i | FoundAt(s, i, path, appId) ::
              path in Index(Published(list)) && Index(Published(list))[path] == Publish(s[i])
  {
    PublishedMembers(s, appId, list);
    PublishedPathsDistinct(s, appId, list);
    IndexAt(Published(list), path);
    forall i | FoundAt(s, i, path, appId)
      ensures path in Index(Published(list)) && Index(Published(list))[path] == Publish(s[i])
    {
      assert Publish(s[i]) in VisibleRows(s, appId);
    }
    if Occupied(s, path, appId) {
      var i :| Live(s, i) && s[i].path == path && s[i].appId == appId;
      assert FoundAt(s, i, path, appId);
    }
  }

  /** The prefix walk sees exactly the ancestors on the parent chain. */
  lemma PrefixesAreAncestors(s: Store, appId: string, list: seq<Toggle>, i: Id)
    requires WellFormed(s) && Lists(s, appId, list) && Live(s, i) && s[i].appId == appId
    ensures AncestorsOn(Index(Published(list)), s[i].path) <==> AllEnabled(s, Chain(s, i)[..s[i].level])
  {
    var byPath := Index(Published(list));
    var segments := Split(s[i].path);
    var above := Chain(s, i)[..s[i].level];
    LevelCountsSegments(s, i);
    forall k | 0 <= k < s[i].level
      ensures above[k] in s && PathTo(segments, k) in byPath
      ensures byPath[PathTo(segments, k)].enabled == s[above[k]].enabled
    {
      var c := Chain(s, i)[k];
      ChainAt(s, i, k);
      JoinSplit(s[c].path);
      assert FoundAt(s, c, PathTo(segments, k), appId);
      LookupIsLiveRow(s, appId, list, PathTo(segments, k));
    }
  }

  /** The server's answer for a path: the live row there is effectively on, and its own rule holds. */
  ghost predicate ServerAnswer(s: Store, appId: string, path: string, matches: Matcher)
    requires Structured(s)
  {
    exists i ::
      && FoundAt(s, i, path, appId) && IsToggleEnabled(s, i)
      && (s[i].hasRule && s[i].rule.Some? ==> matches(path, s[i].rule.value))
  }

  /** Decoding rejects the whole catalogue if a single path has an empty segment. */
  predicate Decodes(catalogue: seq<PublicToggle>) {
    forall k | 0 <= k < |catalogue| :: ValidPath(catalogue[k].path)
  }

  /** Agreement of the two implementations, path by path, for any rule matcher. */
  lemma SdkAgreesWithServer(s: Store, appId: string, list: seq<Toggle>, path: string, matches: Matcher)
    requires WellFormed(s) && Lists(s, appId, list) && Decodes(Published(list))
    ensures Answer(Index(Published(list)), path, matches) <==> ServerAnswer(s, appId, path, matches)
  {
    var byPath := Index(Published(list));
    LookupIsLiveRow(s, appId, list, path);
    if Occupied(s, path, appId) {
      var i := FindLive(s, path, appId).value;
      PrefixesAreAncestors(s, appId, list, i);
      EnabledIffNotBlocked(s, i);
      PublishedMembers(s, appId, list);
      PublishedPathsDistinct(s, appId, list);
      IndexAt(Published(list), path);
      assert byPath[path] == Publish(s[i]);
      forall j | FoundAt(s, j, path, appId)
        ensures j == i
      {
        FoundIsUnique(s, j, path, appId);
      }
    }
  }
}
