/**
 "Effectively on", as the server computes it: the recursion over parent links, and the walk that
 names the blocking ancestor.
 */
module ToggleEvaluation {
  import opened Paths
  import opened ToggleStore
  import opened ToggleOperations

  predicate IsToggleEnabled(s: Store, id: Id)
    requires Structured(s) && id in s
    decreases s[id].level
  {
    assert RowOk(s, id);
    s[id].enabled &&
    (s[id].parentId.None? ||
     (Live(s, s[id].parentId.value) && IsToggleEnabled(s, s[id].parentId.value)))
  }

  /** The ids from the root down to `id`, inclusive. */
  ghost function Chain(s: Store, id: Id): (chain: seq<Id>)
    requires Structured(s) && id in s
    ensures |chain| == s[id].level + 1 && chain[|chain| - 1] == id
    decreases s[id].level
  {
    assert RowOk(s, id);
    match s[id].parentId
    case None => [id]
    case Some(p) => Chain(s, p) + [id]
  }

  /** The `k`-th row of a chain is live and sits on the first `k + 1` segments of the path. */
  lemma {:induction false} ChainAt(s: Store, id: Id, k: nat)
    requires WellFormed(s) && Live(s, id) && k <= s[id].level
    ensures var c := Chain(s, id)[k];
      && Live(s, c) && s[c].appId == s[id].appId && s[c].level == k
      && k + 1 <= |Split(s[id].path)| && Split(s[c].path) == Split(s[id].path)[..k + 1]
    decreases s[id].level
  {
    assert RowOk(s, id) && ParentLive(s, id);
    LevelCountsSegments(s, id);
    if k < s[id].level {
      var p := s[id].parentId.value;
      ChainAt(s, p, k);
      SplitSnoc(s[p].path, s[id].value);
      assert Chain(s, id)[k] == Chain(s, p)[k];
    }
  }

  /** The chain depends on the parent links alone. */
  lemma {:induction false} SameChain(s: Store, u: Store, id: Id)
    requires Structured(s) && Structured(u) && SameShape(s, u) && id in s
    ensures Chain(s, id) == Chain(u, id)
    decreases s[id].level
  {
    assert RowOk(s, id) && SameRow(s[id], u[id]);
    if s[id].parentId.Some? {
      SameChain(s, u, s[id].parentId.value);
    }
  }

  ghost predicate AllEnabled(s: Store, ids: seq<Id>) {
    forall k | 0 <= k < |ids| :: ids[k] in s && s[ids[k]].enabled
  }

  /** The recursion asks for exactly the own bits of the whole chain. */
  lemma {:induction false} EnabledIffChain(s: Store, id: Id)
    requires WellFormed(s) && Live(s, id)
    ensures IsToggleEnabled(s, id) <==> AllEnabled(s, Chain(s, id))
    decreases s[id].level
  {
    assert RowOk(s, id) && ParentLive(s, id);
    if s[id].parentId.Some? {
      var p := s[id].parentId.value;
      EnabledIffChain(s, p);
      var chain := Chain(s, id);
      assert chain[..|chain| - 1] == Chain(s, p);
      assert chain[|chain| - 1] == id;
      if AllEnabled(s, chain) {
        forall k | 0 <= k < |Chain(s, p)|
          ensures Chain(s, p)[k] in s && s[Chain(s, p)[k]].enabled
        {
          assert chain[k] == Chain(s, p)[k];
        }
      }
    }
  }

  /** The proper ancestors, nearest first: the order in which the walk meets them. */
  ghost function Upwards(s: Store, id: Id): seq<Id>
    requires Structured(s) && id in s
    decreases s[id].level
  {
    assert RowOk(s, id);
    match s[id].parentId
    case None => []
    case Some(p) => [p] + Upwards(s, p)
  }

  lemma {:induction false} UpwardsMirrorsChain(s: Store, id: Id, k: nat)
    requires Structured(s) && id in s && k < s[id].level
    ensures |Upwards(s, id)| == s[id].level
    ensures Upwards(s, id)[s[id].level - 1 - k] == Chain(s, id)[k]
    decreases s[id].level
  {
    assert RowOk(s, id);
    var p := s[id].parentId.value;
    assert RowOk(s, p);
    if k < s[p].level {
      UpwardsMirrorsChain(s, p, k);
    } else if s[p].level > 0 {
      UpwardsMirrorsChain(s, p, 0);
    }
  }

  ghost function Ids(rows: seq<Toggle>): seq<Id> {
    seq(|rows|, k requires 0 <= k < |rows| => rows[k].id)
  }

  lemma IdsSnoc(rows: seq<Toggle>, row: Toggle)
    ensures Ids(rows + [row]) == Ids(rows) + [row.id]
  {
  }

  ghost predicate AreLiveRows(s: Store, rows: seq<Toggle>) {
    forall j | 0 <= j < |rows| :: Live(s, rows[j].id) && s[rows[j].id] == rows[j]
  }

  lemma UpwardsStep(s: Store, id: Id)
    requires WellFormed(s) && Live(s, id) && s[id].parentId.Some?
    ensures var p := s[id].parentId.value;
      Live(s, p) && s[p].id == p && s[p].level < s[id].level && Upwards(s, id) == [p] + Upwards(s, p)
  {
    assert ParentLive(s, id) && RowOk(s, id);
    assert RowOk(s, s[id].parentId.value);
  }

  /** Climbs the parent links, nearest ancestor first. */
  method Climb(s: Store, id: Id) returns (chain: seq<Toggle>)
    requires WellFormed(s) && Live(s, id)
    ensures Upwards(s, id) == Ids(chain)
    ensures AreLiveRows(s, chain)
  {
    assert RowOk(s, id);
    chain := [];
    var current := s[id];
    while current.parentId.Some?
      invariant Live(s, current.id) && s[current.id] == current
      invariant AreLiveRows(s, chain)
      invariant Upwards(s, id) == Ids(chain) + Upwards(s, current.id)
      decreases current.level
    {
      UpwardsStep(s, current.id);
      if !Live(s, current.parentId.value) {
        break;
      }
      var parent := s[current.parentId.value];
      IdsSnoc(chain, parent);
      chain := chain + [parent];
      current := parent;
    }
  }

  /** Swaps the ends and moves inwards. */
  method Reverse(upward: seq<Toggle>) returns (chain: seq<Toggle>)
    ensures |chain| == |upward|
    ensures forall m | 0 <= m < |chain| :: chain[m] == upward[|chain| - 1 - m]
  {
    chain := upward;
    var i, j := 0, |chain| - 1;
    while i < j
      invariant 0 <= i <= j + 1 <= |chain| && i + j == |chain| - 1 && |chain| == |upward|
      invariant forall m | 0 <= m < i || j < m < |chain| :: chain[m] == upward[|chain| - 1 - m]
      invariant forall m | i <= m <= j :: chain[m] == upward[m]
    {
      chain := chain[i := chain[j]][j := chain[i]];
      i, j := i + 1, j - 1;
    }
  }

  lemma EnabledSnoc(s: Store, chain: seq<Id>, k: nat)
    requires k < |chain| && AllEnabled(s, chain[..k]) && chain[k] in s && s[chain[k]].enabled
    ensures AllEnabled(s, chain[..k + 1])
  {
    assert chain[..k + 1] == chain[..k] + [chain[k]];
  }

  /** Stops at the first disabled row of the chain. */
  method FirstDisabled(s: Store, chain: seq<Toggle>) returns (clear: bool, blocker: string)
    requires AreLiveRows(s, chain)
    ensures clear <==> AllEnabled(s, Ids(chain))
    ensures clear ==> blocker == ""
    ensures !clear ==> exists k :: DisabledAt(s, Ids(chain), k, blocker)
  {
    for k := 0 to |chain|
      invariant AllEnabled(s, Ids(chain)[..k])
    {
      if !chain[k].enabled {
        assert DisabledAt(s, Ids(chain), k, chain[k].value);
        return false, chain[k].value;
      }
      EnabledSnoc(s, Ids(chain), k);
    }
    assert Ids(chain)[..|chain|] == Ids(chain);
    clear, blocker := true, "";
  }

  /** The first disabled row of the chain is the `k`-th. */
  ghost predicate DisabledAt(s: Store, chain: seq<Id>, k: nat, value: string) {
    && k < |chain| && AllEnabled(s, chain[..k])
    && chain[k] in s && !s[chain[k]].enabled && value == s[chain[k]].value
  }

  /**
   Names the disabled ancestor closest to the root, looking only at own bits and never at the
   toggle's own.
   */
  method AncestorBlocker(s: Store, id: Id) returns (clear: bool, blocker: string)
    requires WellFormed(s) && Live(s, id)
    ensures clear <==> AllEnabled(s, Chain(s, id)[..s[id].level])
    ensures clear ==> blocker == ""
    ensures !clear ==> exists k :: DisabledAt(s, Chain(s, id)[..s[id].level], k, blocker)
  {
    var upward := Climb(s, id);
    var chain := Reverse(upward);
    MirrorIsChain(s, id, upward, chain);
    clear, blocker := FirstDisabled(s, chain);
  }

  lemma MirrorIsChain(s: Store, id: Id, upward: seq<Toggle>, chain: seq<Toggle>)
    requires Structured(s) && id in s && Upwards(s, id) == Ids(upward) && |chain| == |upward|
    requires forall m | 0 <= m < |chain| :: chain[m] == upward[|chain| - 1 - m]
    ensures |chain| == s[id].level && Ids(chain) == Chain(s, id)[..|chain|]
  {
    assert RowOk(s, id);
    if s[id].level > 0 {
      UpwardsMirrorsChain(s, id, 0);
    }
    forall k | 0 <= k < |chain|
      ensures chain[k].id == Chain(s, id)[k]
    {
      UpwardsMirrorsChain(s, id, k);
      assert Ids(upward)[|chain| - 1 - k] == chain[k].id;
    }
  }

  /** Server agreement: the recursion holds exactly when the own bit is set and nothing blocks. */
  lemma EnabledIffNotBlocked(s: Store, id: Id)
    requires WellFormed(s) && Live(s, id)
    ensures IsToggleEnabled(s, id) <==> s[id].enabled && AllEnabled(s, Chain(s, id)[..s[id].level])
  {
    EnabledIffChain(s, id);
    var chain := Chain(s, id);
    assert forall k | 0 <= k < s[id].level :: chain[..s[id].level][k] == chain[k];
  }

  /** Anything below a disabled row is off. */
  lemma {:induction false} DisabledAbove(s: Store, d: Id, root: Id)
    requires WellFormed(s) && Live(s, d) && root in s && Under(s, d, root) && !s[root].enabled
    ensures !IsToggleEnabled(s, d)
    decreases s[d].level
  {
    assert RowOk(s, d) && ParentLive(s, d);
    if d != root {
      DisabledAbove(s, s[d].parentId.value, root);
    }
  }

  /** Clearing bits never turns anything on. */
  lemma {:induction false} DisablingIsMonotone(s: Store, ids: set<Id>, d: Id)
    requires WellFormed(s) && Live(s, d)
    ensures WellFormed(SetEnabled(s, ids, false)) && Live(SetEnabled(s, ids, false), d)
    ensures IsToggleEnabled(SetEnabled(s, ids, false), d) ==> IsToggleEnabled(s, d)
    decreases s[d].level
  {
    EnablingKeepsWellFormed(s, ids, false);
    assert RowOk(s, d) && ParentLive(s, d);
    if s[d].parentId.Some? {
      DisablingIsMonotone(s, ids, s[d].parentId.value);
    }
  }
}
