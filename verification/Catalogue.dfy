/**
 The public catalogue: the narrow representation of live rows, its canonical order, and the content
 revision computed from it.
 */
module Catalogue {
  import opened Wrappers
  import opened ToggleStore
  import opened ToggleHierarchy

  datatype PublicToggle = PublicToggle(
    id: Id, value: string, enabled: bool, path: string, level: nat, parentId: Option<Id>,
    appId: string, hasRule: bool, rule: Option<Rule>)

  /** A rule is published only while the row says it has one. */
  function Publish(t: Toggle): PublicToggle {
    PublicToggle(t.id, t.value, t.enabled, t.path, t.level, t.parentId, t.appId, t.hasRule,
                 if t.hasRule then t.rule else None)
  }

  // ---------- order ----------

  /** Go's < on strings. */
  predicate StringLess(a: string, b: string) {
    if b == "" then false
    else if a == "" then true
    else a[0] < b[0] || (a[0] == b[0] && StringLess(a[1..], b[1..]))
  }

  /** Up to here the two are equal; then `a` ends, or has the smaller character. */
  predicate DiffersAt(a: string, b: string, k: nat) {
    k <= |a| && k < |b| && a[..k] == b[..k] && (k == |a| || a[k] < b[k])
  }

  lemma {:induction false} DifferingIsLess(a: string, b: string, k: nat)
    requires DiffersAt(a, b, k)
    ensures StringLess(a, b)
  {
    if k > 0 {
      assert a[..k][0] == b[..k][0] && a[..k][1..] == b[..k][1..];
      assert a[1..][..k - 1] == a[..k][1..] && b[1..][..k - 1] == b[..k][1..];
      DifferingIsLess(a[1..], b[1..], k - 1);
    }
  }

  lemma {:induction false} LessDiffers(a: string, b: string) returns (k: nat)
    requires StringLess(a, b)
    ensures DiffersAt(a, b, k)
  {
    k := 0;
    if a != "" && a[0] == b[0] {
      var n := LessDiffers(a[1..], b[1..]);
      k := n + 1;
      assert a[..k] == [a[0]] + a[1..][..n] && b[..k] == [b[0]] + b[1..][..n];
    }
  }

  /** Strings are ordered by the first place in which they differ. */
  lemma StringLessIff(a: string, b: string)
    ensures StringLess(a, b) <==> exists k :: DiffersAt(a, b, k)
  {
    if StringLess(a, b) {
      var k := LessDiffers(a, b);
    }
    if k :| DiffersAt(a, b, k) {
      DifferingIsLess(a, b, k);
    }
  }

  lemma {:induction false} StringLessTransitive(a: string, b: string, c: string)
    requires StringLess(a, b) && StringLess(b, c)
    ensures StringLess(a, c)
  {
    if a != "" && a[0] == b[0] == c[0] {
      StringLessTransitive(a[1..], b[1..], c[1..]);
    }
  }

  lemma {:induction false} StringLessTotal(a: string, b: string)
    ensures StringLess(a, b) || a == b || StringLess(b, a)
    ensures !(StringLess(a, b) && StringLess(b, a)) && !StringLess(a, a)
  {
    if a != "" {
      StringLessTotal(a[1..], a[1..]);
      if b != "" {
        StringLessTotal(a[1..], b[1..]);
        if a[0] == b[0] && a[1..] == b[1..] {
          assert a == [a[0]] + a[1..] == [b[0]] + b[1..] == b;
        }
      }
    }
  }

  predicate Before(t: PublicToggle, u: PublicToggle) {
    if t.path == u.path then StringLess(t.id, u.id) else StringLess(t.path, u.path)
  }

  lemma BeforeTransitive(t: PublicToggle, u: PublicToggle, v: PublicToggle)
    requires Before(t, u) && Before(u, v)
    ensures Before(t, v)
  {
    StringLessTotal(t.path, u.path);
    if t.path == u.path == v.path {
      StringLessTransitive(t.id, u.id, v.id);
    } else if t.path != u.path && u.path != v.path {
      StringLessTransitive(t.path, u.path, v.path);
    }
  }

  lemma BeforeTotal(t: PublicToggle, u: PublicToggle)
    requires t.id != u.id
    ensures Before(t, u) != Before(u, t)
  {
    StringLessTotal(t.path, u.path);
    StringLessTotal(t.id, u.id);
  }

  predicate DistinctIds(list: seq<PublicToggle>) {
    forall j, k | 0 <= j < k < |list| :: list[j].id != list[k].id
  }

  /** Strictly increasing by (path, id). */
  predicate Canonical(list: seq<PublicToggle>) {
    forall j, k | 0 <= j < k < |list| :: Before(list[j], list[k])
  }

  // ---------- sorting ----------

  /** Stands for the library sort. */
  function Insert(t: PublicToggle, list: seq<PublicToggle>): (r: seq<PublicToggle>)
    ensures multiset(r) == multiset(list) + multiset{t}
  {
    if list == [] || Before(t, list[0]) then [t] + list
    else
      assert list == [list[0]] + list[1..];
      [list[0]] + Insert(t, list[1..])
  }

  function Sort(list: seq<PublicToggle>): (r: seq<PublicToggle>)
    ensures multiset(r) == multiset(list)
  {
    if list == [] then []
    else
      assert list == [list[0]] + list[1..];
      Insert(list[0], Sort(list[1..]))
  }

  lemma {:induction false} InsertKeepsCanonical(t: PublicToggle, list: seq<PublicToggle>)
    requires Canonical(list) && forall u | u in list :: u.id != t.id
    ensures Canonical(Insert(t, list))
  {
    if list != [] {
      BeforeTotal(t, list[0]);
      if Before(t, list[0]) {
        forall k | 0 < k < |list|
          ensures Before(t, list[k])
        {
          BeforeTransitive(t, list[0], list[k]);
        }
      } else {
        InsertKeepsCanonical(t, list[1..]);
        var rest := Insert(t, list[1..]);
        forall k | 0 <= k < |rest|
          ensures Before(list[0], rest[k])
        {
          assert rest[k] in multiset(rest);
          assert rest[k] == t || rest[k] in list[1..];
        }
      }
    }
  }

  lemma {:induction false} SortIsCanonical(list: seq<PublicToggle>)
    requires DistinctIds(list)
    ensures Canonical(Sort(list))
  {
    if list != [] {
      SortIsCanonical(list[1..]);
      forall u | u in Sort(list[1..])
        ensures u.id != list[0].id
      {
        assert u in multiset(list[1..]);
      }
      InsertKeepsCanonical(list[0], Sort(list[1..]));
    }
  }

  lemma BeforeAsymmetric(t: PublicToggle, u: PublicToggle)
    ensures !(Before(t, u) && Before(u, t))
  {
    StringLessTotal(t.path, u.path);
    StringLessTotal(t.id, u.id);
  }

  lemma HeadsAgree(a: seq<PublicToggle>, b: seq<PublicToggle>)
    requires Canonical(a) && Canonical(b) && a != [] && b != []
    requires a[0] in b && b[0] in a
    ensures a[0] == b[0]
  {
    BeforeAsymmetric(a[0], b[0]);
  }

  lemma TailMultiset(a: seq<PublicToggle>)
    requires a != []
    ensures a == [a[0]] + a[1..] && multiset(a[1..]) == multiset(a) - multiset{a[0]}
  {
    assert a == [a[0]] + a[1..];
  }

  /** Two canonical listings of the same rows are the same listing. */
  lemma {:induction false} CanonicalIsUnique(a: seq<PublicToggle>, b: seq<PublicToggle>)
    requires Canonical(a) && Canonical(b) && multiset(a) == multiset(b)
    ensures a == b
  {
    assert |a| == |multiset(a)| == |multiset(b)| == |b|;
    if a != [] {
      assert a[0] in multiset(b) && b[0] in multiset(a);
      HeadsAgree(a, b);
      TailMultiset(a);
      TailMultiset(b);
      CanonicalIsUnique(a[1..], b[1..]);
    }
  }

  // ---------- the server's simplification ----------

  /** What the catalogue tells about a row: every column but the deletion marks, and no stale rule. */
  predicate Shows(p: PublicToggle, t: Toggle) {
    && p.id == t.id && p.value == t.value && p.enabled == t.enabled && p.path == t.path && p.level == t.level
    && p.parentId == t.parentId && p.appId == t.appId && p.hasRule == t.hasRule
    && (t.hasRule ==> p.rule == t.rule) && (!t.hasRule ==> p.rule.None?)
  }

  /** By path, and by id on one path. */
  ghost predicate ComesFirst(p: PublicToggle, q: PublicToggle) {
    if p.path == q.path then exists k :: DiffersAt(p.id, q.id, k) else exists k :: DiffersAt(p.path, q.path, k)
  }

  /** Every row is shown and nothing else is; rows with distinct ids are in their order. */
  ghost predicate ShowsAll(simplified: seq<PublicToggle>, toggles: seq<Toggle>) {
    && |simplified| == |toggles|
    && (forall t | t in toggles :: exists k :: 0 <= k < |simplified| && Shows(simplified[k], t))
    && (forall p | p in simplified :: exists j :: 0 <= j < |toggles| && Shows(p, toggles[j]))
    && ((forall i, j | 0 <= i < j < |toggles| :: toggles[i].id != toggles[j].id) ==>
          forall j, k | 0 <= j < k < |simplified| :: ComesFirst(simplified[j], simplified[k]))
  }

  lemma SimplifiedShows(toggles: seq<Toggle>)
    ensures ShowsAll(Sort(PublishAll(toggles)), toggles)
  {
    var all := PublishAll(toggles);
    var simplified := Sort(all);
    assert |simplified| == |multiset(simplified)| == |multiset(all)| == |all|;
    forall t | t in toggles
      ensures exists k :: 0 <= k < |simplified| && Shows(simplified[k], t)
    {
      var j :| 0 <= j < |toggles| && toggles[j] == t;
      assert all[j] in multiset(all);
      var k :| 0 <= k < |simplified| && simplified[k] == all[j];
      assert Shows(simplified[k], t);
    }
    forall p | p in simplified
      ensures exists j :: 0 <= j < |toggles| && Shows(p, toggles[j])
    {
      assert p in multiset(all);
      var j :| 0 <= j < |all| && all[j] == p;
      assert Shows(p, toggles[j]);
    }
    if forall i, j | 0 <= i < j < |toggles| :: toggles[i].id != toggles[j].id {
      SortIsCanonical(all);
      forall j, k | 0 <= j < k < |simplified|
        ensures ComesFirst(simplified[j], simplified[k])
      {
        StringLessIff(simplified[j].path, simplified[k].path);
        StringLessIff(simplified[j].id, simplified[k].id);
      }
    }
  }

  function PublishAll(list: seq<Toggle>): seq<PublicToggle> {
    seq(|list|, k requires 0 <= k < |list| => Publish(list[k]))
  }

  method SimplifyCatalogueToggles(toggles: seq<Toggle>) returns (simplified: seq<PublicToggle>)
    ensures simplified == Sort(PublishAll(toggles))
    ensures ShowsAll(simplified, toggles)
  {
    simplified := [];
    for k := 0 to |toggles|
      invariant simplified == PublishAll(toggles[..k])
    {
      var toggle := toggles[k];
      var rule := toggle.rule;
      if !toggle.hasRule {
        rule := None;
      }
      simplified := simplified + [PublicToggle(toggle.id, toggle.value, toggle.enabled, toggle.path, toggle.level,
                                               toggle.parentId, toggle.appId, toggle.hasRule, rule)];
    }
    assert toggles[..|toggles|] == toggles;
    simplified := Sort(simplified);
    SimplifiedShows(toggles);
  }

  /** The catalogue does not depend on the order in which the rows were read. */
  lemma CatalogueIgnoresQueryOrder(a: seq<PublicToggle>, b: seq<PublicToggle>)
    requires DistinctIds(a) && DistinctIds(b) && multiset(a) == multiset(b)
    ensures Sort(a) == Sort(b)
  {
    SortIsCanonical(a);
    SortIsCanonical(b);
    CanonicalIsUnique(Sort(a), Sort(b));
  }

  // ---------- the revision ----------

  datatype Payload = Payload(applicationId: string, applicationName: string, toggles: seq<PublicToggle>)

  /** The digest of the encoded payload. */
  type Digest = Payload -> string

  /** No two of these payloads collide; nothing is asked of any other payload. */
  predicate TellsApart(digest: Digest, payloads: seq<Payload>) {
    forall p, q | p in payloads && q in payloads && digest(p) == digest(q) :: p == q
  }

  function CatalogueRevision(digest: Digest, applicationId: string, applicationName: string,
                             toggles: seq<PublicToggle>): string
  {
    digest(Payload(applicationId, applicationName, toggles))
  }

  /** What one caller can see: the published live rows of an application. */
  ghost function VisibleRows(s: Store, appId: string): set<PublicToggle> {
    set i | i in s && Live(s, i) && s[i].appId == appId :: Publish(s[i])
  }

  lemma PublishedListing(s: Store, appId: string, list: seq<Toggle>)
    requires WellFormed(s) && Lists(s, appId, list)
    ensures DistinctIds(PublishAll(list))
    ensures forall t :: t in PublishAll(list) <==> t in VisibleRows(s, appId)
  {
    var all := PublishAll(list);
    forall j, k | 0 <= j < k < |all|
      ensures all[j].id != all[k].id
    {
      assert list[j] in list && list[k] in list;
    }
    forall t | t in VisibleRows(s, appId)
      ensures t in all
    {
      var i :| i in s && Live(s, i) && s[i].appId == appId && Publish(s[i]) == t;
      assert RowOk(s, i);
      assert s[i] in list;
      var k :| 0 <= k < |list| && list[k] == s[i];
      assert all[k] == t;
    }
    forall t | t in all
      ensures t in VisibleRows(s, appId)
    {
      var k :| 0 <= k < |all| && all[k] == t;
      assert list[k] in list;
    }
  }

  lemma {:induction false} SameMembersSameMultiset(a: seq<PublicToggle>, b: seq<PublicToggle>)
    requires DistinctIds(a) && DistinctIds(b) && forall t :: t in a <==> t in b
    ensures multiset(a) == multiset(b)
  {
    forall t
      ensures multiset(a)[t] == multiset(b)[t]
    {
      AtMostOnce(a, t);
      AtMostOnce(b, t);
    }
  }

  lemma {:induction false} AtMostOnce(a: seq<PublicToggle>, t: PublicToggle)
    requires DistinctIds(a)
    ensures multiset(a)[t] == if t in a then 1 else 0
  {
    if a != [] {
      assert a == [a[0]] + a[1..];
      AtMostOnce(a[1..], t);
    }
  }

  /** What a read of an application's rows, in some order, is turned into. */
  function PayloadOf(appId: string, name: string, list: seq<Toggle>): Payload {
    Payload(appId, name, Sort(PublishAll(list)))
  }

  /**
   The revision changes precisely with the visible catalogue: two reads, of any two states, of any two
   applications and in any two row orders, get the same revision exactly when they show the same
   application and rows.
   */
  lemma RevisionIdentifiesCatalogue(digest: Digest, s: Store, u: Store, appId: string, appId': string,
                                    name: string, name': string, list: seq<Toggle>, list': seq<Toggle>)
    requires TellsApart(digest, [PayloadOf(appId, name, list), PayloadOf(appId', name', list')])
    requires WellFormed(s) && Lists(s, appId, list) && WellFormed(u) && Lists(u, appId', list')
    ensures CatalogueRevision(digest, appId, name, Sort(PublishAll(list)))
         == CatalogueRevision(digest, appId', name', Sort(PublishAll(list')))
        <==> appId == appId' && name == name' && VisibleRows(s, appId) == VisibleRows(u, appId')
  {
    var a, b := PublishAll(list), PublishAll(list');
    PublishedListing(s, appId, list);
    PublishedListing(u, appId', list');
    if VisibleRows(s, appId) == VisibleRows(u, appId') {
      SameMembersSameMultiset(a, b);
      CatalogueIgnoresQueryOrder(a, b);
    }
    if Sort(a) == Sort(b) {
      SameSortSameMembers(a, b);
      assert VisibleRows(s, appId) == VisibleRows(u, appId');
    }
    var both := [PayloadOf(appId, name, list), PayloadOf(appId', name', list')];
    assert both[0] in both && both[1] in both;
  }

  lemma SameSortSameMembers(a: seq<PublicToggle>, b: seq<PublicToggle>)
    requires Sort(a) == Sort(b)
    ensures forall t :: t in a <==> t in b
  {
    forall t
      ensures t in a <==> t in b
    {
      assert t in a <==> t in multiset(Sort(a));
      assert t in b <==> t in multiset(Sort(b));
    }
  }
}
