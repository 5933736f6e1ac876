/**
 Cursor paging over the audit log: the look-ahead row, the two clamps that meet at one hundred, the time
 range that every request measures from its own clock, and what following the cursors returns while new
 entries arrive.
 */
module AuditPaging {
  import opened Wrappers
  import opened Catalogue

  const DEFAULT_PAGE_SIZE := 30
  const MAX_PAGE_SIZE := 100

  const HOUR := 3600

  datatype Entry = Entry(createdAt: int, id: string, category: string, actorId: string, applicationId: string)

  datatype Cursor = Cursor(createdAt: int, id: string)

  /** The filters of a request that are the same on every page: category, actor, application. */
  type Filters = Entry -> bool

  function CursorOf(e: Entry): Cursor {
    Cursor(e.createdAt, e.id)
  }

  /** Strictly later in the listing, which shows newest entries first. */
  predicate Past(c: Cursor, e: Entry) {
    e.createdAt < c.createdAt || (e.createdAt == c.createdAt && StringLess(e.id, c.id))
  }

  /** The result order of the repository: newest first, ids breaking ties. */
  predicate Listed(rows: seq<Entry>) {
    forall j, k | 0 <= j < k < |rows| :: Past(CursorOf(rows[j]), rows[k])
  }

  lemma PastTransitive(a: Cursor, b: Entry, c: Entry)
    requires Past(a, b) && Past(CursorOf(b), c)
    ensures Past(a, c)
  {
    if c.createdAt == b.createdAt == a.createdAt {
      StringLessTransitive(c.id, b.id, a.id);
    }
  }

  lemma PastAsymmetric(a: Entry, b: Entry)
    ensures !(Past(CursorOf(a), b) && Past(CursorOf(b), a)) && !Past(CursorOf(a), a)
  {
    StringLessTotal(a.id, b.id);
  }

  // ---------- the time range ----------

  /** Entries up to this instant are cut off; `None` cuts off nothing. */
  method AuditRangeCutoff(range: string, now: int) returns (cutoff: Option<int>)
    ensures cutoff == CutoffAt(range, now)
    ensures range == "24h" ==> cutoff == Some(now - 86_400)
    ensures range == "7d" ==> cutoff == Some(now - 604_800)
    ensures range == "30d" ==> cutoff == Some(now - 2_592_000)
    ensures range !in {"24h", "7d", "30d"} ==> cutoff.None?
  {
    var d := 0;
    if range == "24h" {
      d := 24 * HOUR;
    } else if range == "7d" {
      d := 7 * 24 * HOUR;
    } else if range == "30d" {
      d := 30 * 24 * HOUR;
    } else {
      return None;
    }
    cutoff := Some(now - d);
  }

  function CutoffAt(range: string, now: int): Option<int> {
    if range == "24h" then Some(now - 24 * HOUR)
    else if range == "7d" then Some(now - 7 * 24 * HOUR)
    else if range == "30d" then Some(now - 30 * 24 * HOUR)
    else None
  }

  predicate Within(cutoff: Option<int>, e: Entry) {
    cutoff.Some? ==> e.createdAt > cutoff.value
  }

  // ---------- one page ----------

  predicate Selected(filters: Filters, cutoff: Option<int>, cursor: Option<Cursor>, e: Entry) {
    filters(e) && Within(cutoff, e) && (cursor.Some? ==> Past(cursor.value, e))
  }

  /** The rows of a listing that pass the filters and the cutoff and lie past the cursor, in order. */
  function Remaining(rows: seq<Entry>, filters: Filters, cutoff: Option<int>, cursor: Option<Cursor>): (r: seq<Entry>)
    ensures forall e :: e in r <==> e in rows && Selected(filters, cutoff, cursor, e)
  {
    if rows == [] then []
    else
      (if Selected(filters, cutoff, cursor, rows[0]) then [rows[0]] else [])
      + Remaining(rows[1..], filters, cutoff, cursor)
  }

  function Clamp(limit: int): (r: int)
    ensures 1 <= r <= MAX_PAGE_SIZE
  {
    if limit <= 0 then DEFAULT_PAGE_SIZE else if limit > MAX_PAGE_SIZE then MAX_PAGE_SIZE else limit
  }

  function Take(rows: seq<Entry>, n: nat): seq<Entry> {
    if |rows| <= n then rows else rows[..n]
  }

  /** The use case: clamps the limit it is given, look-ahead row included. */
  function List(rows: seq<Entry>, filters: Filters, cutoff: Option<int>, cursor: Option<Cursor>,
                limit: int): seq<Entry>
  {
    Take(Remaining(rows, filters, cutoff, cursor), Clamp(limit))
  }

  datatype Page = Page(entries: seq<Entry>, next: Option<Cursor>)

  function Paginate(logs: seq<Entry>, limit: nat): Page
    requires limit >= 1
  {
    if |logs| > limit then Page(logs[..limit], Some(CursorOf(logs[limit - 1]))) else Page(logs, None)
  }

  /** What a request asks for: its filters, not older than its range, and strictly after its cursor. */
  predicate Wanted(filters: Filters, range: string, now: int, cursor: Option<Cursor>, e: Entry) {
    && filters(e)
    && (range == "24h" ==> e.createdAt > now - 86_400)
    && (range == "7d" ==> e.createdAt > now - 604_800)
    && (range == "30d" ==> e.createdAt > now - 2_592_000)
    && (cursor.Some? ==>
          e.createdAt <= cursor.value.createdAt
          && (e.createdAt == cursor.value.createdAt ==> StringLess(e.id, cursor.value.id)))
  }

  /**
   The page holds what is wanted, `size` of it or all; of a listing in order it holds the first rows, and
   announces another page exactly if something wanted is left, except at the maximum.
   */
  ghost predicate FirstWanted(page: Page, rows: seq<Entry>, wanted: Entry -> bool, size: int) {
    && |page.entries| <= size
    && (forall e | e in page.entries :: e in rows && wanted(e))
    && (forall e | e in rows && wanted(e) && e !in page.entries :: |page.entries| == size)
    && (page.next.Some? ==> |page.entries| == size > 0 && page.next.value == CursorOf(page.entries[size - 1]))
    && (Listed(rows) ==>
          && Listed(page.entries)
          && (forall e, f | LeftOut(page, rows, wanted, e) && f in page.entries :: Past(CursorOf(f), e))
          && (page.next.Some? <==> size < 100 && exists e :: LeftOut(page, rows, wanted, e)))
  }

  predicate LeftOut(page: Page, rows: seq<Entry>, wanted: Entry -> bool, e: Entry) {
    e in rows && wanted(e) && e !in page.entries
  }

  lemma WantedIsSelected(filters: Filters, range: string, now: int, cursor: Option<Cursor>, e: Entry)
    ensures Wanted(filters, range, now, cursor, e) <==> Selected(filters, CutoffAt(range, now), cursor, e)
  {
  }

  lemma PlaceAfter(r: seq<Entry>, n: nat, e: Entry) returns (k: nat)
    requires n <= |r| && e in r && e !in r[..n]
    ensures n <= k < |r| && r[k] == e
  {
    assert r == r[..n] + r[n..];
    var j :| 0 <= j < |r[n..]| && r[n..][j] == e;
    k := n + j;
  }

  /** A beginning of an ordered listing comes before the rest. */
  lemma BeginningComesFirst(r: seq<Entry>, n: nat)
    requires Listed(r) && n <= |r|
    ensures Listed(r[..n])
    ensures forall e, f | e in r && e !in r[..n] && f in r[..n] :: Past(CursorOf(f), e)
    ensures n < |r| ==> r[n] !in r[..n]
  {
    ListedIsDistinct(r);
    forall e, f | e in r && e !in r[..n] && f in r[..n]
      ensures Past(CursorOf(f), e)
    {
      var k := PlaceAfter(r, n, e);
      var j :| 0 <= j < n && r[..n][j] == f;
    }
  }

  /** The entries of a page are a beginning of what remains. */
  lemma PageBegins(rows: seq<Entry>, filters: Filters, cutoff: Option<int>, cursor: Option<Cursor>, requested: int)
    ensures var r, n := Remaining(rows, filters, cutoff, cursor), Clamp(requested);
      var page := PageOf(rows, filters, cutoff, cursor, requested);
      && page.entries == r[..if |r| < n then |r| else n]
      && (page.next.Some? <==> n < MAX_PAGE_SIZE && |r| > n)
      && (page.next.Some? ==> page.next.value == CursorOf(r[n - 1]))
  {
    var r := Remaining(rows, filters, cutoff, cursor);
    assert r[..|r|] == r;
    if Clamp(requested) < MAX_PAGE_SIZE {
      PageBelowMaximum(rows, filters, cutoff, cursor, requested);
    } else {
      PageAtMaximum(rows, filters, cutoff, cursor, requested);
    }
  }

  lemma PageTells(rows: seq<Entry>, filters: Filters, range: string, now: int, cursor: Option<Cursor>, requested: int)
    ensures FirstWanted(PageOf(rows, filters, CutoffAt(range, now), cursor, requested), rows,
                        e => Wanted(filters, range, now, cursor, e), Clamp(requested))
  {
    var wanted := e => Wanted(filters, range, now, cursor, e);
    var r := Remaining(rows, filters, CutoffAt(range, now), cursor);
    PageBegins(rows, filters, CutoffAt(range, now), cursor, requested);
    forall e
      ensures e in r <==> e in rows && wanted(e)
    {
      WantedIsSelected(filters, range, now, cursor, e);
    }
    if Listed(rows) {
      RemainingIsListed(rows, filters, CutoffAt(range, now), cursor);
    }
    var page := PageOf(rows, filters, CutoffAt(range, now), cursor, requested);
    BeginningIsWanted(page, rows, wanted, Clamp(requested), r);
  }

  /** A beginning of the wanted rows, with a cursor if it is not all of them. */
  lemma BeginningIsWanted(page: Page, rows: seq<Entry>, wanted: Entry -> bool, size: int, r: seq<Entry>)
    requires (forall e :: e in r <==> e in rows && wanted(e)) && (Listed(rows) ==> Listed(r)) && 1 <= size <= 100
    requires page.entries == r[..if |r| < size then |r| else size]
    requires page.next.Some? <==> size < 100 && |r| > size
    requires page.next.Some? ==> page.next.value == CursorOf(r[size - 1])
    ensures FirstWanted(page, rows, wanted, size)
  {
    var m := |page.entries|;
    assert r == r[..m] + r[m..];
    if Listed(rows) {
      BeginningComesFirst(r, m);
      if m < |r| {
        assert LeftOut(page, rows, wanted, r[m]);
      }
    }
  }

  /** The handler: asks the use case for one row more than the page holds. */
  method GetAuditLog(rows: seq<Entry>, filters: Filters, range: string, now: int, cursor: Option<Cursor>,
                     requested: int)
    returns (page: Page)
    ensures page == PageOf(rows, filters, CutoffAt(range, now), cursor, requested)
    ensures FirstWanted(page, rows, e => Wanted(filters, range, now, cursor, e),
                        if requested <= 0 then 30 else if requested > 100 then 100 else requested)
  {
    var limit := requested;
    if limit <= 0 {
      limit := DEFAULT_PAGE_SIZE;
    } else if limit > MAX_PAGE_SIZE {
      limit := MAX_PAGE_SIZE;
    }
    var cutoff := AuditRangeCutoff(range, now);
    var logs := List(rows, filters, cutoff, cursor, limit + 1);
    var next: Option<Cursor> := None;
    ghost var found := logs;
    if |logs| > limit {
      logs := logs[..limit];
      next := Some(CursorOf(logs[|logs| - 1]));
    }
    page := Page(logs, next);
    assert limit == Clamp(requested) && page == Paginate(found, limit);
    PageTells(rows, filters, range, now, cursor, requested);
  }

  function PageOf(rows: seq<Entry>, filters: Filters, cutoff: Option<int>, cursor: Option<Cursor>,
                  requested: int): Page
  {
    Paginate(List(rows, filters, cutoff, cursor, Clamp(requested) + 1), Clamp(requested))
  }

  // ---------- what a cursor leaves ----------

  lemma {:induction false} RemainingTwice(rows: seq<Entry>, filters: Filters, cutoff: Option<int>,
                                          cursor: Option<Cursor>, last: Entry)
    requires Selected(filters, cutoff, cursor, last)
    ensures Remaining(rows, filters, cutoff, Some(CursorOf(last)))
         == Remaining(Remaining(rows, filters, cutoff, cursor), filters, cutoff, Some(CursorOf(last)))
  {
    if rows != [] {
      RemainingTwice(rows[1..], filters, cutoff, cursor, last);
      var rest := Remaining(rows[1..], filters, cutoff, cursor);
      if Selected(filters, cutoff, cursor, rows[0]) {
        assert ([rows[0]] + rest)[1..] == rest;
      } else {
        assert [] + rest == rest;
        if cursor.Some? && Past(CursorOf(last), rows[0]) {
          PastTransitive(cursor.value, last, rows[0]);
        }
      }
    }
  }

  lemma {:induction false} RemainingIsSuffix(rows: seq<Entry>, filters: Filters, cutoff: Option<int>, k: nat)
    requires Listed(rows) && k < |rows| && forall e | e in rows :: filters(e) && Within(cutoff, e)
    ensures Remaining(rows, filters, cutoff, Some(CursorOf(rows[k]))) == rows[k + 1..]
    decreases |rows|
  {
    PastAsymmetric(rows[0], rows[k]);
    if k > 0 {
      assert Past(CursorOf(rows[0]), rows[k]);
      RemainingIsSuffix(rows[1..], filters, cutoff, k - 1);
    } else {
      RemainingKeepsAll(rows[1..], filters, cutoff, CursorOf(rows[0]));
    }
  }

  lemma {:induction false} RemainingKeepsAll(rows: seq<Entry>, filters: Filters, cutoff: Option<int>, c: Cursor)
    requires forall e | e in rows :: filters(e) && Within(cutoff, e) && Past(c, e)
    ensures Remaining(rows, filters, cutoff, Some(c)) == rows
  {
    if rows != [] {
      RemainingKeepsAll(rows[1..], filters, cutoff, c);
    }
  }

  lemma {:induction false} RemainingIsListed(rows: seq<Entry>, filters: Filters, cutoff: Option<int>,
                                             cursor: Option<Cursor>)
    requires Listed(rows)
    ensures Listed(Remaining(rows, filters, cutoff, cursor))
    ensures |Remaining(rows, filters, cutoff, cursor)| <= |rows|
  {
    if rows != [] {
      var rest := Remaining(rows[1..], filters, cutoff, cursor);
      RemainingIsListed(rows[1..], filters, cutoff, cursor);
      forall k | 0 <= k < |rest|
        ensures Past(CursorOf(rows[0]), rest[k])
      {
        assert rest[k] in rest;
      }
    }
  }

  lemma ListedIsDistinct(r: seq<Entry>)
    requires Listed(r)
    ensures forall j, k | 0 <= j < k < |r| :: r[j] != r[k]
  {
    forall j, k | 0 <= j < k < |r|
      ensures r[j] != r[k]
    {
      PastAsymmetric(r[j], r[k]);
    }
  }

  /** The cursor of the `k`-th remaining entry leaves exactly the entries after it. */
  lemma CursorLeavesSuffix(rows: seq<Entry>, filters: Filters, cutoff: Option<int>, cursor: Option<Cursor>, k: nat)
    requires Listed(rows) && k < |Remaining(rows, filters, cutoff, cursor)|
    ensures var r := Remaining(rows, filters, cutoff, cursor);
      && r[k] in rows && filters(r[k])
      && Remaining(rows, filters, cutoff, Some(CursorOf(r[k]))) == r[k + 1..]
  {
    var r := Remaining(rows, filters, cutoff, cursor);
    assert r[k] in r;
    RemainingTwice(rows, filters, cutoff, cursor, r[k]);
    RemainingIsListed(rows, filters, cutoff, cursor);
    RemainingIsSuffix(r, filters, cutoff, k);
  }

  /** Below the maximum the look-ahead row gets through: a page says truthfully whether more follows. */
  lemma PageBelowMaximum(rows: seq<Entry>, filters: Filters, cutoff: Option<int>, cursor: Option<Cursor>,
                         requested: int)
    requires Clamp(requested) < MAX_PAGE_SIZE
    ensures var r, n := Remaining(rows, filters, cutoff, cursor), Clamp(requested);
      PageOf(rows, filters, cutoff, cursor, requested)
      == if |r| > n then Page(r[..n], Some(CursorOf(r[n - 1]))) else Page(r, None)
  {
    var r, n := Remaining(rows, filters, cutoff, cursor), Clamp(requested);
    if |r| > n {
      assert Take(r, n + 1)[..n] == r[..n];
    }
  }

  /** At the maximum the clamp swallows the look-ahead row, and the first page is the last. */
  lemma PageAtMaximum(rows: seq<Entry>, filters: Filters, cutoff: Option<int>, cursor: Option<Cursor>, requested: int)
    requires Clamp(requested) == MAX_PAGE_SIZE
    ensures PageOf(rows, filters, cutoff, cursor, requested)
         == Page(Take(Remaining(rows, filters, cutoff, cursor), MAX_PAGE_SIZE), None)
  {
  }

  // ---------- a later cutoff ----------

  predicate NoLater(a: Option<int>, b: Option<int>) {
    (a.None? <==> b.None?) && (a.Some? ==> a.value <= b.value)
  }

  /** A later cutoff takes rows off the end of a listing, because the oldest come last. */
  lemma {:induction false} LaterCutoffShortens(rows: seq<Entry>, filters: Filters, a: Option<int>, b: Option<int>,
                                               cursor: Option<Cursor>)
    requires Listed(rows) && NoLater(a, b)
    ensures Remaining(rows, filters, b, cursor) <= Remaining(rows, filters, a, cursor)
  {
    if rows != [] {
      LaterCutoffShortens(rows[1..], filters, a, b, cursor);
      if Selected(filters, a, cursor, rows[0]) && !Selected(filters, b, cursor, rows[0]) {
        forall e | e in rows[1..]
          ensures !Within(b, e)
        {
          var k :| 0 <= k < |rows[1..]| && rows[1..][k] == e;
          assert Past(CursorOf(rows[0]), rows[k + 1]);
        }
        NothingWithin(rows[1..], filters, b, cursor);
      }
    }
  }

  lemma {:induction false} NothingWithin(rows: seq<Entry>, filters: Filters, cutoff: Option<int>,
                                         cursor: Option<Cursor>)
    requires forall e | e in rows :: !Within(cutoff, e)
    ensures Remaining(rows, filters, cutoff, cursor) == []
  {
    if rows != [] {
      NothingWithin(rows[1..], filters, cutoff, cursor);
    }
  }

  lemma LaterIsStricter(a: Option<int>, b: Option<int>, e: Entry)
    requires NoLater(a, b) && Within(b, e)
    ensures Within(a, e)
  {
  }

  /** ... and which ones it leaves is decided row by row. */
  lemma SurvivorsAreWithin(rows: seq<Entry>, filters: Filters, a: Option<int>, b: Option<int>,
                           cursor: Option<Cursor>, k: nat)
    requires Listed(rows) && NoLater(a, b) && k < |Remaining(rows, filters, a, cursor)|
    ensures Within(b, Remaining(rows, filters, a, cursor)[k]) <==> k < |Remaining(rows, filters, b, cursor)|
  {
    var t, p := Remaining(rows, filters, a, cursor), Remaining(rows, filters, b, cursor);
    LaterCutoffShortens(rows, filters, a, b, cursor);
    assert t[k] in t;
    if k < |p| {
      assert p[k] in p;
    } else if Within(b, t[k]) {
      assert t[k] in p;
      var j :| 0 <= j < |p| && p[j] == t[k];
      RemainingIsListed(rows, filters, a, cursor);
      ListedIsDistinct(t);
    }
  }

  // ---------- new arrivals ----------

  /** Every row of `front` is newer than every row of `rows`. */
  predicate Newer(front: seq<Entry>, rows: seq<Entry>) {
    forall f, e | f in front && e in rows :: Past(CursorOf(f), e)
  }

  lemma {:induction false} RemainingAppend(a: seq<Entry>, b: seq<Entry>, filters: Filters, cutoff: Option<int>,
                                           cursor: Option<Cursor>)
    ensures Remaining(a + b, filters, cutoff, cursor)
         == Remaining(a, filters, cutoff, cursor) + Remaining(b, filters, cutoff, cursor)
  {
    if a == [] {
      assert a + b == b;
    } else {
      assert (a + b)[1..] == a[1..] + b;
      RemainingAppend(a[1..], b, filters, cutoff, cursor);
    }
  }

  lemma NewArrivalsAreNotPast(front: seq<Entry>, rows: seq<Entry>, filters: Filters, cutoff: Option<int>, last: Entry)
    requires Newer(front, rows) && last in rows
    ensures Remaining(front + rows, filters, cutoff, Some(CursorOf(last)))
         == Remaining(rows, filters, cutoff, Some(CursorOf(last)))
  {
    RemainingAppend(front, rows, filters, cutoff, Some(CursorOf(last)));
    forall e | e in front
      ensures !Past(CursorOf(last), e)
    {
      PastAsymmetric(e, last);
    }
    NothingPast(front, filters, cutoff, CursorOf(last));
  }

  lemma {:induction false} NothingPast(rows: seq<Entry>, filters: Filters, cutoff: Option<int>, c: Cursor)
    requires forall e | e in rows :: !Past(c, e)
    ensures Remaining(rows, filters, cutoff, Some(c)) == []
  {
    if rows != [] {
      NothingPast(rows[1..], filters, cutoff, c);
    }
  }

  // ---------- following the cursors ----------

  /** One request: its cutoff, and what has arrived in front of the first request's listing by then. */
  datatype Visit = Visit(cutoff: Option<int>, front: seq<Entry>)

  /** The pages one after the other; `finished` if the last one announced no further page. */
  datatype Walked = Walked(entries: seq<Entry>, finished: bool)

  function Walk(rows: seq<Entry>, visits: seq<Visit>, filters: Filters, cursor: Option<Cursor>,
                requested: int): Walked
  {
    if visits == [] then Walked([], false)
    else
      var page := PageOf(visits[0].front + rows, filters, visits[0].cutoff, cursor, requested);
      if page.next.None? then Walked(page.entries, true)
      else
        var rest := Walk(rows, visits[1..], filters, page.next, requested);
        Walked(page.entries + rest.entries, rest.finished)
  }

  /** The cutoff moves forward, and what arrives is newer than what was there. */
  predicate Orderly(visits: seq<Visit>, rows: seq<Entry>) {
    && (forall j, k | 0 <= j <= k < |visits| :: NoLater(visits[j].cutoff, visits[k].cutoff))
    && (forall k | 0 <= k < |visits| :: Newer(visits[k].front, rows))
  }

  /** The page, counted from zero, that the `i`-th row falls on when pages have `n` rows. */
  function PageIndex(i: nat, n: nat): (page: nat)
    requires n >= 1
    ensures page <= i
  {
    if i < n then 0 else 1 + PageIndex(i - n, n)
  }

  /** Every row is still inside the range when its page of `n` rows is asked for. */
  predicate InTime(t: seq<Entry>, visits: seq<Visit>, n: nat)
    requires n >= 1 && |t| <= |visits|
  {
    forall i | 0 <= i < |t| :: RowInTime(t[i], visits, PageIndex(i, n))
  }

  predicate RowInTime(e: Entry, visits: seq<Visit>, page: nat)
    requires page < |visits|
  {
    Within(visits[page].cutoff, e)
  }

  lemma NextVisit(visits: seq<Visit>, rows: seq<Entry>, a: Option<int>)
    requires Orderly(visits, rows) && |visits| >= 2 && NoLater(a, visits[0].cutoff)
    ensures Orderly(visits[1..], rows) && NoLater(a, visits[1..][0].cutoff)
  {
    TailIsOrderly(visits, rows);
    assert NoLater(visits[0].cutoff, visits[1].cutoff);
  }

  lemma TailIsOrderly(visits: seq<Visit>, rows: seq<Entry>)
    requires Orderly(visits, rows) && visits != []
    ensures Orderly(visits[1..], rows)
  {
    assert forall k | 0 <= k < |visits[1..]| :: visits[1..][k] == visits[k + 1];
  }

  /** A row past the first page, seen from the next visit on. */
  lemma OnePageLater(t: seq<Entry>, visits: seq<Visit>, n: nat, i: nat)
    requires 1 <= n <= i < |t| < |visits|
    ensures RowInTime(t[i], visits, PageIndex(i, n))
       <==> RowInTime(t[n..][i - n], visits[1..], PageIndex(i - n, n))
  {
    var page := PageIndex(i - n, n);
    assert visits[1..][page] == visits[page + 1];
  }

  /** The rows of the first page, and then those of the others one page later. */
  lemma InTimeIff(t: seq<Entry>, visits: seq<Visit>, n: nat)
    requires 1 <= n < |t| < |visits|
    requires forall i | 0 <= i < n :: RowInTime(t[i], visits, 0)
    ensures InTime(t, visits, n) <==> InTime(t[n..], visits[1..], n)
  {
    if InTime(t, visits, n) {
      forall j | 0 <= j < |t[n..]|
        ensures RowInTime(t[n..][j], visits[1..], PageIndex(j, n))
      {
        OnePageLater(t, visits, n, j + n);
      }
    }
    if InTime(t[n..], visits[1..], n) {
      forall i | 0 <= i < |t|
        ensures RowInTime(t[i], visits, PageIndex(i, n))
      {
        if i >= n {
          OnePageLater(t, visits, n, i);
        }
      }
    }
  }

  /** On one page the condition is that the cutoff leaves the whole listing. */
  lemma OnePageInTimeIff(rows: seq<Entry>, visits: seq<Visit>, filters: Filters,
                         a: Option<int>, cursor: Option<Cursor>, n: nat)
    requires Listed(rows) && Orderly(visits, rows) && n >= 1
    requires var t := Remaining(rows, filters, a, cursor); |t| < |visits|
    requires var b := visits[0].cutoff; NoLater(a, b) && |Remaining(rows, filters, b, cursor)| <= n
    ensures InTime(Remaining(rows, filters, a, cursor), visits, n)
       <==> Remaining(rows, filters, visits[0].cutoff, cursor) == Remaining(rows, filters, a, cursor)
  {
    var b := visits[0].cutoff;
    var t, p := Remaining(rows, filters, a, cursor), Remaining(rows, filters, b, cursor);
    LaterCutoffShortens(rows, filters, a, b, cursor);
    if p == t {
      forall i | 0 <= i < |t|
        ensures RowInTime(t[i], visits, PageIndex(i, n))
      {
        SurvivorsAreWithin(rows, filters, a, b, cursor, i);
      }
    } else {
      MissingRowIsLate(rows, visits, filters, a, cursor, |p|, PageIndex(|p|, n));
    }
  }

  /** A row that the first cutoff already takes away is away at every later visit. */
  lemma MissingRowIsLate(rows: seq<Entry>, visits: seq<Visit>, filters: Filters,
                         a: Option<int>, cursor: Option<Cursor>, i: nat, page: nat)
    requires Listed(rows) && Orderly(visits, rows) && page < |visits|
    requires var b := visits[0].cutoff;
      NoLater(a, b) && |Remaining(rows, filters, b, cursor)| <= i < |Remaining(rows, filters, a, cursor)|
    ensures !RowInTime(Remaining(rows, filters, a, cursor)[i], visits, page)
  {
    var b, c := visits[0].cutoff, visits[page].cutoff;
    var e := Remaining(rows, filters, a, cursor)[i];
    SurvivorsAreWithin(rows, filters, a, b, cursor, i);
    assert NoLater(b, c);
    if Within(c, e) {
      LaterIsStricter(b, c, e);
    }
  }

  lemma FullPageInTime(rows: seq<Entry>, visits: seq<Visit>, filters: Filters,
                       a: Option<int>, cursor: Option<Cursor>, n: nat)
    requires Listed(rows) && visits != []
    requires var b := visits[0].cutoff; NoLater(a, b) && |Remaining(rows, filters, b, cursor)| >= n
    ensures var t := Remaining(rows, filters, a, cursor);
      |t| >= n && (forall i | 0 <= i < n :: RowInTime(t[i], visits, 0))
  {
    var b := visits[0].cutoff;
    var t := Remaining(rows, filters, a, cursor);
    LaterCutoffShortens(rows, filters, a, b, cursor);
    forall i | 0 <= i < n
      ensures RowInTime(t[i], visits, 0)
    {
      SurvivorsAreWithin(rows, filters, a, b, cursor, i);
    }
  }

  /** A page that announces another one is full: it is the beginning of what was left. */
  lemma FullPage(rows: seq<Entry>, filters: Filters, a: Option<int>, b: Option<int>, cursor: Option<Cursor>, n: nat)
    requires Listed(rows) && NoLater(a, b) && 1 <= n < |Remaining(rows, filters, b, cursor)|
    ensures var t, p := Remaining(rows, filters, a, cursor), Remaining(rows, filters, b, cursor);
      |t| > n && p[..n] == t[..n] && t[n - 1] == p[n - 1]
  {
    LaterCutoffShortens(rows, filters, a, b, cursor);
    BeginningAgrees(Remaining(rows, filters, b, cursor), Remaining(rows, filters, a, cursor), n);
  }

  lemma BeginningAgrees(p: seq<Entry>, t: seq<Entry>, n: nat)
    requires p <= t && 1 <= n < |p|
    ensures |t| > n && p[..n] == t[..n] && t[n - 1] == p[n - 1]
  {
  }

  /** What one step of the walk returns, if the listing past the cursor is the one of `rows`. */
  lemma WalkStep(rows: seq<Entry>, visits: seq<Visit>, filters: Filters, cursor: Option<Cursor>,
                 requested: int, p: seq<Entry>)
    requires visits != [] && Clamp(requested) < MAX_PAGE_SIZE
    requires p == Remaining(visits[0].front + rows, filters, visits[0].cutoff, cursor)
    ensures var n := Clamp(requested);
      Walk(rows, visits, filters, cursor, requested) ==
        if |p| <= n then Walked(p, true)
        else
          var rest := Walk(rows, visits[1..], filters, Some(CursorOf(p[n - 1])), requested);
          Walked(p[..n] + rest.entries, rest.finished)
  {
    PageBelowMaximum(visits[0].front + rows, filters, visits[0].cutoff, cursor, requested);
  }

  /** What a walk promises about the listing `t` it set out to return. */
  predicate Delivers(w: Walked, t: seq<Entry>, complete: bool) {
    w.finished && w.entries <= t && (w.entries == t <==> complete)
  }

  /** The walk ends with a page that announces no other one. */
  lemma LastPageDelivers(rows: seq<Entry>, visits: seq<Visit>, filters: Filters,
                         a: Option<int>, cursor: Option<Cursor>, n: nat)
    requires Listed(rows) && Orderly(visits, rows) && n >= 1
    requires |Remaining(rows, filters, a, cursor)| < |visits|
    requires var b := visits[0].cutoff; NoLater(a, b) && |Remaining(rows, filters, b, cursor)| <= n
    ensures var t := Remaining(rows, filters, a, cursor);
      Delivers(Walked(Remaining(rows, filters, visits[0].cutoff, cursor), true), t, InTime(t, visits, n))
  {
    LaterCutoffShortens(rows, filters, a, visits[0].cutoff, cursor);
    OnePageInTimeIff(rows, visits, filters, a, cursor, n);
  }

  /** A full page in front of a walk that delivers the rest. */
  lemma FullPageDelivers(t: seq<Entry>, visits: seq<Visit>, n: nat, rest: Walked)
    requires 1 <= n < |t| < |visits| && (forall i | 0 <= i < n :: RowInTime(t[i], visits, 0))
    requires Delivers(rest, t[n..], InTime(t[n..], visits[1..], n))
    ensures Delivers(Walked(t[..n] + rest.entries, rest.finished), t, InTime(t, visits, n))
  {
    InTimeIff(t, visits, n);
    PagesJoin(t, n, rest.entries);
  }

  /** The cursor stands for a row, so that nothing newer is past it; the first request has none. */
  ghost predicate Settled(rows: seq<Entry>, visits: seq<Visit>, cursor: Option<Cursor>) {
    visits != [] && (visits[0].front == [] || exists last :: last in rows && cursor == Some(CursorOf(last)))
  }

  /** There are visits enough for what is left past the cursor. */
  ghost predicate Provided(rows: seq<Entry>, visits: seq<Visit>, filters: Filters,
                           a: Option<int>, cursor: Option<Cursor>) {
    && Listed(rows) && Orderly(visits, rows) && Settled(rows, visits, cursor)
    && |Remaining(rows, filters, a, cursor)| < |visits| && NoLater(a, visits[0].cutoff)
  }

  lemma LastPage(rows: seq<Entry>, visits: seq<Visit>, filters: Filters,
                 a: Option<int>, cursor: Option<Cursor>, requested: int)
    requires Provided(rows, visits, filters, a, cursor) && Clamp(requested) < MAX_PAGE_SIZE
    requires |Remaining(rows, filters, visits[0].cutoff, cursor)| <= Clamp(requested)
    ensures var t := Remaining(rows, filters, a, cursor);
      Delivers(Walk(rows, visits, filters, cursor, requested), t, InTime(t, visits, Clamp(requested)))
  {
    SameListing(rows, visits[0].front, filters, visits[0].cutoff, cursor);
    WalkStep(rows, visits, filters, cursor, requested, Remaining(rows, filters, visits[0].cutoff, cursor));
    LastPageDelivers(rows, visits, filters, a, cursor, Clamp(requested));
  }

  lemma LastRowLeaves(rows: seq<Entry>, filters: Filters, a: Option<int>, cursor: Option<Cursor>, k: nat, n: nat)
    requires Listed(rows) && n == k + 1 <= |Remaining(rows, filters, a, cursor)|
    ensures var t := Remaining(rows, filters, a, cursor);
      t[k] in rows && Remaining(rows, filters, a, Some(CursorOf(t[k]))) == t[n..]
  {
    CursorLeavesSuffix(rows, filters, a, cursor, k);
  }

  lemma NextIsSettled(rows: seq<Entry>, visits: seq<Visit>, last: Entry)
    requires visits != [] && last in rows
    ensures Settled(rows, visits, Some(CursorOf(last)))
  {
  }

  /** After a full page, the walk goes on from its last row at the next visit. */
  lemma NextIsProvided(rows: seq<Entry>, visits: seq<Visit>, filters: Filters,
                       a: Option<int>, cursor: Option<Cursor>, n: nat)
    requires Provided(rows, visits, filters, a, cursor)
    requires 1 <= n < |Remaining(rows, filters, visits[0].cutoff, cursor)|
    ensures var t := Remaining(rows, filters, a, cursor);
      && |t| > n && t[n - 1] in rows
      && Remaining(rows, filters, a, Some(CursorOf(t[n - 1]))) == t[n..]
      && Provided(rows, visits[1..], filters, a, Some(CursorOf(t[n - 1])))
  {
    FullPage(rows, filters, a, visits[0].cutoff, cursor, n);
    LastRowLeaves(rows, filters, a, cursor, n - 1, n);
    NextVisit(visits, rows, a);
    NextIsSettled(rows, visits[1..], Remaining(rows, filters, a, cursor)[n - 1]);
  }

  lemma NextPage(rows: seq<Entry>, visits: seq<Visit>, filters: Filters,
                 a: Option<int>, cursor: Option<Cursor>, requested: int, rest: Walked)
    requires Provided(rows, visits, filters, a, cursor) && Clamp(requested) < MAX_PAGE_SIZE
    requires Clamp(requested) < |Remaining(rows, filters, visits[0].cutoff, cursor)|
    requires var t, n := Remaining(rows, filters, a, cursor), Clamp(requested);
      && |t| > n && rest == Walk(rows, visits[1..], filters, Some(CursorOf(t[n - 1])), requested)
      && Delivers(rest, t[n..], InTime(t[n..], visits[1..], n))
    ensures var t := Remaining(rows, filters, a, cursor);
      Delivers(Walk(rows, visits, filters, cursor, requested), t, InTime(t, visits, Clamp(requested)))
  {
    var n, b := Clamp(requested), visits[0].cutoff;
    var t, p := Remaining(rows, filters, a, cursor), Remaining(rows, filters, b, cursor);
    SameListing(rows, visits[0].front, filters, b, cursor);
    WalkStep(rows, visits, filters, cursor, requested, p);
    FullPage(rows, filters, a, b, cursor, n);
    FullPageInTime(rows, visits, filters, a, cursor, n);
    FullPageDelivers(t, visits, n, rest);
  }

  lemma {:induction false} WalkFrom(rows: seq<Entry>, visits: seq<Visit>, filters: Filters,
                                    a: Option<int>, cursor: Option<Cursor>, requested: int)
    requires Provided(rows, visits, filters, a, cursor) && Clamp(requested) < MAX_PAGE_SIZE
    ensures var t := Remaining(rows, filters, a, cursor);
      Delivers(Walk(rows, visits, filters, cursor, requested), t, InTime(t, visits, Clamp(requested)))
    decreases |visits|
  {
    var n := Clamp(requested);
    var t := Remaining(rows, filters, a, cursor);
    if |Remaining(rows, filters, visits[0].cutoff, cursor)| <= n {
      LastPage(rows, visits, filters, a, cursor, requested);
    } else {
      NextIsProvided(rows, visits, filters, a, cursor, n);
      var next := Some(CursorOf(t[n - 1]));
      WalkFrom(rows, visits[1..], filters, a, next, requested);
      NextPage(rows, visits, filters, a, cursor, requested, Walk(rows, visits[1..], filters, next, requested));
    }
  }

  lemma SameListing(rows: seq<Entry>, front: seq<Entry>, filters: Filters, cutoff: Option<int>, cursor: Option<Cursor>)
    requires front == [] || exists last :: last in rows && cursor == Some(CursorOf(last))
    requires Newer(front, rows)
    ensures Remaining(front + rows, filters, cutoff, cursor) == Remaining(rows, filters, cutoff, cursor)
  {
    if front == [] {
      assert front + rows == rows;
    } else {
      var last :| last in rows && cursor == Some(CursorOf(last));
      NewArrivalsAreNotPast(front, rows, filters, cutoff, last);
    }
  }

  lemma PagesJoin(t: seq<Entry>, n: nat, rest: seq<Entry>)
    requires n <= |t| && rest <= t[n..]
    ensures t[..n] + rest <= t && (t[..n] + rest == t <==> rest == t[n..])
  {
    assert t == t[..n] + t[n..];
    assert (t[..n] + rest)[n..] == rest;
  }

  /**
   The whole walk, from a first request that finds `rows`, while entries arrive and the clock moves on.
   It ends, and returns without repetition and in order a beginning of the listing that the first request
   saw. It returns all of it if and only if the page size is below the maximum and every row is still in
   the requested range when its page is asked for, or, at the maximum, if everything fits into one page.
   */
  lemma WalkIsCompleteIff(rows: seq<Entry>, visits: seq<Visit>, filters: Filters, requested: int)
    requires Listed(rows) && Orderly(visits, rows) && |visits| > |rows| && visits[0].front == []
    ensures |Remaining(rows, filters, visits[0].cutoff, None)| <= |rows|
    ensures var t := Remaining(rows, filters, visits[0].cutoff, None);
      && Delivers(Walk(rows, visits, filters, None, requested), t,
                  if Clamp(requested) < MAX_PAGE_SIZE then InTime(t, visits, Clamp(requested))
                  else |t| <= MAX_PAGE_SIZE)
      && forall j, k | 0 <= j < k < |t| :: t[j] != t[k]
  {
    var a := visits[0].cutoff;
    RemainingIsListed(rows, filters, a, None);
    ListedIsDistinct(Remaining(rows, filters, a, None));
    if Clamp(requested) < MAX_PAGE_SIZE {
      WalkFrom(rows, visits, filters, a, None, requested);
    } else {
      assert [] + rows == rows;
      PageAtMaximum(rows, filters, a, None, requested);
    }
  }

  // ---------- the cutoffs of a range ----------

  /** The requests of one walk name the same range, and each measures it from its own clock. */
  predicate Clocked(visits: seq<Visit>, range: string, times: seq<int>) {
    && |times| == |visits|
    && (forall j, k | 0 <= j <= k < |times| :: times[j] <= times[k])
    && (forall k | 0 <= k < |visits| :: visits[k].cutoff == CutoffAt(range, times[k]))
  }

  lemma LaterClockLaterCutoff(range: string, now: int, later: int)
    requires now <= later
    ensures NoLater(CutoffAt(range, now), CutoffAt(range, later))
  {
  }

  /** A clock that never runs backwards is all that a walk needs. */
  lemma ClockedIsOrderly(visits: seq<Visit>, rows: seq<Entry>, range: string, times: seq<int>)
    requires Clocked(visits, range, times) && forall k | 0 <= k < |visits| :: Newer(visits[k].front, rows)
    ensures Orderly(visits, rows)
  {
    forall j, k | 0 <= j <= k < |visits|
      ensures NoLater(visits[j].cutoff, visits[k].cutoff)
    {
      LaterClockLaterCutoff(range, times[j], times[k]);
    }
  }

  /** Without a time range nothing can go out of it: only the page size matters. */
  lemma UnboundedWalkIsCompleteIff(rows: seq<Entry>, visits: seq<Visit>, filters: Filters, requested: int)
    requires Listed(rows) && Orderly(visits, rows) && |visits| > |rows| && visits[0].front == []
    requires visits[0].cutoff == None
    ensures var t := Remaining(rows, filters, None, None);
      Delivers(Walk(rows, visits, filters, None, requested), t,
               Clamp(requested) < MAX_PAGE_SIZE || |t| <= MAX_PAGE_SIZE)
  {
    WalkIsCompleteIff(rows, visits, filters, requested);
    assert forall k | 0 <= k < |visits| :: NoLater(visits[0].cutoff, visits[k].cutoff);
    assert InTime(Remaining(rows, filters, None, None), visits, Clamp(requested));
  }

  /** A walk over two rows, one a page, whose second row crosses the cutoff before the second page. */
  lemma TwoPagesOfOne(newer: Entry, older: Entry, all: Filters, visits: seq<Visit>)
    requires all(newer) && all(older) && |visits| == 3 && visits[0].front == [] && visits[1].front == []
    requires Within(visits[0].cutoff, newer) && Within(visits[0].cutoff, older) && !Within(visits[1].cutoff, older)
    ensures Remaining([newer, older], all, visits[0].cutoff, None) == [newer, older]
    ensures Walk([newer, older], visits, all, None, 1) == Walked([newer], true)
  {
    var rows := [newer, older];
    BothRemain(newer, older, all, visits[0].cutoff);
    NeitherRemains(newer, older, all, visits[1].cutoff);
    SameListing(rows, [], all, visits[0].cutoff, None);
    WalkStep(rows, visits, all, None, 1, rows);
    WalkEnds(rows, visits[1..], all, Some(CursorOf(newer)), 1);
    assert rows[..1] + [] == [newer];
  }

  lemma BothRemain(newer: Entry, older: Entry, all: Filters, cutoff: Option<int>)
    requires all(newer) && all(older) && Within(cutoff, newer) && Within(cutoff, older)
    ensures Remaining([newer, older], all, cutoff, None) == [newer, older]
  {
    TwoRows(newer, older, all, cutoff, None);
  }

  lemma NeitherRemains(newer: Entry, older: Entry, all: Filters, cutoff: Option<int>)
    requires !Within(cutoff, older)
    ensures Remaining([newer, older], all, cutoff, Some(CursorOf(newer))) == []
  {
    TwoRows(newer, older, all, cutoff, Some(CursorOf(newer)));
    PastAsymmetric(newer, newer);
  }

  lemma WalkEnds(rows: seq<Entry>, visits: seq<Visit>, filters: Filters, cursor: Option<Cursor>, requested: int)
    requires visits != [] && visits[0].front == [] && Clamp(requested) < MAX_PAGE_SIZE
    requires Remaining(rows, filters, visits[0].cutoff, cursor) == []
    ensures Walk(rows, visits, filters, cursor, requested) == Walked([], true)
  {
    SameListing(rows, [], filters, visits[0].cutoff, cursor);
    WalkStep(rows, visits, filters, cursor, requested, []);
  }

  /** A concrete walk that loses a row: it leaves the last day between the first page and the second. */
  lemma RowLeavesTheRange(newer: Entry, older: Entry, all: Filters)
    requires newer.createdAt == 10 && older.createdAt == 1 && all(newer) && all(older)
    ensures var rows, visits := [newer, older], [Visit(Some(0), []), Visit(Some(1), []), Visit(Some(2), [])];
      && Clocked(visits, "24h", [24 * HOUR, 24 * HOUR + 1, 24 * HOUR + 2])
      && Listed(rows) && Orderly(visits, rows)
      && Remaining(rows, all, Some(0), None) == rows
      && Walk(rows, visits, all, None, 1) == Walked([newer], true)
  {
    var visits := [Visit(Some(0), []), Visit(Some(1), []), Visit(Some(2), [])];
    TwoPagesOfOne(newer, older, all, visits);
    ClockedIsOrderly(visits, [newer, older], "24h", [24 * HOUR, 24 * HOUR + 1, 24 * HOUR + 2]);
  }

  lemma TwoRows(e: Entry, f: Entry, filters: Filters, cutoff: Option<int>, cursor: Option<Cursor>)
    ensures Remaining([e, f], filters, cutoff, cursor) ==
      (if Selected(filters, cutoff, cursor, e) then [e] else [])
      + (if Selected(filters, cutoff, cursor, f) then [f] else [])
  {
    assert [e, f][1..] == [f] && [f][1..] == [];
    assert Remaining([f], filters, cutoff, cursor) == if Selected(filters, cutoff, cursor, f) then [f] else [];
  }
}
