/**
 The SDK's in-memory snapshot with its refresh health, the server's conditional answer, and the
 mapping of a response to a fetch result.
 */
module RefreshCache {
  import opened Wrappers
  import opened Catalogue
  import opened EntityTags
  import opened SdkEvaluation
  import opened Powers

  // ---------- the cache ----------

  /** Why a refresh failed. */
  datatype RefreshError =
    | RequestFailed(cause: string)
    | KeyRejected
    | UnexpectedStatus(code: int)
    | Undecodable
    | NoSnapshotYet

  datatype Stats = Stats(
    toggleCount: nat, lastSuccessAt: Option<nat>, lastErrorAt: Option<nat>, lastError: Option<RefreshError>,
    consecutiveFailures: nat, etag: string, revision: string)

  datatype Snapshot = Snapshot(toggles: seq<PublicToggle>, stats: Stats, hasCatalog: bool)

  const EMPTY := Snapshot([], Stats(0, None, None, None, 0, "", ""), false)

  function OnCatalog(c: Snapshot, toggles: seq<PublicToggle>, etag: string, revision: string, now: nat): Snapshot {
    Snapshot(toggles, Stats(|toggles|, Some(now), c.stats.lastErrorAt, c.stats.lastError, 0, etag, revision), true)
  }

  /** A 304 may omit its tag; the prior one then stays. */
  function OnFreshness(c: Snapshot, etag: string, now: nat): Snapshot {
    if !c.hasCatalog then c
    else c.(stats := c.stats.(lastSuccessAt := Some(now), consecutiveFailures := 0,
                              etag := if etag != "" then etag else c.stats.etag))
  }

  function OnFailure(c: Snapshot, error: RefreshError, now: nat): Snapshot {
    var failures := c.stats.consecutiveFailures + 1;
    c.(stats := c.stats.(lastErrorAt := Some(now), lastError := Some(error), consecutiveFailures := failures))
  }

  class Cache {
    var toggles: seq<PublicToggle>
    var stats: Stats
    var hasCatalog: bool

    function View(): Snapshot
      reads this
    {
      Snapshot(toggles, stats, hasCatalog)
    }

    constructor ()
      ensures View() == EMPTY
    {
      toggles := [];
      stats := EMPTY.stats;
      hasCatalog := false;
    }

    method UpdateCatalog(app: seq<PublicToggle>, etag: string, revision: string, now: nat)
      modifies this
      ensures View() == OnCatalog(old(View()), app, etag, revision, now)
      ensures hasCatalog && toggles == app
      ensures stats == Stats(|app|, Some(now), old(stats.lastErrorAt), old(stats.lastError), 0, etag, revision)
    {
      toggles := app;
      hasCatalog := true;
      stats := stats.(toggleCount := |app|, lastSuccessAt := Some(now), consecutiveFailures := 0,
                      etag := etag, revision := revision);
    }

    method RecordFreshness(etag: string, now: nat) returns (recorded: bool)
      modifies this
      ensures recorded == old(hasCatalog)
      ensures View() == OnFreshness(old(View()), etag, now)
      ensures toggles == old(toggles) && hasCatalog == old(hasCatalog) && stats.revision == old(stats.revision)
      ensures recorded ==>
              stats == old(stats).(lastSuccessAt := Some(now), consecutiveFailures := 0,
                                   etag := if etag == "" then old(stats.etag) else etag)
      ensures !recorded ==> stats == old(stats)
    {
      if !hasCatalog {
        return false;
      }
      stats := stats.(lastSuccessAt := Some(now), consecutiveFailures := 0);
      if etag != "" {
        stats := stats.(etag := etag);
      }
      recorded := true;
    }

    method RecordFailure(error: RefreshError, now: nat)
      modifies this
      ensures View() == OnFailure(old(View()), error, now)
      ensures toggles == old(toggles) && hasCatalog == old(hasCatalog)
      ensures stats == old(stats).(lastErrorAt := Some(now), lastError := Some(error),
                                   consecutiveFailures := old(stats.consecutiveFailures) + 1)
    {
      var failures := stats.consecutiveFailures + 1;
      stats := stats.(lastErrorAt := Some(now), lastError := Some(error), consecutiveFailures := failures);
    }

    method Clear()
      modifies this
      ensures View() == EMPTY
      ensures toggles == [] && !hasCatalog && stats == Stats(0, None, None, None, 0, "", "")
    {
      toggles := [];
      stats := EMPTY.stats;
      hasCatalog := false;
    }
  }

  // ---------- the server's answer ----------

  datatype Body = Body(revision: string, toggles: seq<PublicToggle>)

  datatype Response = Response(status: int, etag: string, body: Option<Body>)

  predicate Hex(s: string) {
    |s| == 64 && forall k | 0 <= k < |s| :: '0' <= s[k] <= '9' || 'a' <= s[k] <= 'f'
  }

  /** A digest printed as 64 hexadecimal digits that tells apart the catalogues of one history. */
  ghost predicate HexDigest(digest: Digest, history: seq<Payload>) {
    TellsApart(digest, history) && forall p :: Hex(digest(p))
  }

  function ETagOf(digest: Digest, p: Payload): string {
    Quote(digest(p))
  }

  /** 304 with the current tag if the presented one matches it, else the whole catalogue. */
  function Serve(digest: Digest, p: Payload, ifNoneMatch: string): Response {
    if ifNoneMatch != "" && Matches(ifNoneMatch, ETagOf(digest, p))
    then Response(304, ETagOf(digest, p), None)
    else Response(200, ETagOf(digest, p), Some(Body(digest(p), p.toggles)))
  }

  // ---------- the client's reading of it ----------

  /** How many bytes a character takes in UTF-8: the first holds fewer bits, each other one six. */
  function Width(c: char): (n: nat)
    ensures 1 <= n <= 4
    ensures n == 1 <==> c as int < Pow2(7)
    ensures n <= 2 <==> c as int < Pow2(5 + 6)
    ensures n <= 3 <==> c as int < Pow2(4 + 6 + 6)
  {
    Capacities();
    if c < '\U{0080}' then 1 else if c < '\U{0800}' then 2 else if c < '\U{10000}' then 3 else 4
  }

  lemma Capacities()
    ensures Pow2(7) == 0x80 && Pow2(11) == 0x800 && Pow2(16) == 0x1_0000
  {
    assert Pow2(4) == 16;
    assert Pow2(7) == 8 * Pow2(4);
    PowSum(4, 7);
    PowSum(5, 11);
    assert Pow2(5) == 32;
  }

  /** Go's len of a text, which counts bytes. */
  function ByteLength(s: string): (n: nat)
    ensures |s| <= n
    ensures (forall k | 0 <= k < |s| :: Width(s[k]) == 1) ==> n == |s|
  {
    if s == "" then 0 else ByteLength(s[..|s| - 1]) + Width(s[|s| - 1])
  }

  /** Only a bounded quoted tag without control characters is kept; one quote alone is not a tag. */
  predicate SafeETag(value: string) {
    && 2 <= ByteLength(value) <= 1024 && value != "" && value[0] == DQUOTE && value[|value| - 1] == DQUOTE
    && forall k | 0 <= k < |value| :: 31 as char < value[k] && value[k] != 127 as char
  }

  method IsSafeETag(value: string) returns (safe: bool)
    ensures safe == SafeETag(value)
    ensures safe <==>
            && 2 <= ByteLength(value) <= 1024
            && value != "" && value[0] == '"' && value[|value| - 1] == '"'
            && forall k | 0 <= k < |value| :: !(value[k] <= '\U{001F}' || value[k] == '\U{007F}')
  {
    var length := ByteLength(value);
    if length < 2 || length > 1024 || value[0] != DQUOTE || value[|value| - 1] != DQUOTE {
      return false;
    }
    for k := 0 to |value|
      invariant forall j | 0 <= j < k :: 31 as char < value[j] && value[j] != 127 as char
    {
      if value[k] <= 31 as char || value[k] == 127 as char {
        return false;
      }
    }
    safe := true;
  }

  datatype Fetched =
    | FetchError(error: RefreshError)
    | NotModified(etag: string)
    | Catalog(toggles: seq<PublicToggle>, etag: string, revision: string)

  function Kept(etag: string): string {
    if SafeETag(etag) then etag else ""
  }

  function Interpret(r: Response): Fetched {
    if r.status == 401 || r.status == 404 then FetchError(KeyRejected)
    else if r.status == 304 then NotModified(Kept(r.etag))
    else if r.status != 200 then FetchError(UnexpectedStatus(r.status))
    else if r.body.None? || !Decodes(r.body.value.toggles) then FetchError(Undecodable)
    else Catalog(r.body.value.toggles, Kept(r.etag), r.body.value.revision)
  }

  /** What the server says, for any presented tag: its own tag, and its catalogue unless it says 304. */
  lemma ServesCurrent(digest: Digest, p: Payload, ifNoneMatch: string)
    ensures var r := Serve(digest, p, ifNoneMatch);
      && r.etag == "\"" + digest(p) + "\""
      && (if r.status == 304 then r.body.None?
          else r.status == 200 && r.body == Some(Body(digest(p), p.toggles)))
      && (ifNoneMatch == "" ==> r.status == 200)
  {
  }

  /** What the client makes of a response: exactly when which result, and with which contents. */
  lemma InterpretedIff(r: Response)
    ensures var f, tag := Interpret(r), if SafeETag(r.etag) then r.etag else "";
      && (r.status == 200 && r.body.Some? && Decodes(r.body.value.toggles) ==>
            f == Catalog(r.body.value.toggles, tag, r.body.value.revision))
      && (f.Catalog? <==> r.status == 200 && r.body.Some? && Decodes(r.body.value.toggles))
      && (f == NotModified(tag) <==> r.status == 304)
      && (f == FetchError(Undecodable) <==> r.status == 200 && (r.body.Some? ==> !Decodes(r.body.value.toggles)))
      && (f == FetchError(KeyRejected) <==> r.status == 401 || r.status == 404)
      && (f == FetchError(UnexpectedStatus(r.status)) <==> r.status !in {200, 304, 401, 404})
  {
  }

  lemma HexTagIsSafe(digest: Digest, p: Payload)
    requires Hex(digest(p))
    ensures Plain(digest(p)) && Kept(ETagOf(digest, p)) == ETagOf(digest, p) != ""
  {
    var q := Quote(digest(p));
    forall k | 0 <= k < |q|
      ensures 31 as char < q[k] && q[k] != 127 as char
    {
      assert q[k] == DQUOTE || q[k] == digest(p)[k - 1];
    }
  }

  /** A replayed tag of catalogue `p` is answered 304 exactly when the server still has `p`. */
  lemma NotModifiedIff(digest: Digest, p: Payload, current: Payload)
    requires HexDigest(digest, [p, current])
    ensures Serve(digest, current, ETagOf(digest, p)).status == 304 <==> p == current
    ensures Serve(digest, current, "").status == 200
  {
    HexTagIsSafe(digest, p);
    HexTagIsSafe(digest, current);
    MatchesSingleIff(digest(p), digest(current));
    assert [p, current][0] == p && [p, current][1] == current;
  }

  lemma FewerToTellApart(digest: Digest, more: seq<Payload>, fewer: seq<Payload>)
    requires HexDigest(digest, more) && forall p | p in fewer :: p in more
    ensures HexDigest(digest, fewer)
  {
  }

  /** The hypothesis can be met: some digest tells any two given catalogues apart. */
  lemma TwoCanBeToldApart(p: Payload, q: Payload) returns (digest: Digest)
    ensures HexDigest(digest, [p, q])
  {
    var ones := seq(64, _ => '1');
    var zeros := seq(64, _ => '0');
    digest := (r: Payload) => if r == p then ones else zeros;
    assert ones[0] != zeros[0];
  }
}
