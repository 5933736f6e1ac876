/**
 The If-None-Match check of the catalogue endpoint: weak comparison of a list of entity-tags with the
 current one (sections 8.8.3, 8.8.3.2 and 13.1.2 of RFC 9110).
 */
module EntityTags {
  import opened Paths

  const DQUOTE := '"'
  const BACKSLASH := '\\'

  // ---------- the standard library's trimming ----------

  predicate IsBlank(c: char) {
    c == ' ' || c == '\t'
  }

  /** Space and tab, by their code points. */
  lemma BlankIff(c: char)
    ensures IsBlank(c) <==> c as int in {0x20, 0x09}
  {
  }

  function TrimBlanks(s: string): (r: string)
    ensures |r| <= |s|
  {
    if s != "" && IsBlank(s[0]) then TrimBlanks(s[1..]) else s
  }

  // ---------- the check, as a function ----------

  /** The index of the closing quote at or after `end`, or the length. A backslash skips one character. */
  function ClosingQuote(h: string, end: nat): (r: nat)
    requires end <= |h|
    ensures end <= r <= |h|
    ensures r < |h| ==> h[r] == DQUOTE
    decreases |h| - end
  {
    if end == |h| then end
    else if h[end] == BACKSLASH && end + 1 < |h| then ClosingQuote(h, end + 2)
    else if h[end] == DQUOTE then end
    else ClosingQuote(h, end + 1)
  }

  /** The header with leading blanks and the weakness prefix taken off. */
  function AtTag(h: string): (r: string)
    ensures |r| <= |h|
  {
    var t := TrimBlanks(h);
    if "W/" <= t then t[2..] else t
  }

  predicate ListMatches(h: string, current: string)
    decreases |h|
  {
    var t := AtTag(h);
    if |t| == 0 || t[0] != DQUOTE then false
    else
      var end := ClosingQuote(t, 1);
      if end == |t| then false
      else if t[..end + 1] == current then true
      else
        var rest := TrimBlanks(t[end + 1..]);
        rest != "" && rest[0] == ',' && ListMatches(rest[1..], current)
  }

  predicate Matches(header: string, current: string) {
    TrimSpace(header) == "*" || ListMatches(TrimSpace(header), current)
  }

  /** The check on a header whose first tag does not match and is followed by a comma. */
  lemma SkipTag(h: string, current: string, end: nat)
    requires var t := AtTag(h); |t| > 0 && t[0] == DQUOTE && end == ClosingQuote(t, 1) < |t| && t[..end + 1] != current
    ensures var rest := TrimBlanks(AtTag(h)[end + 1..]);
      |rest| < |h| && ListMatches(h, current) == (rest != "" && rest[0] == ',' && ListMatches(rest[1..], current))
  {
  }

  // ---------- which quote closes a tag ----------

  /** How many backslashes stand directly before position `p`. */
  function Slashes(h: string, p: nat): nat
    requires p <= |h|
  {
    if p > 0 && h[p - 1] == BACKSLASH then 1 + Slashes(h, p - 1) else 0
  }

  predicate Escaped(h: string, p: nat)
    requires p <= |h|
  {
    Slashes(h, p) % 2 == 1
  }

  /** The scan stops at the first quote, from a place that is not escaped on, that is not escaped. */
  lemma {:induction false} ClosingIsUnescaped(h: string, end: nat)
    requires 1 <= end <= |h| && h[0] != BACKSLASH && !Escaped(h, end)
    ensures var r := ClosingQuote(h, end);
      && (r < |h| ==> !Escaped(h, r))
      && forall p | end <= p < r && h[p] == DQUOTE :: Escaped(h, p)
    decreases |h| - end
  {
    if end < |h| && h[end] == BACKSLASH && end + 1 < |h| {
      assert Slashes(h, end + 1) == 1 + Slashes(h, end);
      ClosingIsUnescaped(h, end + 2);
    } else if end < |h| && h[end] != DQUOTE && h[end] != BACKSLASH {
      ClosingIsUnescaped(h, end + 1);
    }
  }

  // ---------- the loops ----------

  /** The scan for the quote that closes the tag at the start of `h`. */
  method FindClosingQuote(h: string) returns (end: nat)
    requires h != "" && h[0] == DQUOTE
    ensures end == ClosingQuote(h, 1)
    ensures 1 <= end <= |h| && (end < |h| ==> h[end] == DQUOTE && !Escaped(h, end))
    ensures forall p | 1 <= p < end && h[p] == DQUOTE :: Escaped(h, p)
  {
    ClosingIsUnescaped(h, 1);
    end := 1;
    while end < |h|
      invariant 1 <= end <= |h|
      invariant ClosingQuote(h, end) == ClosingQuote(h, 1)
    {
      if h[end] == BACKSLASH && end + 1 < |h| {
        end := end + 2;
        continue;
      }
      if h[end] == DQUOTE {
        break;
      }
      end := end + 1;
    }
  }

  /** Never out of range, always terminating, whatever the header. */
  method IfNoneMatchMatches(header: string, currentETag: string) returns (matched: bool)
    ensures matched == Matches(header, currentETag)
    ensures matched <==> TrimSpace(header) == "*" || exists ms :: LastIs(ms, TrimSpace(header), currentETag)
  {
    ListMatchesIff(TrimSpace(header), currentETag);
    var h := TrimSpace(header);
    if h == "*" {
      return true;
    }
    ghost var answer := ListMatches(h, currentETag);
    while |h| > 0
      invariant ListMatches(h, currentETag) == answer
      decreases |h|
    {
      ghost var was := h;
      h := TrimBlanks(h);
      if "W/" <= h {
        h := h[2..];
      }
      assert h == AtTag(was);
      if |h| == 0 || h[0] != DQUOTE {
        return false;
      }
      var end := FindClosingQuote(h);
      if end == |h| {
        return false;
      }
      if h[..end + 1] == currentETag {
        return true;
      }
      SkipTag(was, currentETag, end);
      h := TrimBlanks(h[end + 1..]);
      if h == "" {
        return false;
      }
      if h[0] != ',' {
        return false;
      }
      h := h[1..];
    }
    matched := false;
  }

  // ---------- the printer ----------

  /** One list member: blanks, an optional W/, the quoted opaque tag, blanks. */
  datatype Member = Member(before: string, weak: bool, tag: string, after: string)

  predicate Blanks(s: string) {
    forall k | 0 <= k < |s| :: IsBlank(s[k])
  }

  /** An opaque tag without DQUOTE or backslash. */
  predicate Plain(tag: string) {
    DQUOTE !in tag && BACKSLASH !in tag
  }

  predicate MemberOk(m: Member) {
    Blanks(m.before) && Blanks(m.after) && Plain(m.tag)
  }

  predicate MembersOk(members: seq<Member>) {
    forall k | 0 <= k < |members| :: MemberOk(members[k])
  }

  function Quote(tag: string): string {
    [DQUOTE] + tag + [DQUOTE]
  }

  function Mark(m: Member): string {
    if m.weak then "W/" else ""
  }

  /** What follows the first member: the end of the list, or a comma and the other members. */
  function PrintRest(members: seq<Member>): string
    decreases |members|, 1
  {
    if members == [] then "" else "," + Print(members)
  }

  function Print(members: seq<Member>): string
    requires members != []
    decreases |members|, 0
  {
    members[0].before + Mark(members[0]) + Quote(members[0].tag) + members[0].after + PrintRest(members[1..])
  }

  // ---------- the parser reads what the printer prints ----------

  lemma {:induction false} TrimsBlanks(b: string, s: string)
    requires Blanks(b) && (s == "" || !IsBlank(s[0]))
    ensures TrimBlanks(b + s) == s
  {
    if b == "" {
      assert b + s == s;
    } else {
      assert (b + s)[1..] == b[1..] + s;
      TrimsBlanks(b[1..], s);
    }
  }

  lemma {:induction false} QuoteCloses(tag: string, tail: string, k: nat)
    requires Plain(tag) && 1 <= k <= |tag| + 1
    ensures ClosingQuote(Quote(tag) + tail, k) == |tag| + 1
    decreases |tag| + 1 - k
  {
    var h := Quote(tag) + tail;
    if k <= |tag| {
      assert h[k] == tag[k - 1] && tag[k - 1] in tag;
      QuoteCloses(tag, tail, k + 1);
    } else {
      assert h[k] == DQUOTE;
    }
  }

  lemma QuoteInjective(a: string, b: string)
    ensures Quote(a) == Quote(b) <==> a == b
  {
    assert Quote(a)[1..|a| + 1] == a;
    assert Quote(b)[1..|b| + 1] == b;
  }

  lemma ReadsTag(m: Member, tail: string)
    requires Blanks(m.before)
    ensures AtTag(m.before + Mark(m) + Quote(m.tag) + tail) == Quote(m.tag) + tail
  {
    var core := Mark(m) + Quote(m.tag) + tail;
    assert m.before + Mark(m) + Quote(m.tag) + tail == m.before + core;
    TrimsBlanks(m.before, core);
    if m.weak {
      assert core[..2] == "W/";
      assert core[2..] == Quote(m.tag) + tail;
    } else {
      assert core == Quote(m.tag) + tail;
      assert core[0] == DQUOTE;
    }
  }

  ghost predicate Has(members: seq<Member>, tag: string) {
    exists k :: 0 <= k < |members| && members[k].tag == tag
  }

  lemma HasHead(members: seq<Member>, tag: string)
    requires members != []
    ensures Has(members, tag) <==> members[0].tag == tag || Has(members[1..], tag)
  {
    if Has(members[1..], tag) {
      var k :| 0 <= k < |members[1..]| && members[1..][k].tag == tag;
      assert members[k + 1].tag == tag;
    }
    if Has(members, tag) && members[0].tag != tag {
      var k :| 0 <= k < |members| && members[k].tag == tag;
      assert members[1..][k - 1].tag == tag;
    }
  }

  lemma {:induction false} ListReadsPrinted(members: seq<Member>, current: string)
    requires members != [] && MembersOk(members)
    ensures ListMatches(Print(members), Quote(current)) <==> Has(members, current)
    decreases |members|
  {
    var m, more := members[0], PrintRest(members[1..]);
    var tail := m.after + more;
    var t := Quote(m.tag) + tail;
    assert MemberOk(m);
    assert Print(members) == m.before + Mark(m) + Quote(m.tag) + tail;
    ReadsTag(m, tail);
    QuoteCloses(m.tag, tail, 1);
    assert t[0] == DQUOTE;
    assert t[..|m.tag| + 2] == Quote(m.tag);
    assert t[|m.tag| + 2..] == tail;
    QuoteInjective(m.tag, current);
    TrimsBlanks(m.after, more);
    HasHead(members, current);
    if members[1..] != [] {
      assert more[1..] == Print(members[1..]);
      ListReadsPrinted(members[1..], current);
    }
  }

  // ---------- the outer trimming ----------

  lemma {:induction false} TrimsLeft(b: string, s: string)
    requires Blanks(b) && s != "" && !IsSpace(s[0])
    ensures TrimSpaceLeft(b + s) == s
  {
    if b == "" {
      assert b + s == s;
    } else {
      assert (b + s)[1..] == b[1..] + s;
      TrimsLeft(b[1..], s);
    }
  }

  lemma {:induction false} TrimsRight(s: string, b: string)
    requires Blanks(b) && s != "" && !IsSpace(s[|s| - 1])
    ensures TrimSpaceRight(s + b) == s
  {
    if b == "" {
      assert s + b == s;
    } else {
      assert (s + b)[..|s + b| - 1] == s + b[..|b| - 1];
      TrimsRight(s, b[..|b| - 1]);
    }
  }

  /** Outer blanks of the list removed. */
  function TrimFirst(members: seq<Member>): seq<Member>
    requires members != []
  {
    members[0 := members[0].(before := "")]
  }

  function TrimLast(members: seq<Member>): seq<Member>
    requires members != []
  {
    members[|members| - 1 := members[|members| - 1].(after := "")]
  }

  /** Everything up to the closing quote of the first member. */
  function Opening(m: Member): string {
    m.before + Mark(m) + [DQUOTE] + m.tag
  }

  lemma OpeningCloses(m: Member)
    ensures m.before + Mark(m) + Quote(m.tag) == Opening(m) + [DQUOTE]
  {
  }

  lemma PrintOne(m: Member)
    ensures Print([m]) == Opening(m) + [DQUOTE] + m.after
  {
    OpeningCloses(m);
    assert [m][1..] == [];
  }

  lemma PrintMore(members: seq<Member>)
    requires |members| > 1
    ensures Print(members) == Opening(members[0]) + [DQUOTE] + members[0].after + "," + Print(members[1..])
  {
    var m := members[0];
    OpeningCloses(m);
    assert Print(members) == Opening(m) + [DQUOTE] + m.after + PrintRest(members[1..]);
  }

  /** Printing ends with the last closing quote and the blanks after it. */
  lemma {:induction false} PrintedEnd(members: seq<Member>) returns (init: string)
    requires members != []
    ensures Print(members) == init + [DQUOTE] + members[|members| - 1].after
    ensures Print(TrimLast(members)) == init + [DQUOTE]
    decreases |members|
  {
    var m, rest, trimmed := members[0], members[1..], TrimLast(members);
    if rest == [] {
      init := Opening(m);
      assert members == [m] && trimmed == [m.(after := "")];
      PrintOne(m);
      PrintOne(m.(after := ""));
    } else {
      var end := PrintedEnd(rest);
      init := Opening(m) + [DQUOTE] + m.after + "," + end;
      assert trimmed[1..] == TrimLast(rest);
      PrintMore(members);
      PrintMore(trimmed);
    }
  }

  lemma TrimFirstPrint(members: seq<Member>)
    requires members != [] && MembersOk(members)
    ensures TrimSpaceLeft(Print(members)) == Print(TrimFirst(members))
  {
    var first := TrimFirst(members);
    assert first[1..] == members[1..];
    assert Print(members) == members[0].before + Print(first);
    assert Print(first)[0] == if members[0].weak then 'W' else DQUOTE;
    assert MemberOk(members[0]);
    TrimsLeft(members[0].before, Print(first));
  }

  lemma TrimLastPrint(members: seq<Member>)
    requires members != [] && MembersOk(members)
    ensures TrimSpaceRight(Print(members)) == Print(TrimLast(members))
  {
    var last := members[|members| - 1];
    assert MemberOk(last);
    var init := PrintedEnd(members);
    TrimsRight(init + [DQUOTE], last.after);
  }

  lemma SameTags(a: seq<Member>, b: seq<Member>, tag: string)
    requires |a| == |b| && forall k | 0 <= k < |a| :: a[k].tag == b[k].tag
    ensures Has(a, tag) <==> Has(b, tag)
  {
    if Has(a, tag) {
      var k :| 0 <= k < |a| && a[k].tag == tag;
      assert b[k].tag == tag;
    }
    if Has(b, tag) {
      var k :| 0 <= k < |b| && b[k].tag == tag;
      assert a[k].tag == tag;
    }
  }

  /**
   The check against the printer: for every non-empty list of plain tags, printed with any weakness
   marks and blanks, the answer is true exactly when some opaque tag is the current one.
   */
  lemma MatchesPrintedIff(members: seq<Member>, current: string)
    requires members != [] && MembersOk(members)
    ensures Matches(Print(members), Quote(current)) <==> Has(members, current)
  {
    TrimFirstPrint(members);
    TrimLastPrint(TrimFirst(members));
    var t := TrimLast(TrimFirst(members));
    ListReadsPrinted(t, current);
    SameTags(t, members, current);
    assert DQUOTE in Print(t) by {
      assert MemberOk(t[0]);
      assert Quote(t[0].tag)[0] == DQUOTE;
    }
  }

  /** The header a client replays: one strong tag. */
  lemma MatchesSingleIff(tag: string, current: string)
    requires Plain(tag)
    ensures Matches(Quote(tag), Quote(current)) <==> tag == current
  {
    var members := [Member("", false, tag, "")];
    assert members[1..] == [];
    assert Print(members) == Quote(tag);
    MatchesPrintedIff(members, current);
    assert Has(members, current) <==> members[0].tag == current;
  }

  // ---------- any header ----------

  ghost predicate SuffixOf(r: string, h: string) {
    |r| <= |h| && r == h[|h| - |r|..]
  }

  predicate OccursAt(tag: string, h: string, k: int) {
    0 <= k <= |h| - |tag| && h[k..k + |tag|] == tag
  }

  ghost predicate OccursIn(tag: string, h: string) {
    exists k :: OccursAt(tag, h, k)
  }

  lemma {:induction false} TrimBlanksIsSuffix(s: string)
    ensures SuffixOf(TrimBlanks(s), s)
  {
    if s != "" && IsBlank(s[0]) {
      TrimBlanksIsSuffix(s[1..]);
    }
  }

  lemma OccursInSuffix(tag: string, r: string, h: string)
    requires SuffixOf(r, h) && OccursIn(tag, r)
    ensures OccursIn(tag, h)
  {
    var k :| OccursAt(tag, r, k);
    assert OccursAt(tag, h, |h| - |r| + k);
  }

  /** On any header at all, a list match means the current tag literally occurs in it. */
  lemma {:induction false} ListMatchOccurs(h: string, current: string)
    requires ListMatches(h, current)
    ensures OccursIn(current, h)
    decreases |h|
  {
    var t := AtTag(h);
    AtTagIsSuffix(h);
    var end := ClosingQuote(t, 1);
    if t[..end + 1] == current {
      assert OccursAt(current, t, 0);
    } else {
      var rest := TrimBlanks(t[end + 1..]);
      TrimBlanksIsSuffix(t[end + 1..]);
      ListMatchOccurs(rest[1..], current);
      SuffixTrans(rest[1..], rest, t[end + 1..]);
      SuffixTrans(rest[1..], t[end + 1..], t);
      OccursInSuffix(current, rest[1..], t);
    }
    OccursInSuffix(current, t, h);
  }

  lemma AtTagIsSuffix(h: string)
    ensures SuffixOf(AtTag(h), h)
  {
    TrimBlanksIsSuffix(h);
  }

  lemma SuffixTrans(a: string, b: string, c: string)
    requires SuffixOf(a, b) && SuffixOf(b, c)
    ensures SuffixOf(a, c)
  {
  }

  // ---------- which headers match ----------

  /** A tag as it can stand in a header: its quotes are escaped, and the quote that closes it is not. */
  predicate Raw(tag: string) {
    && !Escaped(tag, |tag|)
    && forall p | 0 <= p < |tag| && tag[p] == DQUOTE :: Escaped(tag, p)
  }

  predicate RawOk(m: Member) {
    Blanks(m.before) && Blanks(m.after) && Raw(m.tag)
  }

  /** Everything up to the closing quote of a member. */
  function Head(m: Member): string {
    m.before + Mark(m) + Quote(m.tag)
  }

  /** A list up to the closing quote of its last member. */
  function Begun(ms: seq<Member>): string
    requires ms != []
  {
    if |ms| == 1 then Head(ms[0]) else Head(ms[0]) + (ms[0].after + "," + Begun(ms[1..]))
  }

  /** The header begins with this list of tags, the last of which is the current one. */
  ghost predicate LastIs(ms: seq<Member>, h: string, current: string) {
    ms != [] && (forall k | 0 <= k < |ms| :: RawOk(ms[k])) && Begun(ms) <= h && Quote(ms[|ms| - 1].tag) == current
  }

  lemma {:induction false} SlashesInside(tag: string, tail: string, p: nat)
    requires p <= |tag|
    ensures Slashes([DQUOTE] + tag + tail, p + 1) == Slashes(tag, p)
  {
    var h := [DQUOTE] + tag + tail;
    assert h[p] == if p == 0 then DQUOTE else tag[p - 1];
    if p > 0 && tag[p - 1] == BACKSLASH {
      SlashesInside(tag, tail, p - 1);
    }
  }

  lemma InsideQuotes(tag: string, tail: string, p: nat)
    requires p <= |tag|
    ensures var h := Quote(tag) + tail;
      Escaped(h, p + 1) == Escaped(tag, p) && h[p + 1] == if p < |tag| then tag[p] else DQUOTE
  {
    assert Quote(tag) + tail == [DQUOTE] + tag + ([DQUOTE] + tail);
    SlashesInside(tag, [DQUOTE] + tail, p);
  }

  lemma RawIsClosed(tag: string, tail: string)
    requires Raw(tag)
    ensures ClosingQuote(Quote(tag) + tail, 1) == |tag| + 1
  {
    var h := Quote(tag) + tail;
    var r := ClosingQuote(h, 1);
    InsideQuotes(tag, tail, 0);
    ClosingIsUnescaped(h, 1);
    InsideQuotes(tag, tail, |tag|);
    if r <= |tag| {
      InsideQuotes(tag, tail, r - 1);
    }
  }

  lemma ClosedIsRaw(tag: string, tail: string)
    requires ClosingQuote(Quote(tag) + tail, 1) == |tag| + 1
    ensures Raw(tag)
  {
    var h := Quote(tag) + tail;
    InsideQuotes(tag, tail, 0);
    ClosingIsUnescaped(h, 1);
    InsideQuotes(tag, tail, |tag|);
    forall p | 0 <= p < |tag| && tag[p] == DQUOTE
      ensures Escaped(tag, p)
    {
      InsideQuotes(tag, tail, p);
    }
  }

  /** What trimming takes off. */
  lemma {:induction false} TrimTakesBlanks(s: string) returns (b: string)
    ensures Blanks(b) && s == b + TrimBlanks(s)
  {
    b := "";
    if s != "" && IsBlank(s[0]) {
      var more := TrimTakesBlanks(s[1..]);
      b := [s[0]] + more;
    }
  }

  /** What stands before a tag. */
  lemma AtTagTakes(h: string) returns (m: Member)
    ensures Blanks(m.before) && m.tag == "" && m.after == "" && h == m.before + Mark(m) + AtTag(h)
  {
    var b := TrimTakesBlanks(h);
    m := Member(b, "W/" <= TrimBlanks(h), "", "");
  }

  lemma LastIsOne(m: Member, tail: string)
    requires RawOk(m)
    ensures LastIs([m], Head(m) + tail, Quote(m.tag))
  {
    assert (Head(m) + tail)[..|Head(m)|] == Head(m);
  }

  lemma PrefixBehind(front: string, short: string, long: string)
    requires short <= long
    ensures front + short <= front + long
  {
    assert long == short + long[|short|..];
    assert front + long == (front + short) + long[|short|..];
  }

  lemma BegunCons(m: Member, ms: seq<Member>)
    requires ms != []
    ensures Begun([m] + ms) == Head(m) + (m.after + "," + Begun(ms))
  {
    assert ([m] + ms)[1..] == ms;
  }

  lemma LastIsMore(m: Member, ms: seq<Member>, tail: string, current: string)
    requires RawOk(m) && LastIs(ms, tail, current)
    ensures LastIs([m] + ms, Head(m) + (m.after + "," + tail), current)
  {
    BegunCons(m, ms);
    PrefixBehind(m.after + ",", Begun(ms), tail);
    PrefixBehind(Head(m), m.after + "," + Begun(ms), m.after + "," + tail);
    var all := [m] + ms;
    assert forall k | 0 <= k < |all| :: RawOk(all[k]);
    assert all[|all| - 1] == ms[|ms| - 1];
  }

  /** The first tag of a text that begins with one, and what follows it. */
  lemma FirstTag(h: string) returns (m: Member, tail: string)
    requires var t := AtTag(h); t != "" && t[0] == DQUOTE && ClosingQuote(t, 1) < |t|
    ensures m.after == "" && RawOk(m) && h == Head(m) + tail
    ensures var t := AtTag(h); var end := ClosingQuote(t, 1); t[..end + 1] == Quote(m.tag) && t[end + 1..] == tail
  {
    var t := AtTag(h);
    var end := ClosingQuote(t, 1);
    var tag := t[1..end];
    m := AtTagTakes(h);
    m, tail := m.(tag := tag), t[end + 1..];
    assert t[..end + 1] == Quote(tag) && t == Quote(tag) + tail;
    ClosedIsRaw(tag, tail);
  }

  lemma BeforeComma(tail: string) returns (after: string)
    requires var rest := TrimBlanks(tail); rest != "" && rest[0] == ','
    ensures Blanks(after) && tail == after + "," + TrimBlanks(tail)[1..]
  {
    after := TrimTakesBlanks(tail);
    assert TrimBlanks(tail) == "," + TrimBlanks(tail)[1..];
  }

  lemma {:induction false} MatchIsListed(h: string, current: string) returns (ms: seq<Member>)
    requires ListMatches(h, current)
    ensures LastIs(ms, h, current)
    decreases |h|
  {
    var m, tail := FirstTag(h);
    if Quote(m.tag) == current {
      LastIsOne(m, tail);
      ms := [m];
    } else {
      SkipTag(h, current, ClosingQuote(AtTag(h), 1));
      var rest := TrimBlanks(tail)[1..];
      var after := BeforeComma(tail);
      var more := MatchIsListed(rest, current);
      var first := m.(after := after);
      LastIsMore(first, more, rest, current);
      assert Head(first) == Head(m);
      ms := [first] + more;
    }
  }

  /** A raw member at the front is what the check looks at first. */
  lemma ReadsFirst(m: Member, tail: string)
    requires RawOk(m)
    ensures var t := AtTag(Head(m) + tail);
      && t == Quote(m.tag) + tail && t[0] == DQUOTE && ClosingQuote(t, 1) == |m.tag| + 1
      && t[..|m.tag| + 2] == Quote(m.tag) && t[|m.tag| + 2..] == tail
  {
    ReadsTag(m, tail);
    RawIsClosed(m.tag, tail);
  }

  lemma MatchesFirst(m: Member, tail: string)
    requires RawOk(m)
    ensures ListMatches(Head(m) + tail, Quote(m.tag))
  {
    ReadsFirst(m, tail);
  }

  lemma MatchesLater(m: Member, more: string, current: string)
    requires RawOk(m) && ListMatches(more, current)
    ensures ListMatches(Head(m) + (m.after + "," + more), current)
  {
    var tail := m.after + "," + more;
    ReadsFirst(m, tail);
    assert tail == m.after + ("," + more) && ("," + more)[1..] == more;
    TrimsBlanks(m.after, "," + more);
    if Quote(m.tag) != current {
      SkipTag(Head(m) + tail, current, |m.tag| + 1);
    }
  }

  lemma {:induction false} ListedMatches(ms: seq<Member>, h: string, current: string)
    requires LastIs(ms, h, current)
    ensures ListMatches(h, current)
    decreases |ms|
  {
    var m := ms[0];
    assert RawOk(m);
    if |ms| == 1 {
      MatchesFirst(m, h[|Head(m)|..]);
      assert h == Head(m) + h[|Head(m)|..];
    } else {
      var front := Head(m) + (m.after + ",");
      var more := h[|front|..];
      LaterBegins(ms, h, more);
      assert forall k | 0 <= k < |ms[1..]| :: ms[1..][k] == ms[k + 1];
      ListedMatches(ms[1..], more, current);
      MatchesLater(m, more, current);
    }
  }

  lemma Regroup(a: string, b: string, c: string)
    ensures a + (b + c) == (a + b) + c
  {
  }

  lemma Behind(front: string, later: string, h: string)
    requires front + later <= h
    ensures later <= h[|front|..] && h == front + h[|front|..]
  {
    var rest := h[|front + later|..];
    assert h == (front + later) + rest;
    Regroup(front, later, rest);
    assert h[|front|..] == later + rest;
  }

  lemma LaterBegins(ms: seq<Member>, h: string, more: string)
    requires |ms| > 1 && Begun(ms) <= h && more == h[|Head(ms[0]) + (ms[0].after + ",")|..]
    ensures Begun(ms[1..]) <= more && h == Head(ms[0]) + (ms[0].after + "," + more)
  {
    var head, comma := Head(ms[0]), ms[0].after + ",";
    Regroup(head, comma, Begun(ms[1..]));
    Behind(head + comma, Begun(ms[1..]), h);
    Regroup(head, comma, more);
  }

  /**
   The list part, on every text: it matches exactly if the text begins with a comma-separated list of quoted
   tags, weak or not, the last of which is the current one, whatever follows.
   */
  lemma ListMatchesIff(h: string, current: string)
    ensures ListMatches(h, current) <==> exists ms :: LastIs(ms, h, current)
  {
    if ListMatches(h, current) {
      var ms := MatchIsListed(h, current);
    }
    if ms :| LastIs(ms, h, current) {
      ListedMatches(ms, h, current);
    }
  }
}
