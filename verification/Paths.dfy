/**
 What the program takes from its languages' string libraries: trimming, and splitting a text at a
 separator and joining it again. Dotted toggle paths, which the server and the SDKs both rely on, are
 split at the dot.
 */
module Paths {

  predicate Lacks(s: string, sep: char) {
    sep !in s
  }

  predicate NoneHas(parts: seq<string>, sep: char) {
    forall i | 0 <= i < |parts| :: Lacks(parts[i], sep)
  }

  /** Go's strings.Split and JavaScript's split, for a separator of one character. */
  function SplitAt(s: string, sep: char): (parts: seq<string>)
    ensures |parts| >= 1
    ensures NoneHas(parts, sep)
  {
    if s == "" then [""]
    else
      var rest := SplitAt(s[1..], sep);
      if s[0] == sep then [""] + rest
      else [[s[0]] + rest[0]] + rest[1..]
  }

  /** Go's strings.Join and JavaScript's join. */
  function JoinWith(parts: seq<string>, sep: char): string {
    if |parts| == 0 then ""
    else if |parts| == 1 then parts[0]
    else parts[0] + [sep] + JoinWith(parts[1..], sep)
  }

  // ---------- trimming ----------

  /** Go's unicode.IsSpace. */
  predicate IsSpace(c: char) {
    || '\t' <= c <= '\r' || c == ' ' || c == '\U{0085}' || c == '\U{00A0}' || c == '\U{1680}'
    || '\U{2000}' <= c <= '\U{200A}' || c == '\U{2028}' || c == '\U{2029}' || c == '\U{202F}'
    || c == '\U{205F}' || c == '\U{3000}'
  }

  function TrimSpaceLeft(s: string): string {
    if s != "" && IsSpace(s[0]) then TrimSpaceLeft(s[1..]) else s
  }

  function TrimSpaceRight(s: string): string {
    if s != "" && IsSpace(s[|s| - 1]) then TrimSpaceRight(s[..|s| - 1]) else s
  }

  function TrimSpace(s: string): string {
    TrimSpaceRight(TrimSpaceLeft(s))
  }

  // ---------- toggle paths ----------

  predicate NoDot(s: string) {
    Lacks(s, '.')
  }

  predicate NoDots(parts: seq<string>) {
    NoneHas(parts, '.')
  }

  function Split(s: string): (parts: seq<string>)
    ensures |parts| >= 1
    ensures NoDots(parts)
  {
    SplitAt(s, '.')
  }

  function Join(parts: seq<string>): string {
    JoinWith(parts, '.')
  }

  // ---------- what trimming and splitting promise ----------

  lemma {:induction false} TrimsToNothing(s: string)
    ensures TrimSpaceLeft(s) == "" <==> forall k | 0 <= k < |s| :: IsSpace(s[k])
    ensures TrimSpaceLeft(s) != "" ==> !IsSpace(TrimSpaceLeft(s)[0])
  {
    if s != "" && IsSpace(s[0]) {
      TrimsToNothing(s[1..]);
      assert forall k | 1 <= k < |s| :: s[k] == s[1..][k - 1];
    }
  }

  lemma {:induction false} KeepsFirst(s: string)
    requires s != "" && !IsSpace(s[0])
    ensures TrimSpaceRight(s) != "" && TrimSpaceRight(s)[0] == s[0]
  {
    if IsSpace(s[|s| - 1]) {
      KeepsFirst(s[..|s| - 1]);
    }
  }

  lemma TrimSpaceIsEmptyIff(s: string)
    ensures TrimSpace(s) == "" <==> forall k | 0 <= k < |s| :: IsSpace(s[k])
  {
    TrimsToNothing(s);
    if TrimSpaceLeft(s) != "" {
      KeepsFirst(TrimSpaceLeft(s));
    }
  }

  predicate Spaces(s: string) {
    forall k | 0 <= k < |s| :: IsSpace(s[k])
  }

  /** Nothing is left to trim. */
  predicate Trimmed(s: string) {
    s != "" ==> !IsSpace(s[0]) && !IsSpace(s[|s| - 1])
  }

  lemma {:induction false} LeftSpacesGo(a: string, s: string)
    requires Spaces(a) && (s != "" ==> !IsSpace(s[0]))
    ensures TrimSpaceLeft(a + s) == s
  {
    if a == "" {
      assert a + s == s;
    } else {
      assert (a + s)[1..] == a[1..] + s;
      LeftSpacesGo(a[1..], s);
    }
  }

  lemma {:induction false} RightSpacesGo(s: string, b: string)
    requires Spaces(b) && (s != "" ==> !IsSpace(s[|s| - 1]))
    ensures TrimSpaceRight(s + b) == s
  {
    if b == "" {
      assert s + b == s;
    } else {
      assert (s + b)[..|s + b| - 1] == s + b[..|b| - 1];
      RightSpacesGo(s, b[..|b| - 1]);
    }
  }

  /** Trimming takes off the spaces at both ends and nothing else. */
  lemma TrimsTo(a: string, s: string, b: string)
    requires Spaces(a) && Spaces(b) && Trimmed(s)
    ensures TrimSpace(a + s + b) == s
  {
    if s == "" {
      assert a + s + b == (a + b) + "";
      LeftSpacesGo(a + b, "");
    } else {
      assert a + s + b == a + (s + b);
      LeftSpacesGo(a, s + b);
      RightSpacesGo(s, b);
    }
  }

  /** The characters that count as space, one by one. */
  lemma SpaceIff(c: char)
    ensures IsSpace(c) <==>
      c as int in {0x09, 0x0A, 0x0B, 0x0C, 0x0D, 0x20, 0x85, 0xA0, 0x1680, 0x2000, 0x2001, 0x2002, 0x2003, 0x2004,
                   0x2005, 0x2006, 0x2007, 0x2008, 0x2009, 0x200A, 0x2028, 0x2029, 0x202F, 0x205F, 0x3000}
  {
  }

  // ---------- round trips ----------

  lemma {:induction false} JoinCons(head: string, parts: seq<string>, sep: char)
    requires |parts| >= 1
    ensures JoinWith([head] + parts, sep) == head + [sep] + JoinWith(parts, sep)
  {
    assert ([head] + parts)[1..] == parts;
  }

  lemma {:induction false} JoinGrow(c: char, parts: seq<string>, sep: char)
    requires |parts| >= 1
    ensures JoinWith([[c] + parts[0]] + parts[1..], sep) == [c] + JoinWith(parts, sep)
  {
    if |parts| == 1 {
    } else {
      JoinCons([c] + parts[0], parts[1..], sep);
    }
  }

  lemma {:induction false} JoinSplitAt(s: string, sep: char)
    ensures JoinWith(SplitAt(s, sep), sep) == s
  {
    if s != "" {
      var rest := SplitAt(s[1..], sep);
      JoinSplitAt(s[1..], sep);
      assert s == [s[0]] + s[1..];
      if s[0] == sep {
        JoinCons("", rest, sep);
      } else {
        JoinGrow(s[0], rest, sep);
      }
    }
  }

  lemma {:induction false} SplitSegmentAt(seg: string, sep: char)
    requires Lacks(seg, sep)
    ensures SplitAt(seg, sep) == [seg]
  {
    if seg != "" {
      assert seg[0] in seg;
      assert forall c | c in seg[1..] :: c in seg;
      SplitSegmentAt(seg[1..], sep);
      assert [seg[0]] + seg[1..] == seg;
    }
  }

  lemma SplitCons(c: char, s: string, sep: char)
    ensures SplitAt([c] + s, sep) ==
      if c == sep then [""] + SplitAt(s, sep) else [[c] + SplitAt(s, sep)[0]] + SplitAt(s, sep)[1..]
  {
    assert ([c] + s)[1..] == s;
  }

  /** Splitting works piece by piece. */
  lemma {:induction false} SplitAppendAt(s: string, t: string, sep: char)
    ensures SplitAt(s + [sep] + t, sep) == SplitAt(s, sep) + SplitAt(t, sep)
  {
    if s == "" {
      assert s + [sep] + t == [sep] + t;
      SplitCons(sep, t, sep);
    } else {
      var c, rest := s[0], s[1..];
      assert s == [c] + rest && s + [sep] + t == [c] + (rest + [sep] + t);
      SplitCons(c, rest, sep);
      SplitCons(c, rest + [sep] + t, sep);
      SplitAppendAt(rest, t, sep);
      PartsGrow(c, SplitAt(rest, sep), SplitAt(t, sep));
    }
  }

  lemma PartsGrow(c: char, parts: seq<string>, more: seq<string>)
    requires |parts| >= 1
    ensures [""] + (parts + more) == ([""] + parts) + more
    ensures [[c] + (parts + more)[0]] + (parts + more)[1..] == ([[c] + parts[0]] + parts[1..]) + more
  {
  }

  /** Appending the separator and a segment without it appends exactly one part. */
  lemma SplitSnocAt(s: string, seg: string, sep: char)
    requires Lacks(seg, sep)
    ensures SplitAt(s + [sep] + seg, sep) == SplitAt(s, sep) + [seg]
  {
    SplitAppendAt(s, seg, sep);
    SplitSegmentAt(seg, sep);
  }

  lemma {:induction false} JoinSnocWith(parts: seq<string>, seg: string, sep: char)
    requires |parts| >= 1
    ensures JoinWith(parts + [seg], sep) == JoinWith(parts, sep) + [sep] + seg
  {
    if |parts| == 1 {
      assert (parts + [seg])[1..] == [seg];
    } else {
      assert (parts + [seg])[1..] == parts[1..] + [seg];
      JoinSnocWith(parts[1..], seg, sep);
    }
  }

  /** Round trip: joining segments without the separator loses nothing. */
  lemma {:induction false} SplitJoinWith(parts: seq<string>, sep: char)
    requires |parts| >= 1 && NoneHas(parts, sep)
    ensures SplitAt(JoinWith(parts, sep), sep) == parts
  {
    if |parts| == 1 {
      SplitSegmentAt(parts[0], sep);
    } else {
      var n := |parts| - 1;
      assert parts == parts[..n] + [parts[n]];
      JoinSnocWith(parts[..n], parts[n], sep);
      SplitJoinWith(parts[..n], sep);
      SplitSnocAt(JoinWith(parts[..n], sep), parts[n], sep);
    }
  }

  lemma {:induction false} JoinAppend(a: seq<string>, b: seq<string>)
    requires |a| >= 1 && |b| >= 1
    ensures Join(a + b) == Join(a) + "." + Join(b)
  {
    if |a| == 1 {
      assert (a + b)[1..] == b;
    } else {
      assert (a + b)[1..] == a[1..] + b;
      JoinAppend(a[1..], b);
    }
  }

  lemma JoinSplit(s: string)
    ensures Join(Split(s)) == s
  {
    JoinSplitAt(s, '.');
  }

  lemma SplitSegment(seg: string)
    requires NoDot(seg)
    ensures Split(seg) == [seg]
  {
    SplitSegmentAt(seg, '.');
  }

  lemma SplitSnoc(s: string, seg: string)
    requires NoDot(seg)
    ensures Split(s + "." + seg) == Split(s) + [seg]
  {
    SplitSnocAt(s, seg, '.');
  }

  lemma JoinSnoc(parts: seq<string>, seg: string)
    requires |parts| >= 1
    ensures Join(parts + [seg]) == Join(parts) + "." + seg
  {
    JoinSnocWith(parts, seg, '.');
  }

  lemma SplitJoin(parts: seq<string>)
    requires |parts| >= 1 && NoDots(parts)
    ensures Split(Join(parts)) == parts
  {
    SplitJoinWith(parts, '.');
  }
}
