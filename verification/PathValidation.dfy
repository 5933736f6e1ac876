/**
 The check that the toggle endpoint runs on a path before it creates anything. The approval workflow
 executes creations without it.
 */
module PathValidation {
  import opened Paths

  const MAX_PATH_LENGTH := 1000

  /** What the check complains about, in the order in which it looks. */
  datatype PathError =
    | Required
    | TooLong
    | DotAtEnd
    | ConsecutiveDots
    | EmptySegment(segment: nat)
    | BadSegment(segment: nat)

  // ---------- what the check looks at ----------

  predicate IsNameChar(c: char) {
    'a' <= c <= 'z' || 'A' <= c <= 'Z' || '0' <= c <= '9' || c == '-' || c == '_'
  }

  predicate IsName(part: string) {
    part != "" && forall i | 0 <= i < |part| :: IsNameChar(part[i])
  }

  predicate DotsAt(s: string, i: nat) {
    i + 1 < |s| && s[i] == '.' && s[i + 1] == '.'
  }

  predicate HasConsecutiveDots(s: string) {
    exists i | 0 <= i < |s| :: DotsAt(s, i)
  }

  predicate AllNames(parts: seq<string>) {
    forall k | 0 <= k < |parts| :: IsName(parts[k])
  }

  /** The check accepts exactly the paths of at most a thousand characters whose segments are all names. */
  predicate Validated(path: string) {
    |path| <= MAX_PATH_LENGTH && AllNames(Split(path))
  }

  /** What each complaint is about. A blank path has one complaint; segments are counted from one. */
  predicate Deserves(path: string, e: PathError) {
    var parts := Split(path);
    if TrimSpace(path) == "" then e == Required
    else match e
      case Required => false
      case TooLong => |path| > 1000
      case DotAtEnd => path != "" && (path[0] == '.' || path[|path| - 1] == '.')
      case ConsecutiveDots => HasConsecutiveDots(path)
      case EmptySegment(k) => 1 <= k <= |parts| && TrimSpace(parts[k - 1]) == ""
      case BadSegment(k) => 1 <= k <= |parts| && TrimSpace(parts[k - 1]) != "" && !IsName(parts[k - 1])
  }

  /** Where a complaint stands in the list. */
  function Rank(e: PathError): nat {
    match e
    case Required => 0
    case TooLong => 1
    case DotAtEnd => 2
    case ConsecutiveDots => 3
    case EmptySegment(k) => 3 + k
    case BadSegment(k) => 3 + k
  }

  predicate InOrder(errors: seq<PathError>) {
    forall i, j | 0 <= i < j < |errors| :: Rank(errors[i]) < Rank(errors[j])
  }

  /** The complaints up to the `n`-th segment. */
  predicate DeservesUpTo(path: string, e: PathError, n: nat) {
    Deserves(path, e) && Rank(e) <= 3 + n
  }

  /** Small letters, capital letters, digits, hyphen and underscore, by their code points. */
  lemma NameCharIff(c: char)
    ensures IsNameChar(c) <==>
      0x61 <= c as int <= 0x7A || 0x41 <= c as int <= 0x5A || 0x30 <= c as int <= 0x39 || c as int in {0x2D, 0x5F}
  {
  }

  /** What the `i`-th segment, counted from zero, adds to the list. */
  ghost function Addition(path: string, i: nat): seq<PathError>
    requires i < |Split(path)|
  {
    var part := Split(path)[i];
    if TrimSpace(part) == "" then [EmptySegment(i + 1)] else if IsName(part) then [] else [BadSegment(i + 1)]
  }

  ghost predicate ListedUpTo(path: string, errors: seq<PathError>, n: nat) {
    InOrder(errors) && forall e :: e in errors <==> DeservesUpTo(path, e, n)
  }

  lemma AdditionIsListed(path: string, errors: seq<PathError>, i: nat)
    requires TrimSpace(path) != "" && i < |Split(path)| && ListedUpTo(path, errors, i)
    ensures ListedUpTo(path, errors + Addition(path, i), i + 1)
  {
    var more := errors + Addition(path, i);
    forall e
      ensures e in more <==> DeservesUpTo(path, e, i + 1)
    {
      assert e in more <==> e in errors || e in Addition(path, i);
    }
    assert forall e | e in errors :: Rank(e) <= 3 + i;
    forall j, k | 0 <= j < k < |more|
      ensures Rank(more[j]) < Rank(more[k])
    {
      if k >= |errors| {
        assert more[j] in errors;
      }
    }
  }

  lemma AllAreListed(path: string, errors: seq<PathError>)
    requires TrimSpace(path) != "" && ListedUpTo(path, errors, |Split(path)|)
    ensures forall e :: e in errors <==> Deserves(path, e)
  {
    forall e | Deserves(path, e)
      ensures Rank(e) <= 3 + |Split(path)|
    {
    }
  }

  /** The complaints about the path as a whole. */
  method WholePathErrors(path: string) returns (errors: seq<PathError>)
    requires TrimSpace(path) != "" && path != ""
    ensures ListedUpTo(path, errors, 0)
    ensures errors == [] <==> |path| <= MAX_PATH_LENGTH && !StrayDots(path)
  {
    errors := [];
    if |path| > MAX_PATH_LENGTH {
      errors := errors + [TooLong];
    }
    if path[0] == '.' || path[|path| - 1] == '.' {
      errors := errors + [DotAtEnd];
    }
    if HasConsecutiveDots(path) {
      errors := errors + [ConsecutiveDots];
    }
  }

  method ValidateTogglePath(path: string) returns (errors: seq<PathError>)
    ensures errors == [] <==> Validated(path)
    ensures forall e :: e in errors <==> Deserves(path, e)
    ensures InOrder(errors)
  {
    errors := [];
    if StrayDots(path) {
      StrayDotsAreRefused(path);
    }
    if TrimSpace(path) == "" {
      BlankPathHasNoNames(path);
      return [Required];
    }
    assert path != "" by {
      TrimSpaceIsEmptyIff(path);
    }
    errors := WholePathErrors(path);
    var parts := Split(path);
    for i := 0 to |parts|
      invariant errors == [] <==> |path| <= MAX_PATH_LENGTH && !StrayDots(path) && AllNames(parts[..i])
      invariant ListedUpTo(path, errors, i)
    {
      var part := parts[i];
      if IsName(part) {
        NamesAreNotBlank(part);
      }
      assert parts[..i + 1] == parts[..i] + [part];
      AllNamesSnoc(parts[..i], part);
      AdditionIsListed(path, errors, i);
      if TrimSpace(part) == "" {
        errors := errors + [EmptySegment(i + 1)];
        continue;
      }
      if !IsName(part) {
        errors := errors + [BadSegment(i + 1)];
      } else {
        assert errors + [] == errors;
      }
    }
    assert parts[..|parts|] == parts;
    AllAreListed(path, errors);
  }

  lemma AllNamesSnoc(parts: seq<string>, part: string)
    ensures AllNames(parts + [part]) <==> AllNames(parts) && IsName(part)
  {
    if AllNames(parts + [part]) {
      assert (parts + [part])[|parts|] == part;
      assert forall k | 0 <= k < |parts| :: (parts + [part])[k] == parts[k];
    }
  }

  // ---------- why the segments decide everything ----------

  lemma NamesAreNotBlank(part: string)
    requires IsName(part)
    ensures TrimSpace(part) != ""
  {
    TrimSpaceIsEmptyIff(part);
    assert IsNameChar(part[0]);
  }

  lemma BlankPathHasNoNames(path: string)
    requires TrimSpace(path) == ""
    ensures !AllNames(Split(path))
  {
    TrimSpaceIsEmptyIff(path);
    SplitSegment(path);
    assert Split(path)[0] == path;
    if path != "" {
      assert IsSpace(path[0]) && !IsNameChar(path[0]);
    }
  }

  predicate StrayDots(path: string) {
    path == "" || path[0] == '.' || path[|path| - 1] == '.' || HasConsecutiveDots(path)
  }

  lemma EmptySegmentIsNoName(path: string, k: nat)
    requires k < |Split(path)| && Split(path)[k] == ""
    ensures !AllNames(Split(path))
  {
  }

  /** Dots at an end or next to each other leave an empty segment. */
  lemma StrayDotsAreRefused(path: string)
    requires StrayDots(path)
    ensures !AllNames(Split(path))
  {
    if path == "" || path[0] == '.' {
      EmptySegmentIsNoName(path, 0);
    } else if path[|path| - 1] == '.' {
      var init := path[..|path| - 1];
      assert path == init + "." + "";
      SplitSnoc(init, "");
      EmptySegmentIsNoName(path, |Split(init)|);
    } else {
      var i :| 0 <= i < |path| && DotsAt(path, i);
      var before, after := path[..i], path[i + 1..];
      assert path == before + ['.'] + after;
      SplitAppendAt(before, after, '.');
      assert after[0] == '.' && Split(after)[0] == "";
      EmptySegmentIsNoName(path, |Split(before)|);
    }
  }
}
