/**
 The IPv6 form of matching an address against a network: on unbounded integers, from texts with "::" and
 with a dotted quad at the end. A text in which Node's isIP finds an address is cut into parts, and each
 part is read as hexadecimal digits up to the first character that is none.
 */
module Ipv6Cidr {
  import opened Wrappers
  import opened Paths
  import opened Powers
  import opened Cidr

  // ---------- which texts are addresses ----------

  predicate IsHexDigit(c: char) {
    IsDigit(c) || 'a' <= c <= 'f' || 'A' <= c <= 'F'
  }

  function HexDigit(c: char): nat
    requires IsHexDigit(c)
  {
    if IsDigit(c) then DigitValue(c)
    else if 'a' <= c <= 'f' then (c - 'a') as nat + 10
    else (c - 'A') as nat + 10
  }

  predicate IsGroup(part: string) {
    1 <= |part| <= 4 && forall i | 0 <= i < |part| :: IsHexDigit(part[i])
  }

  predicate AreGroups(parts: seq<string>) {
    forall i | 0 <= i < |parts| :: IsGroup(parts[i])
  }

  function Hex(part: string): nat
    requires forall i | 0 <= i < |part| :: IsHexDigit(part[i])
  {
    if part == "" then 0
    else 16 * Hex(part[..|part| - 1]) + HexDigit(part[|part| - 1])
  }

  /** The text cut at each "::", left to right. */
  function SplitAtPairs(s: string): (pieces: seq<string>)
    ensures |pieces| >= 1
  {
    if |s| < 2 then [s]
    else if s[0] == ':' && s[1] == ':' then [""] + SplitAtPairs(s[2..])
    else
      var rest := SplitAtPairs(s[1..]);
      [[s[0]] + rest[0]] + rest[1..]
  }

  function PartsOf(piece: string): seq<string> {
    if piece == "" then [] else SplitAt(piece, ':')
  }

  predicate NoLeadingZero(octet: string) {
    |octet| == 1 || (octet != "" && octet[0] != '0')
  }

  /** The dotted quad that may stand for the last two groups. */
  predicate IsTail(part: string) {
    IsQuad(part) && forall i | 0 <= i < 4 :: NoLeadingZero(Split(part)[i])
  }

  predicate EndsInQuad(parts: seq<string>) {
    parts != [] && IsTail(parts[|parts| - 1])
  }

  /** The parts that are single groups. */
  function Heads(parts: seq<string>): seq<string> {
    if EndsInQuad(parts) then parts[..|parts| - 1] else parts
  }

  /** How many groups the parts stand for. */
  function Span(parts: seq<string>): nat {
    |parts| + if EndsInQuad(parts) then 1 else 0
  }

  /** Groups and possibly a final quad, for eight groups in all, or for fewer around one "::". */
  predicate IsIpv6(value: string) {
    var pieces := SplitAtPairs(value);
    if |pieces| == 1 then
      var parts := PartsOf(pieces[0]);
      AreGroups(Heads(parts)) && Span(parts) == 8
    else
      && |pieces| == 2
      && AreGroups(PartsOf(pieces[0])) && AreGroups(Heads(PartsOf(pieces[1])))
      && |PartsOf(pieces[0])| + Span(PartsOf(pieces[1])) <= 7
  }

  // ---------- the parser ----------

  /** The digits that JavaScript's parseInt(part, 16) uses. */
  function HexHead(part: string): (head: string)
    ensures head <= part && forall i | 0 <= i < |head| :: IsHexDigit(head[i])
  {
    if part != "" && IsHexDigit(part[0]) then [part[0]] + HexHead(part[1..]) else ""
  }

  function ReadPart(part: string): nat {
    Hex(HexHead(part))
  }

  function Zeros(n: nat): (z: seq<string>)
    ensures |z| == n && forall i | 0 <= i < n :: z[i] == "0"
  {
    seq(n, _ => "0")
  }

  function Left(value: string): seq<string> {
    PartsOf(SplitAtPairs(value)[0])
  }

  function Right(value: string): seq<string> {
    var pieces := SplitAtPairs(value);
    if |pieces| > 1 then PartsOf(pieces[1]) else []
  }

  /** The parser counts parts, not groups. */
  function Parts(value: string): (parts: seq<string>)
    requires IsIpv6(value)
    ensures |parts| == 8
  {
    Left(value) + Zeros(8 - |Left(value)| - |Right(value)|) + Right(value)
  }

  function ReduceParts(parts: seq<string>, acc: nat): nat {
    if parts == [] then acc else ReduceParts(parts[1..], Or(Shl(acc, 16), ReadPart(parts[0])))
  }

  function ParseIpv6(value: Option<string>): Option<nat> {
    if value.Some? && value.value != "" && IsIpv6(value.value) then Some(ReduceParts(Parts(value.value), 0)) else None
  }

  // ---------- the matcher; a prefix that is not an integer is `None` ----------

  function Ipv6Mask(prefix: nat): nat
    requires prefix <= 128
  {
    if prefix == 0 then 0 else Shl(Shl(1, prefix) - 1, 128 - prefix)
  }

  predicate MatchesIpv6Cidr(address: string, network: Option<string>, prefix: Option<int>) {
    var candidate := ParseIpv6(Some(address));
    var base := ParseIpv6(network);
    if candidate.None? || base.None? || prefix.None? || prefix.value < 0 || prefix.value > 128 then false
    else
      And(candidate.value, Ipv6Mask(prefix.value)) == And(base.value, Ipv6Mask(prefix.value))
  }

  // ---------- digits, told another way ----------

  const LOWER := "0123456789abcdef"
  const UPPER := "0123456789ABCDEF"

  lemma HexDigitIff(c: char)
    ensures IsHexDigit(c) <==> c in LOWER || c in UPPER
    ensures IsHexDigit(c) ==> LOWER[HexDigit(c)] == c || UPPER[HexDigit(c)] == c
  {
    if IsHexDigit(c) {
      assert LOWER[HexDigit(c)] == c || UPPER[HexDigit(c)] == c;
    }
  }

  /** A number as it is written with these sixteen digits. */
  function WrittenHex(n: nat, digits: string): string
    requires |digits| == 16
  {
    if n < 16 then [digits[n]] else WrittenHex(n / 16, digits) + [digits[n % 16]]
  }

  /** Sixteen characters, each read as its place among them. */
  predicate AreDigits(digits: string) {
    |digits| == 16 && forall d | 0 <= d < 16 :: IsHexDigit(digits[d]) && HexDigit(digits[d]) == d
  }

  lemma BothAreDigits()
    ensures AreDigits(LOWER) && AreDigits(UPPER)
  {
  }

  lemma HexSnoc(s: string, c: char)
    requires IsHexDigit(c) && forall i | 0 <= i < |s| :: IsHexDigit(s[i])
    ensures forall i | 0 <= i < |s + [c]| :: IsHexDigit((s + [c])[i])
    ensures Hex(s + [c]) == 16 * Hex(s) + HexDigit(c)
  {
    assert (s + [c])[..|s|] == s;
  }

  /** Reading undoes writing, in capital letters as in small ones. */
  lemma {:induction false} HexOfWritten(n: nat, digits: string)
    requires AreDigits(digits)
    ensures forall i | 0 <= i < |WrittenHex(n, digits)| :: IsHexDigit(WrittenHex(n, digits)[i])
    ensures Hex(WrittenHex(n, digits)) == n
  {
    if n >= 16 {
      HexOfWritten(n / 16, digits);
      HexSnoc(WrittenHex(n / 16, digits), digits[n % 16]);
    } else {
      HexSnoc("", digits[n]);
      assert "" + [digits[n]] == [digits[n]];
    }
  }

  // ---------- the addresses that are matched ----------

  predicate IsIp(value: string) {
    IsTail(value) || IsIpv6(value)
  }

  /** The peer of a connection, without the prefix of an IPv4 address that is mapped into IPv6. */
  function NormalizeAddress(value: Option<string>): Option<string> {
    if value.None? || value.value == "" then None
    else
      var normalized := if "::ffff:" <= value.value then value.value[7..] else value.value;
      if IsIp(normalized) then Some(normalized) else None
  }

  /** An address that arrives at the matcher as it is. */
  predicate Arrives(address: string) {
    NormalizeAddress(Some(address)) == Some(address)
  }

  /** What becomes of a peer's address: the mapped form loses its prefix, and a text that is none is dropped. */
  lemma NormalizedIff(value: string, mapped: string)
    ensures NormalizeAddress(None) == None
    ensures NormalizeAddress(Some("::ffff:" + mapped)) == if IsIp(mapped) then Some(mapped) else None
    ensures !("::ffff:" <= value) ==>
      NormalizeAddress(Some(value)) == if value != "" && IsIp(value) then Some(value) else None
  {
    assert ("::ffff:" + mapped)[7..] == mapped;
  }

  // ---------- what the parser reads and what the text denotes ----------

  function GroupBits(groups: seq<nat>): (bits: seq<bool>)
    ensures |bits| == 16 * |groups|
  {
    if groups == [] then [] else Bits(groups[0], 16) + GroupBits(groups[1..])
  }

  function ReadAll(parts: seq<string>): (groups: seq<nat>)
    ensures |groups| == |parts|
  {
    seq(|parts|, i requires 0 <= i < |parts| => ReadPart(parts[i]))
  }

  /** The eight groups as the parser reads them. */
  function ReadGroups(text: string): (groups: seq<nat>)
    requires IsIpv6(text)
    ensures |groups| == 8
  {
    ReadAll(Parts(text))
  }

  function Values(groups: seq<string>): (values: seq<nat>)
    requires AreGroups(groups)
    ensures |values| == |groups|
  {
    seq(|groups|, i requires 0 <= i < |groups| => Hex(groups[i]))
  }

  /** A quad stands for two groups of two octets each (section 2.2 of RFC 4291). */
  function QuadValues(quad: string): (values: seq<nat>)
    requires IsTail(quad)
    ensures |values| == 2
  {
    var o := Split(quad);
    [256 * Decimal(o[0]) + Decimal(o[1]), 256 * Decimal(o[2]) + Decimal(o[3])]
  }

  function Denoted(parts: seq<string>): (groups: seq<nat>)
    requires AreGroups(Heads(parts))
    ensures |groups| == Span(parts)
  {
    Values(Heads(parts)) + if EndsInQuad(parts) then QuadValues(parts[|parts| - 1]) else []
  }

  /** The eight groups that the text denotes (section 2.2 of RFC 4291). */
  function DenotedGroups(text: string): (groups: seq<nat>)
    requires IsIpv6(text)
    ensures |groups| == 8
  {
    if |SplitAtPairs(text)| == 1 then Denoted(Left(text))
    else Values(Left(text)) + NoGroups(8 - |Left(text)| - Span(Right(text))) + Denoted(Right(text))
  }

  function NoGroups(n: nat): (z: seq<nat>)
    ensures |z| == n && forall i | 0 <= i < n :: z[i] == 0
  {
    seq(n, _ => 0)
  }

  function ReadBits(text: string): (bits: seq<bool>)
    requires IsIpv6(text)
    ensures |bits| == 128
  {
    GroupBits(ReadGroups(text))
  }

  function Ipv6Bits(text: string): (bits: seq<bool>)
    requires IsIpv6(text)
    ensures |bits| == 128
  {
    GroupBits(DenotedGroups(text))
  }

  // ---------- every part that is read fits into sixteen bits ----------

  lemma {:induction false} HexBound(part: string)
    requires forall i | 0 <= i < |part| :: IsHexDigit(part[i])
    ensures Hex(part) < Pow2(4 * |part|)
  {
    if part != "" {
      var last := |part| - 1;
      HexBound(part[..last]);
      PowSum(4 * last, 4);
      assert Pow2(4) == 16;
    }
  }

  lemma {:induction false} HeadOfHex(part: string)
    requires forall i | 0 <= i < |part| :: IsHexDigit(part[i])
    ensures HexHead(part) == part
  {
    if part != "" {
      HeadOfHex(part[1..]);
    }
  }

  lemma GroupIsReadWhole(part: string)
    requires IsGroup(part)
    ensures ReadPart(part) == Hex(part) < Pow2(16)
  {
    HeadOfHex(part);
    HexBound(part);
    PowGrows(4 * |part|, 16);
  }

  lemma {:induction false} LeadingDigit(octet: string)
    requires IsDigits(octet) && octet[0] != '0'
    ensures Decimal(octet) >= 1
    ensures |octet| >= 2 ==> Decimal(octet) >= 10
    ensures |octet| >= 3 ==> Decimal(octet) >= 100
    ensures |octet| >= 4 ==> Decimal(octet) >= 1000
  {
    if |octet| > 1 {
      LeadingDigit(octet[..|octet| - 1]);
    }
  }

  lemma {:induction false} HeadUpToDot(octet: string, rest: string)
    requires forall i | 0 <= i < |octet| :: IsHexDigit(octet[i])
    ensures HexHead(octet + "." + rest) == octet
  {
    if octet == "" {
      assert (octet + "." + rest)[0] == '.';
    } else {
      assert (octet + "." + rest)[1..] == octet[1..] + "." + rest;
      HeadUpToDot(octet[1..], rest);
    }
  }

  /** Of a quad, only the first octet is read. */
  lemma QuadIsReadShort(quad: string)
    requires IsTail(quad)
    ensures HexHead(quad) == Split(quad)[0] && |Split(quad)[0]| <= 3 && ReadPart(quad) < Pow2(16)
  {
    var o := Split(quad);
    JoinSplit(quad);
    assert IsOctet(o[0]) && NoLeadingZero(o[0]);
    assert quad == o[0] + "." + Join(o[1..]);
    HeadUpToDot(o[0], Join(o[1..]));
    if |o[0]| > 1 {
      LeadingDigit(o[0]);
    }
    HexBound(o[0]);
    PowGrows(4 * |o[0]|, 16);
  }

  lemma PartsFit(text: string)
    requires IsIpv6(text)
    ensures forall i | 0 <= i < 8 :: ReadPart(Parts(text)[i]) < Pow2(16)
  {
    forall i | 0 <= i < 8
      ensures ReadPart(Parts(text)[i]) < Pow2(16)
    {
      var part := Parts(text)[i];
      if IsTail(part) {
        QuadIsReadShort(part);
      } else {
        assert IsGroup(part) by {
          PartIsGroup(text, i);
        }
        GroupIsReadWhole(part);
      }
    }
  }

  lemma PartIsGroup(text: string, i: nat)
    requires IsIpv6(text) && i < 8
    ensures IsTail(Parts(text)[i]) || IsGroup(Parts(text)[i])
  {
    var l, r := Left(text), Right(text);
    var zeros := 8 - |l| - |r|;
    if i < |l| {
      GroupOrQuad(l, i);
    } else if i >= |l| + zeros {
      GroupOrQuad(r, i - |l| - zeros);
    } else {
      assert IsGroup("0");
    }
  }

  lemma GroupOrQuad(parts: seq<string>, i: nat)
    requires AreGroups(Heads(parts)) && i < |parts|
    ensures IsTail(parts[i]) || IsGroup(parts[i])
  {
    if i < |Heads(parts)| {
      assert Heads(parts)[i] == parts[i];
    }
  }

  // ---------- the matcher compares the bits that are read ----------

  lemma ReadAllCons(parts: seq<string>, bits: seq<bool>)
    requires parts != []
    ensures bits + GroupBits(ReadAll(parts))
         == (bits + Bits(ReadPart(parts[0]), 16)) + GroupBits(ReadAll(parts[1..]))
  {
    assert ReadAll(parts)[1..] == ReadAll(parts[1..]);
  }

  /** The reduction concatenates the groups' bits. */
  lemma {:induction false} ReducedParts(parts: seq<string>, acc: nat, bits: seq<bool>)
    requires Encodes(acc, bits) && forall i | 0 <= i < |parts| :: ReadPart(parts[i]) < Pow2(16)
    ensures Encodes(ReduceParts(parts, acc), bits + GroupBits(ReadAll(parts)))
  {
    if parts == [] {
      assert bits + GroupBits(ReadAll(parts)) == bits;
    } else {
      var value := ReadPart(parts[0]);
      ShiftAppends(acc, bits, value, 16);
      assert forall i | 0 <= i < |parts[1..]| :: parts[1..][i] == parts[i + 1];
      ReducedParts(parts[1..], Or(Shl(acc, 16), value), bits + Bits(value, 16));
      ReadAllCons(parts, bits);
    }
  }

  lemma ParsedIpv6(text: string)
    ensures ParseIpv6(Some(text)).Some? <==> IsIpv6(text)
    ensures IsIpv6(text) ==> Encodes(ParseIpv6(Some(text)).value, ReadBits(text))
  {
    if IsIpv6(text) {
      PartsFit(text);
      ReducedParts(Parts(text), 0, []);
      assert [] + ReadBits(text) == ReadBits(text);
    }
  }

  lemma Ipv6MaskForm(prefix: nat)
    requires prefix <= 128
    ensures Ipv6Mask(prefix) == Mask(128, prefix)
  {
    MaskForm(128, prefix);
    if prefix == 0 {
      ShlForm(0, 128 - prefix);
    }
  }

  lemma Ipv6Agree(address: string, network: string, prefix: nat)
    requires IsIpv6(address) && IsIpv6(network) && prefix <= 128
    ensures MatchesIpv6Cidr(address, Some(network), Some(prefix))
       <==> ReadBits(address)[..prefix] == ReadBits(network)[..prefix]
  {
    MaskedAgree(address, network, prefix);
    ParsedIpv6(address);
    ParsedIpv6(network);
  }

  lemma MaskedAgree(address: string, network: string, prefix: nat)
    requires IsIpv6(address) && IsIpv6(network) && prefix <= 128
    ensures ParseIpv6(Some(address)).Some? && ParseIpv6(Some(network)).Some?
    ensures var x, y := ParseIpv6(Some(address)).value, ParseIpv6(Some(network)).value;
      And(x, Ipv6Mask(prefix)) == And(y, Ipv6Mask(prefix))
      <==> ReadBits(address)[..prefix] == ReadBits(network)[..prefix]
  {
    ParsedIpv6(address);
    ParsedIpv6(network);
    Ipv6MaskForm(prefix);
    var x, y := ParseIpv6(Some(address)).value, ParseIpv6(Some(network)).value;
    MaskedMatch(x, ReadBits(address), y, ReadBits(network), prefix);
  }

  /** The IPv6 form holds exactly when both texts are addresses whose first `prefix` bits, as read, agree. */
  lemma Ipv6MatchIff(address: string, network: Option<string>, prefix: Option<int>)
    ensures MatchesIpv6Cidr(address, network, prefix) <==>
      && IsIpv6(address) && network.Some? && IsIpv6(network.value)
      && prefix.Some? && 0 <= prefix.value <= 128
      && ReadBits(address)[..prefix.value] == ReadBits(network.value)[..prefix.value]
  {
    if IsIpv6(address) && network.Some? && IsIpv6(network.value) && prefix.Some? && 0 <= prefix.value <= 128 {
      Ipv6Agree(address, network.value, prefix.value);
    }
  }

  /** A match on a longer prefix is a match on every shorter one. */
  lemma ShorterPrefixMatches(address: string, network: Option<string>, p: nat, q: nat)
    requires q <= p
    ensures MatchesIpv4Cidr(address, network, Some(p)) ==> MatchesIpv4Cidr(address, network, Some(q))
    ensures MatchesIpv6Cidr(address, network, Some(p)) ==> MatchesIpv6Cidr(address, network, Some(q))
  {
    Ipv4MatchIff(address, network, Some(p));
    Ipv4MatchIff(address, network, Some(q));
    Ipv6MatchIff(address, network, Some(p));
    Ipv6MatchIff(address, network, Some(q));
    if MatchesIpv4Cidr(address, network, Some(p)) {
      PrefixOfPrefix(Ipv4Bits(address), Ipv4Bits(network.value), p, q);
    }
    if MatchesIpv6Cidr(address, network, Some(p)) {
      PrefixOfPrefix(ReadBits(address), ReadBits(network.value), p, q);
    }
  }

  // ---------- when the parser reads what the text denotes ----------

  /** The parts after "::", or all of them without one. */
  function LastParts(text: string): seq<string> {
    if |SplitAtPairs(text)| == 1 then Left(text) else Right(text)
  }

  predicate QuadIsZero(quad: string)
    requires IsTail(quad)
  {
    forall i | 0 <= i < 4 :: Decimal(Split(quad)[i]) == 0
  }

  predicate AllZero(groups: seq<nat>) {
    forall i | 0 <= i < |groups| :: groups[i] == 0
  }

  /** No quad, or a quad of zeros that follows nothing but zeros after "::". */
  predicate QuadIsHarmless(text: string)
    requires IsIpv6(text)
  {
    var parts := LastParts(text);
    EndsInQuad(parts) ==>
      QuadIsZero(parts[|parts| - 1]) && (|SplitAtPairs(text)| == 2 ==> AllZero(Values(Heads(parts))))
  }

  lemma GroupsAreReadWhole(groups: seq<string>)
    requires AreGroups(groups)
    ensures ReadAll(groups) == Values(groups)
  {
    forall i | 0 <= i < |groups|
      ensures ReadPart(groups[i]) == Hex(groups[i])
    {
      assert IsGroup(groups[i]);
      GroupIsReadWhole(groups[i]);
    }
  }

  lemma ReadAllAppend(a: seq<string>, b: seq<string>)
    ensures ReadAll(a + b) == ReadAll(a) + ReadAll(b)
  {
  }

  lemma ZerosAreRead(n: nat)
    ensures ReadAll(Zeros(n)) == NoGroups(n)
  {
    assert IsGroup("0") && "0"[..0] == "";
    GroupIsReadWhole("0");
    assert Hex("0") == 0;
  }

  lemma NoLeadingZeroMeansSmall(octet: string, low: nat)
    requires IsOctet(octet) && NoLeadingZero(octet) && low < 256
    ensures forall i | 0 <= i < |octet| :: IsHexDigit(octet[i])
    ensures Decimal(octet) == 0 ==> Hex(octet) == 0
    ensures Hex(octet) == 256 * Decimal(octet) + low ==> Decimal(octet) == 0 && low == 0
  {
    if |octet| == 1 {
      assert octet[..0] == "";
      assert Hex(octet) == Decimal(octet) <= 9;
    } else {
      LeadingDigit(octet);
      HexBound(octet);
      assert |octet| <= 3;
      SmallPowers();
      PowGrows(4 * |octet|, if |octet| == 2 then 8 else 12);
    }
  }

  lemma SmallPowers()
    ensures Pow2(8) == 256 && Pow2(12) == 4096
  {
    assert Pow2(4) == 16;
    PowSum(4, 4);
    PowSum(8, 4);
  }

  /** A quad is read as its upper group only if both are zero. */
  lemma UpperGroupIff(quad: string)
    requires IsTail(quad)
    ensures ReadPart(quad) == QuadValues(quad)[0] <==> QuadValues(quad)[0] == 0
    ensures QuadValues(quad)[0] == 0 ==> ReadPart(quad) == 0
  {
    var o := Split(quad);
    QuadIsReadShort(quad);
    assert IsOctet(o[0]) && NoLeadingZero(o[0]) && IsOctet(o[1]) && IsOctet(o[2]) && IsOctet(o[3]);
    NoLeadingZeroMeansSmall(o[0], Decimal(o[1]));
  }

  lemma QuadIsZeroIff(quad: string)
    requires IsTail(quad)
    ensures QuadIsZero(quad) <==> QuadValues(quad) == [0, 0]
  {
    var o := Split(quad);
    assert IsOctet(o[0]) && IsOctet(o[1]) && IsOctet(o[2]) && IsOctet(o[3]);
  }

  /** Two sequences that are one step apart agree only if there is nothing in them to shift. */
  lemma ShiftedAgreeIff(v: seq<nat>, read: nat, high: nat, low: nat)
    ensures [0] + v + [read] == v + [high, low] <==> AllZero(v) && high == 0 && read == low
  {
    var a, b := [0] + v + [read], v + [high, low];
    if a == b {
      ShiftedZeros(v, read, high, low, |v|);
      assert a[|v|] == b[|v|] && a[|v| + 1] == b[|v| + 1];
      assert b[|v|] == high && b[|v| + 1] == low && a[|v| + 1] == read;
      assert a[|v|] == (if |v| == 0 then 0 else v[|v| - 1]);
    }
  }

  lemma {:induction false} ShiftedZeros(v: seq<nat>, read: nat, high: nat, low: nat, n: nat)
    requires n <= |v| && [0] + v + [read] == v + [high, low]
    ensures forall i | 0 <= i < n :: v[i] == 0
  {
    if n > 0 {
      ShiftedZeros(v, read, high, low, n - 1);
      var a, b := [0] + v + [read], v + [high, low];
      assert a[n - 1] == b[n - 1] && b[n - 1] == v[n - 1];
      assert a[n - 1] == if n == 1 then 0 else v[n - 2];
    }
  }

  /** Without "::", a final quad makes the parser one group short, and it adds the missing one at the end. */
  lemma FullFormReadIff(text: string)
    requires IsIpv6(text) && |SplitAtPairs(text)| == 1
    ensures ReadGroups(text) == DenotedGroups(text) <==> QuadIsHarmless(text)
  {
    var parts := Left(text);
    var heads := Heads(parts);
    GroupsAreReadWhole(heads);
    if EndsInQuad(parts) {
      var quad := parts[|parts| - 1];
      assert parts == heads + [quad];
      ReadAllAppend(heads, [quad]);
      ReadAllAppend(parts, Zeros(1));
      ZerosAreRead(1);
      assert Parts(text) == parts + Zeros(1);
      assert ReadGroups(text) == Values(heads) + [ReadPart(quad), 0];
      UpperGroupIff(quad);
      QuadIsZeroIff(quad);
      SamePrefixIff(Values(heads), [ReadPart(quad), 0], QuadValues(quad));
      assert [ReadPart(quad), 0] == QuadValues(quad) <==> QuadIsZero(quad);
    } else {
      assert Parts(text) == parts;
      assert Denoted(parts) == Values(parts);
    }
  }

  lemma SamePrefixIff(s: seq<nat>, a: seq<nat>, b: seq<nat>)
    requires |a| == |b|
    ensures s + a == s + b <==> a == b
  {
    assert (s + a)[|s|..] == a && (s + b)[|s|..] == b;
  }

  lemma ShortRead(text: string)
    requires IsIpv6(text) && |SplitAtPairs(text)| == 2
    ensures ReadGroups(text) == Values(Left(text)) + NoGroups(8 - |Left(text)| - |Right(text)|) + ReadAll(Right(text))
  {
    var left, right := Left(text), Right(text);
    var zeros := 8 - |left| - |right|;
    GroupsAreReadWhole(left);
    ReadAllAppend(left, Zeros(zeros));
    ReadAllAppend(left + Zeros(zeros), right);
    ZerosAreRead(zeros);
  }

  lemma QuadIsReadLast(parts: seq<string>)
    requires AreGroups(Heads(parts)) && EndsInQuad(parts)
    ensures ReadAll(parts) == Values(Heads(parts)) + [ReadPart(parts[|parts| - 1])]
  {
    var quad := parts[|parts| - 1];
    assert parts == Heads(parts) + [quad];
    ReadAllAppend(Heads(parts), [quad]);
    GroupsAreReadWhole(Heads(parts));
  }

  lemma OneZeroMore(same: seq<nat>, n: nat, rest: seq<nat>)
    requires n >= 1
    ensures same + NoGroups(n) + rest == (same + NoGroups(n - 1)) + ([0] + rest)
  {
    assert NoGroups(n) == NoGroups(n - 1) + [0];
  }

  /** With "::", a final quad makes the parser fill in one zero too many, before the parts that follow. */
  lemma ShortFormReadIff(text: string)
    requires IsIpv6(text) && |SplitAtPairs(text)| == 2
    ensures ReadGroups(text) == DenotedGroups(text) <==> QuadIsHarmless(text)
  {
    var left, right := Left(text), Right(text);
    ShortRead(text);
    if EndsInQuad(right) {
      ShortQuadIff(ReadGroups(text), DenotedGroups(text), Values(left), right, 8 - |left| - |right|);
    } else {
      GroupsAreReadWhole(right);
      assert Denoted(right) == Values(right);
    }
  }

  /** One of the zeros goes to the groups that follow. */
  lemma ShiftedZero(front: seq<nat>, n: nat, values: seq<nat>, read: nat)
    requires n >= 1
    ensures front + NoGroups(n) + (values + [read]) == (front + NoGroups(n - 1)) + ([0] + values + [read])
  {
    OneZeroMore(front, n, values + [read]);
    assert [0] + (values + [read]) == [0] + values + [read];
  }

  /** What is read and what is denoted, after `n` zeros and after `n - 1`, if a quad comes last. */
  lemma ShortQuadIff(read: seq<nat>, denoted: seq<nat>, front: seq<nat>, right: seq<string>, n: nat)
    requires AreGroups(Heads(right)) && EndsInQuad(right) && n >= 1
    requires read == front + NoGroups(n) + ReadAll(right) && denoted == front + NoGroups(n - 1) + Denoted(right)
    ensures read == denoted <==> AllZero(Values(Heads(right))) && QuadIsZero(right[|right| - 1])
  {
    var values, quad := Values(Heads(right)), right[|right| - 1];
    QuadIsReadLast(right);
    ShiftedZero(front, n, values, ReadPart(quad));
    SamePrefixIff(front + NoGroups(n - 1), [0] + values + [ReadPart(quad)], values + QuadValues(quad));
    ShortQuadAgreeIff(values, quad);
  }

  lemma ShortQuadAgreeIff(values: seq<nat>, quad: string)
    requires IsTail(quad)
    ensures [0] + values + [ReadPart(quad)] == values + QuadValues(quad) <==> AllZero(values) && QuadIsZero(quad)
  {
    var q := QuadValues(quad);
    assert q == [q[0], q[1]];
    UpperGroupIff(quad);
    QuadIsZeroIff(quad);
    ShiftedAgreeIff(values, ReadPart(quad), q[0], q[1]);
  }

  /**
   The exact condition: the parser reads the eight groups that the text denotes if and only if the text
   has no dotted quad, or one of zeros only that follows nothing but zeros.
   */
  lemma ReadsRightIff(text: string)
    requires IsIpv6(text)
    ensures ReadGroups(text) == DenotedGroups(text) <==> QuadIsHarmless(text)
  {
    if |SplitAtPairs(text)| == 1 {
      FullFormReadIff(text);
    } else {
      ShortFormReadIff(text);
    }
  }

  /** Matching a prefix says what the denoted addresses have in common. */
  predicate MatchedRight(address: string, network: string, prefix: nat)
    requires IsIpv6(address) && IsIpv6(network) && prefix <= 128
  {
    MatchesIpv6Cidr(address, Some(network), Some(prefix))
    <==> Ipv6Bits(address)[..prefix] == Ipv6Bits(network)[..prefix]
  }

  /** What matching promises: where both texts are read right, the first bits of the addresses agree. */
  lemma Ipv6MatchDenotedIff(address: string, network: string, prefix: nat)
    requires IsIpv6(address) && IsIpv6(network) && prefix <= 128
    requires QuadIsHarmless(address) && QuadIsHarmless(network)
    ensures MatchedRight(address, network, prefix)
  {
    ReadsRightIff(address);
    ReadsRightIff(network);
    Ipv6MatchIff(address, Some(network), Some(prefix));
  }

  // ---------- what "::" stands for ----------

  predicate PairAt(s: string, i: nat) {
    i + 1 < |s| && s[i] == ':' && s[i + 1] == ':'
  }

  predicate NoPair(s: string) {
    forall i | 0 <= i < |s| :: !PairAt(s, i)
  }

  lemma NoPairTail(s: string)
    requires NoPair(s) && |s| >= 1
    ensures NoPair(s[1..])
  {
    forall i | 0 <= i < |s[1..]|
      ensures !PairAt(s[1..], i)
    {
      assert !PairAt(s, i + 1);
    }
  }

  lemma {:induction false} UncutText(s: string)
    requires NoPair(s)
    ensures SplitAtPairs(s) == [s]
  {
    if |s| >= 2 {
      assert !PairAt(s, 0);
      NoPairTail(s);
      UncutText(s[1..]);
      assert [s[0]] + s[1..] == s;
    }
  }

  lemma {:induction false} CutOnce(a: string, b: string)
    requires NoPair(a) && NoPair(b) && (a != "" ==> a[|a| - 1] != ':')
    ensures SplitAtPairs(a + "::" + b) == [a, b]
  {
    var whole := a + "::" + b;
    if a == "" {
      assert whole[2..] == b;
      UncutText(b);
    } else {
      assert !PairAt(a, 0);
      assert whole[0] == a[0] && whole[1] == (if |a| > 1 then a[1] else ':');
      assert whole[1..] == a[1..] + "::" + b;
      NoPairTail(a);
      CutOnce(a[1..], b);
      assert [a[0]] + a[1..] == a;
    }
  }

  /** A part as an address can have it: not empty and without a colon. */
  predicate Solid(parts: seq<string>) {
    forall i | 0 <= i < |parts| :: parts[i] != "" && Lacks(parts[i], ':')
  }

  lemma GroupsAreSolid(parts: seq<string>)
    requires AreGroups(parts)
    ensures Solid(parts)
  {
    forall i | 0 <= i < |parts|
      ensures parts[i] != "" && Lacks(parts[i], ':')
    {
      assert IsGroup(parts[i]);
    }
  }

  /** Joined parts have no "::" and do not start or end with a colon. */
  lemma {:induction false} JoinedParts(parts: seq<string>)
    requires Solid(parts) && |parts| >= 1
    ensures var s := JoinWith(parts, ':');
      NoPair(s) && s != "" && s[0] != ':' && s[|s| - 1] != ':' && PartsOf(s) == parts
  {
    assert NoneHas(parts, ':');
    SplitJoinWith(parts, ':');
    assert parts[0] != "" && Lacks(parts[0], ':');
    if |parts| > 1 {
      JoinedParts(parts[1..]);
      var rest := JoinWith(parts[1..], ':');
      var s := JoinWith(parts, ':');
      assert s == parts[0] + [':'] + rest;
      forall i | 0 <= i < |s|
        ensures !PairAt(s, i)
      {
        if i > |parts[0]| {
          assert !PairAt(rest, i - |parts[0]| - 1);
        }
      }
    }
  }

  function TextOf(parts: seq<string>): string {
    JoinWith(parts, ':')
  }

  lemma PartsAround(parts: seq<string>)
    requires Solid(parts)
    ensures var s := TextOf(parts);
      NoPair(s) && (s != "" ==> s[|s| - 1] != ':') && PartsOf(s) == parts
  {
    if parts != [] {
      JoinedParts(parts);
    }
  }

  /** A text with "::" comes apart into the parts it was put together from. */
  lemma ShortText(left: seq<string>, right: seq<string>)
    requires Solid(left) && Solid(right)
    ensures var text := TextOf(left) + "::" + TextOf(right);
      |SplitAtPairs(text)| == 2 && Left(text) == left && Right(text) == right
  {
    PartsAround(left);
    PartsAround(right);
    CutOnce(TextOf(left), TextOf(right));
  }

  lemma NoQuadIn(parts: seq<string>)
    requires AreGroups(parts)
    ensures !EndsInQuad(parts)
  {
    if parts != [] {
      assert IsGroup(parts[|parts| - 1]);
      SplitSegment(parts[|parts| - 1]);
    }
  }

  lemma FullText(groups: seq<string>)
    requires AreGroups(groups) && |groups| == 8
    ensures IsIpv6(TextOf(groups)) && |SplitAtPairs(TextOf(groups))| == 1 && Left(TextOf(groups)) == groups
  {
    GroupsAreSolid(groups);
    JoinedParts(groups);
    UncutText(TextOf(groups));
    NoQuadIn(groups);
  }

  /**
   Writing "::" is the same as writing out the zero groups it stands for: every address so written is
   accepted, read right, and has the same bits as its eight groups in full.
   */
  lemma CompressionIsTransparent(left: seq<string>, n: nat, right: seq<string>)
    requires AreGroups(left) && AreGroups(right) && |left| + n + |right| == 8 && n >= 1
    ensures var short, full := TextOf(left) + "::" + TextOf(right), TextOf(left + Zeros(n) + right);
      && IsIpv6(short) && IsIpv6(full) && Ipv6Bits(short) == Ipv6Bits(full)
      && QuadIsHarmless(short) && QuadIsHarmless(full)
  {
    ShortDenotes(left, n, right);
    GroupsAround(left, n, right);
    ValuesAround(left, n, right);
    FullDenotesTheSame(TextOf(left) + "::" + TextOf(right), left + Zeros(n) + right);
  }

  lemma GroupsAround(left: seq<string>, n: nat, right: seq<string>)
    requires AreGroups(left) && AreGroups(right)
    ensures AreGroups(Zeros(n)) && AreGroups(left + Zeros(n) + right)
  {
    assert IsGroup("0");
  }

  lemma FullDenotesTheSame(short: string, groups: seq<string>)
    requires AreGroups(groups) && |groups| == 8 && IsIpv6(short) && DenotedGroups(short) == Values(groups)
    ensures var full := TextOf(groups); IsIpv6(full) && QuadIsHarmless(full) && Ipv6Bits(short) == Ipv6Bits(full)
  {
    FullDenotes(groups);
  }

  lemma ShortDenotes(left: seq<string>, n: nat, right: seq<string>)
    requires AreGroups(left) && AreGroups(right) && |left| + n + |right| == 8 && n >= 1
    ensures var short := TextOf(left) + "::" + TextOf(right);
      && IsIpv6(short) && QuadIsHarmless(short)
      && DenotedGroups(short) == Values(left) + NoGroups(n) + Values(right)
  {
    GroupsAreSolid(left);
    GroupsAreSolid(right);
    ShortText(left, right);
    NoQuadIn(right);
    assert Denoted(right) == Values(right);
  }

  lemma FullDenotes(groups: seq<string>)
    requires AreGroups(groups) && |groups| == 8
    ensures var full := TextOf(groups);
      && IsIpv6(full) && QuadIsHarmless(full) && DenotedGroups(full) == Values(groups)
  {
    FullText(groups);
    NoQuadIn(groups);
    assert Denoted(groups) == Values(groups);
  }

  lemma ValuesAround(left: seq<string>, n: nat, right: seq<string>)
    requires AreGroups(left) && AreGroups(Zeros(n)) && AreGroups(right) && AreGroups(left + Zeros(n) + right)
    ensures Values(left + Zeros(n) + right) == Values(left) + NoGroups(n) + Values(right)
  {
    ZerosAreRead(n);
    GroupsAreReadWhole(Zeros(n));
  }

  /** An address that ends in a dotted quad is read as if only the quad's first octet were there. */
  lemma QuadsMatchRegardless(left: seq<string>, heads: seq<string>, quad: string, quad': string)
    requires AreGroups(left) && AreGroups(heads) && |left| + |heads| <= 5
    requires IsTail(quad) && IsTail(quad') && Split(quad)[0] == Split(quad')[0]
    requires QuadValues(quad) != QuadValues(quad')
    ensures var text := TextOf(left) + "::" + TextOf(heads + [quad]);
      var text' := TextOf(left) + "::" + TextOf(heads + [quad']);
      && IsIpv6(text) && IsIpv6(text')
      && MatchesIpv6Cidr(text, Some(text'), Some(128))
      && DenotedGroups(text) != DenotedGroups(text')
  {
    var text, text' := TextOf(left) + "::" + TextOf(heads + [quad]), TextOf(left) + "::" + TextOf(heads + [quad']);
    QuadText(left, heads, quad);
    QuadText(left, heads, quad');
    QuadIsReadShort(quad);
    QuadIsReadShort(quad');
    assert ReadGroups(text) == ReadGroups(text');
    Ipv6MatchIff(text, Some(text'), Some(128));
    var same := Values(left) + NoGroups(6 - |left| - |heads|) + Values(heads);
    SamePrefixIff(same, QuadValues(quad), QuadValues(quad'));
  }

  lemma QuadOf(a: string, b: string, c: string, d: string)
    requires forall o | o in [a, b, c, d] :: IsOctet(o) && NoLeadingZero(o)
    ensures var quad := a + "." + b + "." + c + "." + d; Split(quad) == [a, b, c, d] && IsTail(quad)
  {
    var o := [a, b, c, d];
    forall i | 0 <= i < 4
      ensures IsOctet(o[i]) && NoLeadingZero(o[i]) && NoDot(o[i])
    {
      assert o[i] in o;
    }
    SplitJoin(o);
    JoinSnoc([a], b);
    JoinSnoc([a] + [b], c);
    JoinSnoc([a] + [b] + [c], d);
    assert [a] + [b] + [c] + [d] == o;
  }

  lemma OneDigit(octet: string)
    requires |octet| == 1 && IsDigit(octet[0])
    ensures IsOctet(octet) && NoLeadingZero(octet) && Decimal(octet) == DigitValue(octet[0])
  {
  }

  lemma TwoQuads(quad: string, quad': string)
    requires quad == "1.2.3.4" && quad' == "1.9.9.9"
    ensures IsTail(quad) && IsTail(quad') && Split(quad)[0] == Split(quad')[0]
    ensures QuadValues(quad) != QuadValues(quad')
  {
    OneDigit("1");
    OneDigit("2");
    OneDigit("3");
    OneDigit("4");
    OneDigit("9");
    QuadOf("1", "2", "3", "4");
    QuadOf("1", "9", "9", "9");
    assert "1" + "." + "2" + "." + "3" + "." + "4" == quad;
    assert "1" + "." + "9" + "." + "9" + "." + "9" == quad';
    assert QuadValues(quad)[0] == 258 && QuadValues(quad')[0] == 265;
  }

  /**
   A concrete pair: a peer at "::1.2.3.4" matches the network "::1.9.9.9/128". (An address that begins with
   "::ffff:" never arrives here.)
   */
  lemma EmbeddedQuadsMatch(quad: string, quad': string)
    requires quad == "1.2.3.4" && quad' == "1.9.9.9"
    ensures var text, text' := "::" + quad, "::" + quad';
      && IsIpv6(text) && IsIpv6(text') && Arrives(text)
      && MatchesIpv6Cidr(text, Some(text'), Some(128)) && DenotedGroups(text) != DenotedGroups(text')
  {
    TwoQuads(quad, quad');
    QuadsMatchRegardless([], [], quad, quad');
    QuadAlone(quad);
    QuadAlone(quad');
    QuadArrives(quad);
  }

  lemma QuadAlone(quad: string)
    ensures TextOf([]) + "::" + TextOf([] + [quad]) == "::" + quad
  {
    assert TextOf([]) == "" && [] + [quad] == [quad];
  }

  lemma QuadArrives(quad: string)
    requires IsTail(quad) && IsIpv6("::" + quad)
    ensures Arrives("::" + quad)
  {
    BeginsWithDigit(quad);
    ArrivesAsItIs("::" + quad);
  }

  lemma ArrivesAsItIs(text: string)
    requires |text| > 2 && text[2] != 'f' && IsIpv6(text)
    ensures Arrives(text)
  {
    assert !("::ffff:" <= text);
  }

  lemma BeginsWithDigit(quad: string)
    requires IsTail(quad)
    ensures quad != "" && IsDigit(quad[0])
  {
    var o := Split(quad);
    JoinSplit(quad);
    assert IsOctet(o[0]) && quad == o[0] + "." + Join(o[1..]);
    assert quad[0] == o[0][0];
  }

  lemma QuadText(left: seq<string>, heads: seq<string>, quad: string)
    requires AreGroups(left) && AreGroups(heads) && |left| + |heads| <= 5 && IsTail(quad)
    ensures var text := TextOf(left) + "::" + TextOf(heads + [quad]);
      && IsIpv6(text)
      && ReadGroups(text) == ReadAll(left + Zeros(7 - |left| - |heads|) + heads) + [ReadPart(quad)]
      && DenotedGroups(text) == (Values(left) + NoGroups(6 - |left| - |heads|) + Values(heads)) + QuadValues(quad)
  {
    var text := TextOf(left) + "::" + TextOf(heads + [quad]);
    QuadTextParts(left, heads, quad);
    QuadDenotes(heads, quad);
    QuadTextReads(text, left, heads, quad);
  }

  lemma QuadDenotes(heads: seq<string>, quad: string)
    requires AreGroups(heads) && IsTail(quad)
    ensures var right := heads + [quad];
      EndsInQuad(right) && Heads(right) == heads && Denoted(right) == Values(heads) + QuadValues(quad)
  {
    assert Heads(heads + [quad]) == heads;
  }

  lemma QuadTextReads(text: string, left: seq<string>, heads: seq<string>, quad: string)
    requires IsIpv6(text) && |SplitAtPairs(text)| == 2 && Left(text) == left && Right(text) == heads + [quad]
    requires |left| + |heads| <= 5
    ensures ReadGroups(text) == ReadAll(left + Zeros(7 - |left| - |heads|) + heads) + [ReadPart(quad)]
  {
    var front := left + Zeros(7 - |left| - |heads|) + heads;
    assert Parts(text) == front + [quad];
    ReadAllAppend(front, [quad]);
  }

  lemma QuadTextParts(left: seq<string>, heads: seq<string>, quad: string)
    requires AreGroups(left) && AreGroups(heads) && IsTail(quad)
    ensures var text := TextOf(left) + "::" + TextOf(heads + [quad]);
      |SplitAtPairs(text)| == 2 && Left(text) == left && Right(text) == heads + [quad]
  {
    GroupsAreSolid(left);
    GroupsAreSolid(heads);
    QuadIsSolid(quad);
    ShortText(left, heads + [quad]);
  }

  lemma QuadIsSolid(quad: string)
    requires IsTail(quad)
    ensures quad != "" && Lacks(quad, ':')
  {
    var o := Split(quad);
    JoinSplit(quad);
    assert o[0] != "" && quad == o[0] + "." + Join(o[1..]);
    assert forall i | 0 <= i < 4 :: IsOctet(o[i]);
    NoColonIn(o);
  }

  lemma {:induction false} NoColonIn(octets: seq<string>)
    requires AreOctets(octets)
    ensures Lacks(Join(octets), ':')
  {
    if |octets| == 1 {
      assert IsOctet(octets[0]);
    } else if |octets| > 1 {
      NoColonIn(octets[1..]);
      assert IsOctet(octets[0]);
      assert Join(octets) == octets[0] + "." + Join(octets[1..]);
    }
  }

  // ---------- when matching is right against every network, or for every peer ----------

  lemma {:induction false} BitsInjective(a: nat, b: nat, width: nat)
    requires a < Pow2(width) && b < Pow2(width) && Bits(a, width) == Bits(b, width)
    ensures a == b
  {
    if width > 0 {
      var s, t := Bits(a / 2, width - 1), Bits(b / 2, width - 1);
      assert (s + [a % 2 == 1])[..width - 1] == s && (t + [b % 2 == 1])[..width - 1] == t;
      assert (s + [a % 2 == 1])[width - 1] == (t + [b % 2 == 1])[width - 1];
      BitsInjective(a / 2, b / 2, width - 1);
    }
  }

  predicate Fit(groups: seq<nat>) {
    forall i | 0 <= i < |groups| :: groups[i] < Pow2(16)
  }

  lemma {:induction false} GroupBitsInjective(a: seq<nat>, b: seq<nat>)
    requires |a| == |b| && Fit(a) && Fit(b) && GroupBits(a) == GroupBits(b)
    ensures a == b
  {
    if a != [] {
      var s, t := Bits(a[0], 16), Bits(b[0], 16);
      assert (s + GroupBits(a[1..]))[..16] == s && (t + GroupBits(b[1..]))[..16] == t;
      assert (s + GroupBits(a[1..]))[16..] == GroupBits(a[1..]) && (t + GroupBits(b[1..]))[16..] == GroupBits(b[1..]);
      BitsInjective(a[0], b[0], 16);
      GroupBitsInjective(a[1..], b[1..]);
    }
  }

  lemma ValuesFit(groups: seq<string>)
    requires AreGroups(groups)
    ensures Fit(Values(groups))
  {
    forall i | 0 <= i < |groups|
      ensures Values(groups)[i] < Pow2(16)
    {
      assert IsGroup(groups[i]);
      GroupIsReadWhole(groups[i]);
    }
  }

  lemma DenotedFit(parts: seq<string>)
    requires AreGroups(Heads(parts))
    ensures Fit(Denoted(parts))
  {
    ValuesFit(Heads(parts));
    SmallPowers();
    PowSum(8, 8);
    if EndsInQuad(parts) {
      var o := Split(parts[|parts| - 1]);
      assert IsOctet(o[0]) && IsOctet(o[1]) && IsOctet(o[2]) && IsOctet(o[3]);
    }
  }

  lemma FitAppend(a: seq<nat>, b: seq<nat>)
    requires Fit(a) && Fit(b)
    ensures Fit(a + b)
  {
  }

  lemma ZerosFit(n: nat)
    ensures Fit(NoGroups(n))
  {
    assert Pow2(16) > 0;
  }

  lemma DenotedGroupsFit(text: string)
    requires IsIpv6(text)
    ensures Fit(DenotedGroups(text))
  {
    if |SplitAtPairs(text)| == 1 {
      DenotedFit(Left(text));
    } else {
      var values, zeros := Values(Left(text)), NoGroups(8 - |Left(text)| - Span(Right(text)));
      ValuesFit(Left(text));
      ZerosFit(8 - |Left(text)| - Span(Right(text)));
      DenotedFit(Right(text));
      FitAppend(values, zeros);
      FitAppend(values + zeros, Denoted(Right(text)));
    }
  }

  /** The parts as far as they are read. */
  function Spelled(text: string): (groups: seq<string>)
    requires IsIpv6(text)
    ensures |groups| == 8
  {
    seq(8, i requires 0 <= i < 8 => HexHead(Parts(text)[i]))
  }

  lemma HeadIsGroup(part: string)
    requires IsTail(part) || IsGroup(part)
    ensures IsGroup(HexHead(part))
  {
    if IsTail(part) {
      QuadIsReadShort(part);
      assert IsOctet(Split(part)[0]);
    } else {
      HeadOfHex(part);
    }
  }

  /** The address that the parser reads, written out in eight groups: a text that arrives and is read right. */
  lemma SpelledIsRead(text: string)
    requires IsIpv6(text)
    ensures var network := TextOf(Spelled(text));
      && IsIpv6(network) && Arrives(network)
      && QuadIsHarmless(network) && ReadGroups(network) == ReadGroups(text)
  {
    var groups := Spelled(text);
    var network := TextOf(groups);
    forall i | 0 <= i < 8
      ensures IsGroup(groups[i])
    {
      PartIsGroup(text, i);
      HeadIsGroup(Parts(text)[i]);
    }
    FullText(groups);
    NoQuadIn(groups);
    GroupsAreReadWhole(groups);
    assert Parts(network) == groups;
    SpelledArrives(groups);
  }

  lemma SpelledArrives(groups: seq<string>)
    requires AreGroups(groups) && |groups| == 8
    ensures Arrives(TextOf(groups))
  {
    FullText(groups);
    GroupsAreSolid(groups);
    JoinedParts(groups);
    assert TextOf(groups)[0] != ':';
  }

  lemma ReadAlikeMatchesWrongly(a: string, b: string)
    requires IsIpv6(a) && IsIpv6(b) && ReadGroups(a) == ReadGroups(b) && DenotedGroups(a) != DenotedGroups(b)
    ensures !MatchedRight(a, b, 128)
  {
    DifferentBits(a, b);
    Ipv6MatchIff(a, Some(b), Some(128));
    WholeBits(Ipv6Bits(a));
    WholeBits(Ipv6Bits(b));
  }

  lemma WholeBits(bits: seq<bool>)
    ensures bits[..|bits|] == bits
  {
  }

  /** Different addresses have different bits. */
  lemma DifferentBits(a: string, b: string)
    requires IsIpv6(a) && IsIpv6(b) && DenotedGroups(a) != DenotedGroups(b)
    ensures Ipv6Bits(a) != Ipv6Bits(b)
  {
    DenotedGroupsFit(a);
    DenotedGroupsFit(b);
    if Ipv6Bits(a) == Ipv6Bits(b) {
      GroupBitsInjective(DenotedGroups(a), DenotedGroups(b));
    }
  }

  /** Texts that are read differently from what they denote are matched wrongly in full length. */
  lemma SpelledMatchesWrongly(text: string)
    requires IsIpv6(text) && !QuadIsHarmless(text)
    ensures var other := TextOf(Spelled(text));
      && IsIpv6(other) && Arrives(other) && QuadIsHarmless(other)
      && !MatchedRight(text, other, 128) && !MatchedRight(other, text, 128)
  {
    var other := TextOf(Spelled(text));
    SpelledIsRead(text);
    ReadsRightIff(text);
    ReadsRightIff(other);
    ReadAlikeMatchesWrongly(text, other);
    ReadAlikeMatchesWrongly(other, text);
  }

  /** An address is matched right against every well-read network if and only if it is read right itself. */
  lemma AddressMatchedRightIff(address: string)
    requires IsIpv6(address)
    ensures QuadIsHarmless(address) <==>
      forall network, prefix: nat | IsIpv6(network) && QuadIsHarmless(network) && prefix <= 128 ::
        MatchedRight(address, network, prefix)
  {
    if QuadIsHarmless(address) {
      forall network, prefix: nat | IsIpv6(network) && QuadIsHarmless(network) && prefix <= 128
        ensures MatchedRight(address, network, prefix)
      {
        Ipv6MatchDenotedIff(address, network, prefix);
      }
    } else {
      SpelledMatchesWrongly(address);
    }
  }

  /** A configured network matches every well-read peer rightly if and only if it is read right itself. */
  lemma NetworkMatchedRightIff(network: string)
    requires IsIpv6(network)
    ensures QuadIsHarmless(network) <==>
      forall address, prefix: nat | IsIpv6(address) && Arrives(address) && QuadIsHarmless(address) && prefix <= 128 ::
        MatchedRight(address, network, prefix)
  {
    if QuadIsHarmless(network) {
      forall address, prefix: nat | IsIpv6(address) && Arrives(address) && QuadIsHarmless(address) && prefix <= 128
        ensures MatchedRight(address, network, prefix)
      {
        Ipv6MatchDenotedIff(address, network, prefix);
      }
    } else {
      SpelledMatchesWrongly(network);
    }
  }
}
