/**
 Matching an IPv4 address against a network in prefix notation, as the Node client does for its trusted
 peers, and the bitwise arithmetic that it shares with the IPv6 form.

 A 32-bit integer is represented by its 32 bits read as a number from 0 to 2^32 - 1; two signed
 integers are equal exactly when these are.
 */
module Cidr {
  import opened Wrappers
  import opened Paths
  import opened Powers

  // ---------- bitwise arithmetic ----------

  function And(a: nat, b: nat): nat {
    if a == 0 || b == 0 then 0
    else 2 * And(a / 2, b / 2) + (if a % 2 == 1 && b % 2 == 1 then 1 else 0)
  }

  function Or(a: nat, b: nat): nat {
    if a == 0 then b
    else if b == 0 then a
    else 2 * Or(a / 2, b / 2) + (if a % 2 == 1 || b % 2 == 1 then 1 else 0)
  }

  /** `x` with `distance` zero bits appended: the shift of unbounded integers. */
  function Shl(x: nat, distance: nat): (shifted: nat)
    ensures x > 0 ==> shifted > 0
  {
    if distance == 0 then x else 2 * Shl(x, distance - 1)
  }

  const WORD := 0x1_0000_0000
  const MINUS_ONE := WORD - 1

  /**
   The 32-bit shift: it uses only the low five bits of the distance and drops what leaves the word. A
   shift by 32 keeps every bit, which is why prefix 0 has a case of its own below.
   */
  function Shl32(x: nat, distance: nat): nat {
    Shl(x, distance % 32) % WORD
  }

  // ---------- the parser ----------

  predicate IsDigit(c: char) {
    '0' <= c <= '9'
  }

  function DigitValue(c: char): nat
    requires IsDigit(c)
  {
    (c - '0') as nat
  }

  predicate IsDigits(part: string) {
    part != "" && forall i | 0 <= i < |part| :: IsDigit(part[i])
  }

  function Decimal(part: string): nat
    requires IsDigits(part)
  {
    var last := |part| - 1;
    (if last == 0 then 0 else 10 * Decimal(part[..last])) + DigitValue(part[last])
  }

  function ReduceOctets(parts: seq<string>, acc: Option<nat>): Option<nat> {
    if parts == [] then acc
    else
      var part := parts[0];
      ReduceOctets(parts[1..],
                   if acc.None? || !IsDigits(part) || Decimal(part) > 255 then None
                   else Some(Or(Shl32(acc.value, 8), Decimal(part))))
  }

  function ParseIpv4(value: Option<string>): Option<nat> {
    if value.Some? && |Split(value.value)| == 4 then ReduceOctets(Split(value.value), Some(0)) else None
  }

  // ---------- the matcher; a prefix that is not an integer is `None` ----------

  function Ipv4Mask(prefix: nat): nat
    requires prefix <= 32
  {
    if prefix == 0 then 0 else Shl32(MINUS_ONE, 32 - prefix)
  }

  predicate MatchesIpv4Cidr(address: string, network: Option<string>, prefix: Option<int>) {
    var candidate := ParseIpv4(Some(address));
    var base := ParseIpv4(network);
    if candidate.None? || base.None? || prefix.None? || prefix.value < 0 || prefix.value > 32 then false
    else
      And(candidate.value, Ipv4Mask(prefix.value)) == And(base.value, Ipv4Mask(prefix.value))
  }

  // ---------- what an address is: its bits, most significant first ----------

  function Bits(n: nat, width: nat): (bits: seq<bool>)
    ensures |bits| == width
  {
    if width == 0 then [] else Bits(n / 2, width - 1) + [n % 2 == 1]
  }

  predicate Encodes(n: nat, bits: seq<bool>) {
    n < Pow2(|bits|) && Bits(n, |bits|) == bits
  }

  predicate IsOctet(part: string) {
    IsDigits(part) && Decimal(part) <= 255
  }

  predicate AreOctets(parts: seq<string>) {
    forall i | 0 <= i < |parts| :: IsOctet(parts[i])
  }

  predicate IsQuad(text: string) {
    |Split(text)| == 4 && AreOctets(Split(text))
  }

  function OctetBits(parts: seq<string>): (bits: seq<bool>)
    requires AreOctets(parts)
    ensures |bits| == 8 * |parts|
  {
    if parts == [] then [] else Bits(Decimal(parts[0]), 8) + OctetBits(parts[1..])
  }

  function Ipv4Bits(text: string): (bits: seq<bool>)
    requires IsQuad(text)
    ensures |bits| == 32
  {
    OctetBits(Split(text))
  }

  // ---------- lemmas on bits ----------

  lemma {:induction false} ShlForm(x: nat, k: nat)
    ensures Shl(x, k) == x * Pow2(k)
  {
    if k > 0 {
      ShlForm(x, k - 1);
      assert x * Pow2(k) == 2 * (x * Pow2(k - 1));
    }
  }

  lemma {:induction false} OrFills(x: nat, y: nat, k: nat)
    requires y < Pow2(k)
    ensures Or(Shl(x, k), y) == Shl(x, k) + y
  {
    if k > 0 {
      OrFills(x, y / 2, k - 1);
      assert Shl(x, k) / 2 == Shl(x, k - 1);
    }
  }

  lemma {:induction false} BitsAppend(x: nat, y: nat, k: nat, width: nat)
    requires y < Pow2(k)
    ensures Bits(Shl(x, k) + y, width + k) == Bits(x, width) + Bits(y, k)
  {
    if k == 0 {
      assert Bits(x, width) + Bits(y, 0) == Bits(x, width);
    } else {
      BitsAppend(x, y / 2, k - 1, width);
      var whole := Shl(x, k) + y;
      assert whole / 2 == Shl(x, k - 1) + y / 2 && whole % 2 == y % 2;
      assert Bits(x, width) + Bits(y, k) == (Bits(x, width) + Bits(y / 2, k - 1)) + [y % 2 == 1];
    }
  }

  lemma {:induction false} FilledBound(x: nat, y: nat, k: nat, width: nat)
    requires y < Pow2(k) && x < Pow2(width)
    ensures Shl(x, k) + y < Pow2(width + k)
  {
    if k > 0 {
      FilledBound(x, y / 2, k - 1, width);
    }
  }

  /** Shifting left by `k` and filling in `k` low bits is concatenation. */
  lemma ShiftAppends(x: nat, bits: seq<bool>, y: nat, k: nat)
    requires Encodes(x, bits) && y < Pow2(k)
    ensures Encodes(Or(Shl(x, k), y), bits + Bits(y, k))
  {
    OrFills(x, y, k);
    FilledEncodes(Or(Shl(x, k), y), x, bits, y, k);
  }

  lemma FilledEncodes(filled: nat, x: nat, bits: seq<bool>, y: nat, k: nat)
    requires Encodes(x, bits) && y < Pow2(k) && filled == Shl(x, k) + y
    ensures Encodes(filled, bits + Bits(y, k))
  {
    BitsAppend(x, y, k, |bits|);
    FilledBound(x, y, k, |bits|);
    EncodesIn(filled, bits + Bits(y, k), |bits| + k);
  }

  lemma EncodesIn(n: nat, bits: seq<bool>, width: nat)
    requires |bits| == width && n < Pow2(width) && Bits(n, width) == bits
    ensures Encodes(n, bits)
  {
  }

  /** `prefix` ones and then zeros. */
  function Mask(width: nat, prefix: nat): nat
    requires prefix <= width
  {
    if prefix < width then 2 * Mask(width - 1, prefix)
    else if width == 0 then 0
    else 2 * Mask(width - 1, width - 1) + 1
  }

  lemma {:induction false} OneShifted(k: nat)
    ensures Shl(1, k) == Pow2(k)
  {
    if k > 0 {
      OneShifted(k - 1);
    }
  }

  lemma {:induction false} MaskForm(width: nat, prefix: nat)
    requires prefix <= width
    ensures Shl(1, prefix) > 0 && Mask(width, prefix) == Shl(Shl(1, prefix) - 1, width - prefix)
  {
    OneShifted(prefix);
    if prefix < width {
      MaskForm(width - 1, prefix);
    } else if width > 0 {
      MaskForm(width - 1, width - 1);
    }
  }

  lemma AndStep(a: nat, m: nat)
    ensures And(a, 2 * m) == 2 * And(a / 2, m)
    ensures And(a, 2 * m + 1) == 2 * And(a / 2, m) + a % 2
  {
    assert (2 * m + 1) / 2 == m;
  }

  lemma SnocEqual(s: seq<bool>, t: seq<bool>, x: bool, y: bool, prefix: nat)
    requires |s| == |t| && prefix <= |s| + 1
    ensures prefix <= |s| ==> (s + [x])[..prefix] == s[..prefix] && (t + [y])[..prefix] == t[..prefix]
    ensures prefix == |s| + 1 ==> ((s + [x])[..prefix] == (t + [y])[..prefix] <==> s[..|s|] == t[..|t|] && x == y)
  {
    if prefix == |s| + 1 {
      assert (s + [x])[..prefix] == s + [x] && (t + [y])[..prefix] == t + [y];
      assert (s + [x])[..|s|] == s && (t + [y])[..|t|] == t;
      assert (s + [x])[|s|] == x && (t + [y])[|t|] == y;
    }
  }

  /** What masking promises: it keeps exactly the first `prefix` bits. */
  predicate MaskTells(a: nat, b: nat, width: nat, prefix: nat)
    requires prefix <= width
  {
    And(a, Mask(width, prefix)) == And(b, Mask(width, prefix)) <==> Bits(a, width)[..prefix] == Bits(b, width)[..prefix]
  }

  /** The last bit is masked away. */
  lemma MaskTellsPart(a: nat, b: nat, width: nat, prefix: nat)
    requires prefix < width && MaskTells(a / 2, b / 2, width - 1, prefix)
    ensures MaskTells(a, b, width, prefix)
  {
    AndStep(a, Mask(width - 1, prefix));
    AndStep(b, Mask(width - 1, prefix));
    SnocEqual(Bits(a / 2, width - 1), Bits(b / 2, width - 1), a % 2 == 1, b % 2 == 1, prefix);
  }

  /** The last bit is kept. */
  lemma MaskTellsAll(a: nat, b: nat, width: nat)
    requires 0 < width && MaskTells(a / 2, b / 2, width - 1, width - 1)
    ensures MaskTells(a, b, width, width)
  {
    AndStep(a, Mask(width - 1, width - 1));
    AndStep(b, Mask(width - 1, width - 1));
    SnocEqual(Bits(a / 2, width - 1), Bits(b / 2, width - 1), a % 2 == 1, b % 2 == 1, width);
  }

  lemma {:induction false} MaskedEqualIff(a: nat, b: nat, width: nat, prefix: nat)
    requires prefix <= width
    ensures MaskTells(a, b, width, prefix)
  {
    if width > 0 {
      if prefix < width {
        MaskedEqualIff(a / 2, b / 2, width - 1, prefix);
        MaskTellsPart(a, b, width, prefix);
      } else {
        MaskedEqualIff(a / 2, b / 2, width - 1, width - 1);
        MaskTellsAll(a, b, width);
      }
    }
  }

  lemma MaskedMatch(a: nat, s: seq<bool>, b: nat, t: seq<bool>, prefix: nat)
    requires Encodes(a, s) && Encodes(b, t) && |s| == |t| && prefix <= |s|
    ensures And(a, Mask(|s|, prefix)) == And(b, Mask(|s|, prefix)) <==> s[..prefix] == t[..prefix]
  {
    MaskedEqualIff(a, b, |s|, prefix);
  }

  // ---------- digits and bits, told another way ----------

  /** A number as it is written, without leading zeros. */
  function Written(n: nat): string {
    if n < 10 then ["0123456789"[n]] else Written(n / 10) + ["0123456789"[n % 10]]
  }

  lemma DigitIff(c: char)
    ensures IsDigit(c) <==> c in "0123456789"
    ensures IsDigit(c) ==> "0123456789"[DigitValue(c)] == c
  {
    if IsDigit(c) {
      assert "0123456789"[DigitValue(c)] == c;
    }
  }

  /** Reading undoes writing. */
  lemma {:induction false} DecimalOfWritten(n: nat)
    ensures IsDigits(Written(n)) && Decimal(Written(n)) == n
  {
    if n >= 10 {
      DecimalOfWritten(n / 10);
      DigitIff("0123456789"[n % 10]);
      assert Written(n)[..|Written(n)| - 1] == Written(n / 10);
    } else {
      DigitIff("0123456789"[n]);
      assert Written(n)[..0] == "";
    }
  }

  lemma TimesGrows(x: nat, y: nat, p: nat)
    requires x <= y
    ensures x * p <= y * p
  {
  }

  lemma QuotientIs(n: nat, p: nat, q: nat)
    requires p > 0 && q * p <= n < (q + 1) * p
    ensures n / p == q
  {
    var r := n / p;
    assert n == r * p + n % p && (r + 1) * p == r * p + p;
    if r < q {
      TimesGrows(r + 1, q, p);
    } else if r > q {
      TimesGrows(q + 1, r, p);
    }
  }

  lemma HalfThenDivide(n: nat, p: nat)
    requires p > 0
    ensures n / 2 / p == n / (2 * p)
  {
    var q := n / (2 * p);
    assert q * (2 * p) <= n < q * (2 * p) + 2 * p;
    assert q * (2 * p) == 2 * (q * p) && (q + 1) * p == q * p + p;
    QuotientIs(n / 2, p, q);
  }

  /** The `i`-th bit from the left, by division. */
  lemma {:induction false} BitAt(n: nat, width: nat, i: nat)
    requires i < width
    ensures Bits(n, width)[i] <==> n / Pow2(width - 1 - i) % 2 == 1
  {
    if i < width - 1 {
      BitAt(n / 2, width - 1, i);
      HalfThenDivide(n, Pow2(width - 2 - i));
    }
  }

  // ---------- IPv4 ----------

  lemma ByteIsPow()
    ensures Pow2(8) == 256
  {
    assert Pow2(4) == 16;
    PowSum(4, 4);
  }

  lemma WordIsPow(width: nat)
    requires width == 32
    ensures Pow2(width) == WORD
  {
    ByteIsPow();
    PowSum(8, 8);
    PowSum(16, 16);
  }

  /** As long as three octets are in, the 32-bit shift drops nothing. */
  lemma ShortShift(acc: nat, bits: seq<bool>)
    requires Encodes(acc, bits) && |bits| <= 24
    ensures Shl32(acc, 8) == Shl(acc, 8)
  {
    var width := 32;
    WordIsPow(width);
    FilledBound(acc, 0, 8, |bits|);
    PowGrows(|bits| + 8, width);
    FitsInWord(Shl(acc, 8));
  }

  lemma FitsInWord(x: nat)
    requires x < WORD
    ensures x % WORD == x
  {
  }

  /** One step of the reduction. */
  lemma OctetStep(acc: nat, bits: seq<bool>, part: string)
    requires |bits| <= 24 && Encodes(acc, bits) && IsOctet(part)
    ensures Encodes(Or(Shl32(acc, 8), Decimal(part)), bits + Bits(Decimal(part), 8))
  {
    ByteIsPow();
    ShortShift(acc, bits);
    ShiftAppends(acc, bits, Decimal(part), 8);
  }

  lemma {:induction false} BadOctets(parts: seq<string>, acc: Option<nat>)
    requires acc.None? || !AreOctets(parts)
    ensures ReduceOctets(parts, acc) == None
  {
    if parts != [] {
      var next := if acc.None? || !IsOctet(parts[0]) then None else Some(Or(Shl32(acc.value, 8), Decimal(parts[0])));
      BadOctets(parts[1..], next);
    }
  }

  /** The reduction concatenates the octets' bits, as long as they fit into the word. */
  lemma {:induction false} ReducedOctets(parts: seq<string>, acc: nat, bits: seq<bool>)
    requires AreOctets(parts) && Encodes(acc, bits) && |bits| + 8 * |parts| <= 32
    ensures var n := ReduceOctets(parts, Some(acc)); n.Some? && Encodes(n.value, bits + OctetBits(parts))
  {
    if parts == [] {
      assert bits + OctetBits(parts) == bits;
    } else {
      var octet := Decimal(parts[0]);
      assert IsOctet(parts[0]);
      OctetStep(acc, bits, parts[0]);
      ReducedOctets(parts[1..], Or(Shl32(acc, 8), octet), bits + Bits(octet, 8));
      OctetBitsCons(parts, bits);
    }
  }

  lemma OctetBitsCons(parts: seq<string>, bits: seq<bool>)
    requires AreOctets(parts) && parts != []
    ensures IsOctet(parts[0]) && bits + OctetBits(parts) == (bits + Bits(Decimal(parts[0]), 8)) + OctetBits(parts[1..])
  {
  }

  /** The parser accepts exactly the dotted quads, and yields their bits. */
  lemma ParsedIpv4(text: string)
    ensures ParseIpv4(Some(text)).Some? <==> IsQuad(text)
    ensures IsQuad(text) ==> Encodes(ParseIpv4(Some(text)).value, Ipv4Bits(text))
  {
    if IsQuad(text) {
      ReducedOctets(Split(text), 0, []);
      assert [] + Ipv4Bits(text) == Ipv4Bits(text);
    } else if |Split(text)| == 4 {
      BadOctets(Split(text), Some(0));
    }
  }

  lemma MinusOneTimes(a: nat, c: nat)
    requires a >= 1 && 1 <= c && a * c == WORD
    ensures MINUS_ONE * c % WORD == (a - 1) * c
  {
    var m := (a - 1) * c;
    assert m == WORD - c;
    assert MINUS_ONE * c == (c - 1) * WORD + m;
  }

  lemma MaskProduct(width: nat, prefix: nat)
    requires prefix <= width
    ensures Mask(width, prefix) == (Pow2(prefix) - 1) * Pow2(width - prefix)
  {
    MaskForm(width, prefix);
    OneShifted(prefix);
    ShlForm(Pow2(prefix) - 1, width - prefix);
  }

  lemma ShiftedMinusOne(prefix: nat, k: nat)
    requires prefix > 0 && prefix + k == 32
    ensures Shl32(MINUS_ONE, k) == (Pow2(prefix) - 1) * Pow2(k)
  {
    assert k % 32 == k;
    WordIsPow(prefix + k);
    PowSum(prefix, k);
    ShlForm(MINUS_ONE, k);
    MinusOneTimes(Pow2(prefix), Pow2(k));
  }

  /** The 32-bit mask is `prefix` ones and then zeros. */
  lemma Ipv4MaskForm(prefix: nat)
    requires prefix <= 32
    ensures Ipv4Mask(prefix) == Mask(32, prefix)
  {
    MaskProduct(32, prefix);
    if prefix > 0 {
      ShiftedMinusOne(prefix, 32 - prefix);
    }
  }

  lemma Ipv4Agree(address: string, network: string, prefix: nat)
    requires IsQuad(address) && IsQuad(network) && prefix <= 32
    ensures MatchesIpv4Cidr(address, Some(network), Some(prefix))
       <==> Ipv4Bits(address)[..prefix] == Ipv4Bits(network)[..prefix]
  {
    ParsedIpv4(address);
    ParsedIpv4(network);
    var x, s := ParseIpv4(Some(address)).value, Ipv4Bits(address);
    var y, t := ParseIpv4(Some(network)).value, Ipv4Bits(network);
    assert And(x, Ipv4Mask(prefix)) == And(y, Ipv4Mask(prefix)) <==> s[..prefix] == t[..prefix] by {
      Ipv4MaskForm(prefix);
      MaskedMatch(x, s, y, t, prefix);
    }
  }

  /** The IPv4 form holds exactly when both texts are dotted quads whose first `prefix` bits agree. */
  lemma Ipv4MatchIff(address: string, network: Option<string>, prefix: Option<int>)
    ensures MatchesIpv4Cidr(address, network, prefix) <==>
      && IsQuad(address) && network.Some? && IsQuad(network.value)
      && prefix.Some? && 0 <= prefix.value <= 32
      && Ipv4Bits(address)[..prefix.value] == Ipv4Bits(network.value)[..prefix.value]
  {
    ParsedIpv4(address);
    if network.Some? {
      ParsedIpv4(network.value);
      if IsQuad(address) && IsQuad(network.value) && prefix.Some? && 0 <= prefix.value <= 32 {
        Ipv4Agree(address, network.value, prefix.value);
      }
    }
  }

  lemma PrefixOfPrefix(s: seq<bool>, t: seq<bool>, p: nat, q: nat)
    requires q <= p <= |s| && |s| == |t| && s[..p] == t[..p]
    ensures s[..q] == t[..q]
  {
    assert s[..q] == s[..p][..q] && t[..q] == t[..p][..q];
  }
}
