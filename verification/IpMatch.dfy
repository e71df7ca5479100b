/** Address rules, lib/IpMatch.js: normal forms, CIDR ranges (section 3.1 of RFC 4632), IPv4 wildcards, IPv4-mapped
    addresses (section 2.5.5.2 of RFC 4291), and the allow/deny decision. */
module IpMatch {
  import opened Arithmetic
  import opened Ipv6
  import opened Text
  import opened Wrappers

  // ----- text -----

  predicate IsSpace(c: char) {
    || '\t' <= c <= '\r' || c == ' ' || c == '\U{A0}' || c == '\U{FEFF}' || c == '\U{1680}'
    || '\U{2000}' <= c <= '\U{200A}'
    || c == '\U{2028}' || c == '\U{2029}' || c == '\U{202F}' || c == '\U{205F}' || c == '\U{3000}'
  }

  function TrimStart(s: string): string { if s != "" && IsSpace(s[0]) then TrimStart(s[1..]) else s }

  function TrimEnd(s: string): string { if s != "" && IsSpace(s[|s| - 1]) then TrimEnd(s[..|s| - 1]) else s }

  function Trim(s: string): string { TrimEnd(TrimStart(s)) }

  /** Text that trimming, lower-casing and cutting the zone leave as it is. */
  predicate Clean(s: string) {
    forall c :: c in s ==> !IsSpace(c) && !('A' <= c <= 'Z') && c != '%'
  }

  function CutZone(s: string): string { Split(s, '%')[0] }

  /** The address without blanks around it, upper-case letters and zone. */
  function Cleaned(ip: string): string { CutZone(Lower(Trim(ip))) }

  lemma CleanIsNormal(s: string)
    requires Clean(s)
    ensures Trim(s) == s && Lower(s) == s && Cleaned(s) == s
  {
    hide Split, IsSpace;
    if s != "" { assert s[0] in s && s[|s| - 1] in s; }
    forall i | 0 <= i < |s| ensures Lower(s)[i] == s[i] { assert s[i] in s; }
    SplitPlain(s, '%');
  }

  // ----- addresses -----

  const MAPPED: string := "::ffff:"
  const TWO32: nat := 0x1_0000_0000

  function OctetsOf(a: nat): (o: seq<nat>)
    ensures |o| == 4 && forall i :: 0 <= i < 4 ==> o[i] < 256
  {
    [a / 0x100_0000 % 256, a / 0x1_0000 % 256, a / 256 % 256, a % 256]
  }

  /** The dotted form of an IPv4 address. */
  function Dotted(v: nat): string {
    var o := OctetsOf(v);
    Join([Decimal(o[0]), Decimal(o[1]), Decimal(o[2]), Decimal(o[3])], '.')
  }

  function NormalizeIp(ip: string): string {
    var s := Cleaned(ip);
    if MAPPED <= s then
      if '.' in s then s[7..]
      else
        var big := Ipv6Big(s);
        if big.Some? && big.value / TWO32 == 0xffff then Dotted(big.value % TWO32) else s
    else s
  }

  datatype Ip = Ip(version: nat, big: nat) {
    function Bits(): nat { if version == 4 then 32 else 128 }
  }

  function ParseIp(ip: string): Option<Ip> {
    var s := NormalizeIp(ip);
    if ':' in s then (var big := Ipv6Big(s); if big.None? then None else Some(Ip(6, big.value)))
    else (var big := Ipv4(s); if big.None? then None else Some(Ip(4, big.value)))
  }

  // ----- rules -----

  datatype Cidr = Cidr(version: nat, network: nat, prefix: nat, bits: nat)

  function ParseCidr(rule: string): (r: Option<Cidr>)
    ensures r.Some? ==> r.value.prefix <= r.value.bits
  {
    var parts := Split(Trim(rule), '/');
    if '/' !in rule || |parts| < 2 then None
    else
      var ip, len := ParseIp(parts[0]), parts[1];
      if ip.None? || !(1 <= |len| <= 3 && AllDigits(len)) || Number(len) > ip.value.Bits() then None
      else Some(Cidr(ip.value.version, ip.value.big, Number(len), ip.value.Bits()))
  }

  predicate IsWild(o: string) { o == "*" || o == "" }

  /** The concrete octets of a partial address, none of which may follow a wild one. */
  function Leading(octets: seq<string>, seenWild: bool): Option<seq<string>> {
    if octets == [] then Some([])
    else if IsWild(octets[0]) then Leading(octets[1..], true)
    else if seenWild || !IsOctet(octets[0]) then None
    else Prefixed([octets[0]], Leading(octets[1..], false))
  }

  function Prefixed(concrete: seq<string>, rest: Option<seq<string>>): Option<seq<string>> {
    if rest.None? then None else Some(concrete + rest.value)
  }

  function DropDot(s: string): string { if s != "" && s[|s| - 1] == '.' then s[..|s| - 1] else s }

  function Concrete(rule: string): (r: Option<seq<string>>) {
    var octets := Split(DropDot(Lower(Trim(rule))), '.');
    if |octets| > 4 then None else Leading(octets, false)
  }

  /** The rule that a partial address stands for. */
  function Completed(concrete: seq<string>): string
    requires |concrete| <= 4
  {
    if |concrete| == 4 then Join(concrete, '.')
    else Join(concrete + Zeros(4 - |concrete|), '.') + "/" + Decimal(|concrete| * 8)
  }

  lemma {:induction false} LeadingOctets(octets: seq<string>, seenWild: bool)
    requires Leading(octets, seenWild).Some?
    ensures var c := Leading(octets, seenWild).value;
            |c| <= |octets| && (forall i :: 0 <= i < |c| ==> IsOctet(c[i])) && (seenWild ==> c == [])
  {
    if octets == [] {
    } else {
      LeadingOctets(octets[1..], seenWild || IsWild(octets[0]));
    }
  }

  function V4Partial(rule: string): Option<string> {
    var c := Concrete(rule);
    if c.None? || c.value == [] || |c.value| > 4 then None else Some(Completed(c.value))
  }

  /** `v4PartialToCidr`. */
  method V4PartialToCidr(rule: string) returns (r: Option<string>)
    ensures r == V4Partial(rule)
  {
    hide Split, IsOctet, IsWild, Trim, Completed, Leading;
    var s := Lower(Trim(rule));
    if s != "" && s[|s| - 1] == '.' { s := s[..|s| - 1]; }
    var octets := Split(s, '.');
    if |octets| < 1 || |octets| > 4 { return None; }
    var concrete := LeadingConcrete(octets);
    if concrete.None? || concrete.value == [] { return None; }
    LeadingOctets(octets, false);
    r := Some(Completed(concrete.value));
  }

  method LeadingConcrete(octets: seq<string>) returns (r: Option<seq<string>>)
    ensures r == Leading(octets, false)
  {
    hide IsOctet, IsWild;
    var concrete: seq<string>, seenWild := [], false;
    PrefixedNone(Leading(octets, false));
    assert octets[0..] == octets;
    for i := 0 to |octets|
      invariant Leading(octets, false) == Prefixed(concrete, Leading(octets[i..], seenWild))
    {
      var o := octets[i];
      assert octets[i..][0] == o && octets[i..][1..] == octets[i + 1..];
      if IsWild(o) {
        seenWild := true;
        continue;
      }
      if seenWild || !IsOctet(o) { return None; }
      PrefixedTwice(concrete, o, Leading(octets[i + 1..], false));
      concrete := concrete + [o];
    }
    assert concrete + [] == concrete;
    r := Some(concrete);
  }

  lemma PrefixedNone(rest: Option<seq<string>>)
    ensures Prefixed([], rest) == rest
  {
    if rest.Some? { assert [] + rest.value == rest.value; }
  }

  lemma PrefixedTwice(concrete: seq<string>, o: string, rest: Option<seq<string>>)
    ensures Prefixed(concrete, Prefixed([o], rest)) == Prefixed(concrete + [o], rest)
  {
    if rest.Some? { assert concrete + ([o] + rest.value) == concrete + [o] + rest.value; }
  }

  /** `expandRule`. */
  function ExpandRule(rule: string): Option<string> {
    var r := Lower(Trim(rule));
    if r == "" then None
    else if '/' in r then (if ParseCidr(r).Some? then Some(r) else None)
    else if ':' !in r && ('*' in r || r[|r| - 1] == '.' || |Split(r, '.')| < 4) then V4Partial(r)
    else if ParseIp(r).Some? then Some(r)
    else None
  }

  function Pow2(n: nat): (p: nat)
    ensures p > 0
  {
    if n == 0 then 1 else 2 * Pow2(n - 1)
  }

  /** `matchOne`. */
  predicate MatchOne(ip: string, rule: string) {
    var addr, canonical := ParseIp(ip), ExpandRule(rule);
    if addr.None? || canonical.None? then false
    else if '/' in canonical.value then
      var cidr := ParseCidr(canonical.value);
      if cidr.None? || cidr.value.version != addr.value.version then false
      else if cidr.value.prefix == 0 then true
      else
        var p := Pow2(cidr.value.bits - cidr.value.prefix);
        addr.value.big / p == cidr.value.network / p
    else
      ParseIp(canonical.value) == addr
  }

  predicate MatchesAny(ip: string, list: seq<string>) { exists i :: 0 <= i < |list| && MatchOne(ip, list[i]) }

  // ----- ranges -----

  function Power(base: nat, n: nat): (p: nat) { if n == 0 then 1 else base * Power(base, n - 1) }

  lemma {:induction false} FoldBound(base: nat, digits: seq<nat>)
    requires forall i :: 0 <= i < |digits| ==> digits[i] < base
    ensures Fold(base, digits) < Power(base, |digits|)
  {
    if digits == [] {
    } else {
      var front := digits[..|digits| - 1];
      FoldBound(base, front);
      Bound(Fold(base, front), Power(base, |front|), base, digits[|digits| - 1]);
    }
  }

  lemma Bound(a: nat, b: nat, base: nat, d: nat)
    requires a < b && d < base
    ensures a * base + d < base * b
  {
    Distribute(b, a, base);
    Multiple(b - a, base);
  }

  lemma {:induction false} PowerAdd(n: nat, m: nat)
    ensures Pow2(n + m) == Pow2(n) * Pow2(m)
  {
    if n == 0 {
    } else {
      PowerAdd(n - 1, m);
    }
  }

  lemma Widths()
    ensures Power(256, 4) == Pow2(32) == TWO32 && Power(65536, 8) == Pow2(128)
    ensures Pow2(8) == 256 && Pow2(16) == 65536 && Pow2(24) == 0x100_0000
  {
    hide Pow2, Power;
    PowersOfTwo();
    PowerTwice(256, 1);
    PowerTwice(256, 2);
    PowerTwice(65536, 1);
    PowerTwice(65536, 2);
    PowerTwice(65536, 4);
  }

  lemma PowersOfTwo()
    ensures Pow2(8) == 256 && Pow2(16) == 65536 && Pow2(24) == 0x100_0000 && Pow2(32) == TWO32
    ensures Pow2(128) == TWO32 * TWO32 * (TWO32 * TWO32)
  {
    assert Pow2(2) == 4;
    hide Pow2;
    PowerAdd(2, 2);
    PowerAdd(4, 4);
    PowerAdd(8, 8);
    PowerAdd(16, 8);
    PowerAdd(16, 16);
    PowerAdd(32, 32);
    PowerAdd(64, 64);
  }

  lemma {:induction false} PowerTwice(base: nat, n: nat)
    ensures Power(base, 1) == base && Power(base, 2 * n) == Power(base, n) * Power(base, n)
  {
    assert Power(base, 1) == base * Power(base, 0);
    PowerPlus(base, n, n);
  }

  lemma {:induction false} PowerPlus(base: nat, n: nat, m: nat)
    ensures Power(base, n + m) == Power(base, n) * Power(base, m)
  {
    if n == 0 {
    } else {
      PowerPlus(base, n - 1, m);
      assert Power(base, n + m) == base * (Power(base, n - 1) * Power(base, m));
    }
  }

  /** An address is a number of its family's width. */
  lemma IpBound(ip: string)
    requires ParseIp(ip).Some?
    ensures ParseIp(ip).value.version in {4, 6} && ParseIp(ip).value.big < Pow2(ParseIp(ip).value.Bits())
  {
    hide Split, Pow2, EightGroups, TailToHex, OctetValue;
    hide GroupValue, Power, NormalizeIp, IsGroup, IsLowerGroup, IsOctet;
    Widths();
    var s := NormalizeIp(ip);
    if ':' in s {
      FoldBound(65536, Values(EightGroups(TailToHex(s).value, 1).value));
    } else {
      FoldBound(256, Octets(Split(s, '.')));
    }
  }

  /** The bounds of the aligned block of size 2^(bits - prefix) that the network lies in. */
  function BlockStart(c: Cidr): nat
    requires c.prefix <= c.bits
  {
    AlignedDown(c.network, Pow2(c.bits - c.prefix))
  }

  predicate InBlock(c: Cidr, big: nat)
    requires c.prefix <= c.bits
  {
    BlockStart(c) <= big < BlockStart(c) + Pow2(c.bits - c.prefix)
  }

  /** An address matches a CIDR rule exactly when it is of the same family and lies in the rule's block. */
  lemma CidrMatches(ip: string, rule: string, c: Cidr)
    requires ExpandRule(rule).Some? && '/' in ExpandRule(rule).value && ParseCidr(ExpandRule(rule).value) == Some(c)
    ensures MatchOne(ip, rule)
            <==> ParseIp(ip).Some? && ParseIp(ip).value.version == c.version && InBlock(c, ParseIp(ip).value.big)
  {
    hide Split, Trim, Ipv4, Ipv6Big, NormalizeIp, ExpandRule, ParseIp, Pow2;
    if ParseIp(ip).Some? && ParseIp(ip).value.version == c.version {
      IpBound(ip);
      NetworkBound(ExpandRule(rule).value);
      SameQuotient(ParseIp(ip).value.big, c.network, Pow2(c.bits - c.prefix));
      if c.prefix == 0 { Whole(c.network, Pow2(c.bits)); }
    }
  }

  lemma Whole(network: nat, size: nat)
    requires network < size
    ensures AlignedDown(network, size) == 0
  {}

  lemma NetworkBound(rule: string)
    requires ParseCidr(rule).Some?
    ensures var c := ParseCidr(rule).value; c.network < Pow2(c.bits) && c.bits == Ip(c.version, 0).Bits()
  {
    hide Split, Trim, ParseIp, Pow2;
    IpBound(Split(Trim(rule), '/')[0]);
  }

  // ----- wildcards -----

  lemma OctetsOfFold(o: seq<nat>)
    requires |o| == 4 && forall i :: 0 <= i < 4 ==> o[i] < 256
    ensures Fold(256, o) < TWO32 && OctetsOf(Fold(256, o)) == o
  {
    hide Fold;
    FoldFour(256, o);
    var v := Fold(256, o);
    Quotient(v, 0x100_0000, o[0], (o[1] * 256 + o[2]) * 256 + o[3]);
    Quotient(v, 0x1_0000, o[0] * 256 + o[1], o[2] * 256 + o[3]);
    Quotient(v, 256, (o[0] * 256 + o[1]) * 256 + o[2], o[3]);
    Quotient(o[0] * 256 + o[1], 256, o[0], o[1]);
    Quotient((o[0] * 256 + o[1]) * 256 + o[2], 256, o[0] * 256 + o[1], o[2]);
  }

  lemma FoldOctets(a: nat)
    requires a < TWO32
    ensures Fold(256, OctetsOf(a)) == a
  {
    hide Fold;
    FoldFour(256, OctetsOf(a));
    Nested(a);
  }

  lemma Nested(a: nat)
    ensures a / 256 / 256 == a / 0x1_0000 && a / 0x1_0000 / 256 == a / 0x100_0000
  {
    Quotient(a, 0x1_0000, a / 256 / 256, a / 256 % 256 * 256 + a % 256);
    Quotient(a, 0x100_0000, a / 0x1_0000 / 256, a / 0x1_0000 % 256 * 0x1_0000 + a % 0x1_0000);
  }

  /** Two addresses agree above the last 4 - k octets exactly when their first k octets agree. */
  lemma LeadingAgree(a: nat, b: nat, k: nat)
    requires a < TWO32 && b < TWO32 && 1 <= k <= 4
    ensures a / Pow2(32 - 8 * k) == b / Pow2(32 - 8 * k) <==> OctetsOf(a)[..k] == OctetsOf(b)[..k]
  {
    hide Pow2, OctetsOf;
    TopOctets(a, k);
    TopOctets(b, k);
    var x, y := OctetsOf(a), OctetsOf(b);
    PrefixesAgree(x, y, k);
    SamePair(x[0], x[1], y[0], y[1]);
    SamePair(x[0] * 256 + x[1], x[2], y[0] * 256 + y[1], y[2]);
    SamePair((x[0] * 256 + x[1]) * 256 + x[2], x[3], (y[0] * 256 + y[1]) * 256 + y[2], y[3]);
  }

  /** The number of the first k octets. */
  function Horner(o: seq<nat>, k: nat): nat
    requires |o| == 4 && 1 <= k <= 4
  {
    if k == 1 then o[0] else if k == 2 then o[0] * 256 + o[1]
    else if k == 3 then (o[0] * 256 + o[1]) * 256 + o[2] else ((o[0] * 256 + o[1]) * 256 + o[2]) * 256 + o[3]
  }

  lemma TopOctets(a: nat, k: nat)
    requires a < TWO32 && 1 <= k <= 4
    ensures a / Pow2(32 - 8 * k) == Horner(OctetsOf(a), k)
  {
    assert Pow2(0) == 1;
    hide Pow2, OctetsOf;
    PowersOfTwo();
    FirstOctets(a);
    assert 32 - 8 * k == if k == 1 then 24 else if k == 2 then 16 else if k == 3 then 8 else 0;
  }

  lemma SamePair(x: nat, d: nat, y: nat, e: nat)
    requires d < 256 && e < 256
    ensures x * 256 + d == y * 256 + e <==> x == y && d == e
  {}

  lemma FirstOctets(a: nat)
    requires a < TWO32
    ensures var o := OctetsOf(a);
            && a / 0x100_0000 == o[0] && a / 0x1_0000 == o[0] * 256 + o[1]
            && a / 256 == (o[0] * 256 + o[1]) * 256 + o[2] && a == ((o[0] * 256 + o[1]) * 256 + o[2]) * 256 + o[3]
  {
    Nested(a);
  }

  /** Four octets written with dots are a clean text that reads back as these octets. */
  lemma QuadReads(parts: seq<string>)
    requires IsQuad(parts)
    ensures var s := Join(parts, '.');
            && (forall c :: c in s ==> IsDigit(c) || c == '.') && Ipv4(s) == Some(Fold(256, Octets(parts)))
            && '.' in s && ParseIp(s) == Some(Ip(4, Fold(256, Octets(parts))))
  {
    hide OctetValue;
    var s := Join(parts, '.');
    forall c | c in s ensures IsDigit(c) || c == '.' {
      if c != '.' {
        CharsOfJoin(parts, '.', c);
        var i :| 0 <= i < |parts| && c in parts[i];
        assert IsOctet(parts[i]);
      }
    }
    forall i | 0 <= i < 4 ensures '.' !in parts[i] { assert IsOctet(parts[i]); }
    SplitJoin(parts, '.');
    if '.' !in s { SplitPlain(s, '.'); }
    DigitsAreClean(s);
    CleanIsNormal(s);
    NotMapped(s);
  }

  lemma NotMapped(s: string)
    requires ':' !in s
    ensures !(MAPPED <= s)
  {
    assert MAPPED[0] == ':';
  }

  lemma DigitsAreClean(s: string)
    requires forall c :: c in s ==> IsDigit(c) || c == '.' || c == '/'
    ensures Clean(s) && ':' !in s
  {}

  lemma ZeroIsOctet()
    ensures IsOctet("0") && Number("0") == 0
  {
    assert "0"[..0] == "";
  }

  /** A partial address stands for the block of the addresses that begin with its octets. */
  lemma CompletedReads(cs: seq<string>)
    requires 1 <= |cs| < 4 && forall i :: 0 <= i < |cs| ==> IsOctet(cs[i])
    ensures '/' in Completed(cs) && Clean(Completed(cs))
    ensures var parts := cs + Zeros(4 - |cs|);
            IsQuad(parts) && ParseCidr(Completed(cs)) == Some(Cidr(4, Fold(256, Octets(parts)), 8 * |cs|, 32))
  {
    hide OctetValue, Decimal, Split, Join, ParseIp, IsSpace;
    ZeroIsOctet();
    hide IsOctet;
    var parts := cs + Zeros(4 - |cs|);
    forall i | 0 <= i < 4 ensures IsOctet(parts[i]) {}
    QuadReads(parts);
    var base, len := Join(parts, '.'), Decimal(|cs| * 8);
    DecimalNumber(|cs| * 8);
    ShortDecimal(|cs| * 8);
    var whole := base + "/" + len;
    assert Completed(cs) == whole;
    forall c | c in len ensures IsDigit(c) { var i :| 0 <= i < |len| && len[i] == c; }
    DigitsAreClean(whole);
    CleanIsNormal(whole);
    assert '/' !in base && '/' !in len;
    SplitAppend(base, '/', len);
    SplitPlain(len, '/');
    assert whole == base + ['/'] + len && whole[|base|] == '/';
  }

  lemma ShortDecimal(n: nat)
    requires n < 100
    ensures |Decimal(n)| <= 2
  {}

  /** The rules that are taken as partial IPv4 addresses. */
  predicate IsPartial(r: string) {
    r != "" && '/' !in r && ':' !in r && ('*' in r || r[|r| - 1] == '.' || |Split(r, '.')| < 4)
  }

  /** The rule is a partial address with these concrete octets. */
  predicate IsWildcard(rule: string, cs: seq<string>) {
    IsPartial(Lower(Trim(rule))) && Concrete(Lower(Trim(rule))) == Some(cs) && cs != []
  }

  predicate BeginsWith(a: nat, cs: seq<string>) {
    |cs| <= 4 && forall i :: 0 <= i < |cs| ==> IsOctet(cs[i]) && OctetsOf(a)[i] == OctetValue(cs[i])
  }

  /** A wildcard or partial rule matches exactly the IPv4 addresses whose leading octets are its concrete ones. */
  lemma WildcardMatches(ip: string, rule: string, cs: seq<string>)
    requires IsWildcard(rule, cs)
    ensures MatchOne(ip, rule)
            <==> ParseIp(ip).Some? && ParseIp(ip).value.version == 4 && BeginsWith(ParseIp(ip).value.big, cs)
  {
    hide ParseIp, BeginsWith, Completed, ParseCidr, Pow2, Fold, Octets, IsOctet, ExpandRule, IsWildcard, Clean, Zeros;
    WildcardExpands(rule, cs);
    var addr := ParseIp(ip);
    if addr.Some? && addr.value.version == 4 {
      IpBound(ip);
      Widths();
    }
    if |cs| == 4 {
      FullReads(cs);
      if addr.Some? && addr.value.version == 4 { FullAgrees(addr.value.big, cs); }
    } else {
      CompletedReads(cs);
      if addr.Some? && addr.value.version == 4 { PartAgrees(addr.value.big, cs); }
    }
  }

  lemma WildcardExpands(rule: string, cs: seq<string>)
    requires IsWildcard(rule, cs)
    ensures 1 <= |cs| <= 4 && (forall i :: 0 <= i < |cs| ==> IsOctet(cs[i])) && ExpandRule(rule) == Some(Completed(cs))
  {
    hide Split, Trim, Lower, Completed, DropDot, IsOctet, Leading;
    LeadingOctets(Split(DropDot(Lower(Trim(Lower(Trim(rule))))), '.'), false);
  }

  lemma FullAgrees(a: nat, cs: seq<string>)
    requires a < TWO32 && |cs| == 4 && forall i :: 0 <= i < |cs| ==> IsOctet(cs[i])
    ensures a == Fold(256, Octets(cs)) <==> BeginsWith(a, cs)
  {
    hide Fold, OctetsOf, OctetValue, IsOctet;
    OctetsOfFold(Octets(cs));
    FoldOctets(a);
    assert BeginsWith(a, cs) <==> OctetsOf(a) == Octets(cs);
  }

  lemma PartAgrees(a: nat, cs: seq<string>)
    requires a < TWO32 && 1 <= |cs| < 4 && forall i :: 0 <= i < |cs| ==> IsOctet(cs[i])
    ensures var parts := cs + Zeros(4 - |cs|);
            var size := Pow2(32 - 8 * |cs|);
            IsQuad(parts) && (a / size == Fold(256, Octets(parts)) / size <==> BeginsWith(a, cs))
  {
    hide Fold, OctetsOf, OctetValue, IsOctet, Pow2, Octets;
    Padded(cs);
    OctetsAgree(a, cs, Octets(cs + Zeros(4 - |cs|)));
  }

  lemma OctetsAgree(a: nat, cs: seq<string>, o: seq<nat>)
    requires a < TWO32 && 1 <= |cs| < 4 == |o| && forall i :: 0 <= i < 4 ==> o[i] < 256
    requires forall i :: 0 <= i < |cs| ==> IsOctet(cs[i]) && o[i] == OctetValue(cs[i])
    ensures var size := Pow2(32 - 8 * |cs|); a / size == Fold(256, o) / size <==> BeginsWith(a, cs)
  {
    hide Fold, OctetsOf, OctetValue, IsOctet, Pow2;
    OctetsOfFold(o);
    LeadingAgree(a, Fold(256, o), |cs|);
    PrefixesAgree(OctetsOf(a), o, |cs|);
    assert BeginsWith(a, cs) <==> forall i :: 0 <= i < |cs| ==> OctetsOf(a)[i] == o[i];
  }

  lemma Padded(cs: seq<string>)
    requires |cs| < 4 && forall i :: 0 <= i < |cs| ==> IsOctet(cs[i])
    ensures var parts := cs + Zeros(4 - |cs|);
            IsQuad(parts) && forall i :: 0 <= i < |cs| ==> Octets(parts)[i] == OctetValue(cs[i])
  {
    ZeroIsOctet();
    hide IsOctet, OctetValue;
    var parts := cs + Zeros(4 - |cs|);
    assert forall i :: 0 <= i < 4 ==> IsOctet(parts[i]);
  }

  lemma PrefixesAgree(x: seq<nat>, y: seq<nat>, k: nat)
    requires |x| == |y| == 4 && k <= 4
    ensures x[..k] == y[..k] <==> forall i :: 0 <= i < k ==> x[i] == y[i]
  {
    assert forall i :: 0 <= i < k ==> x[..k][i] == x[i] && y[..k][i] == y[i];
  }

  lemma FullReads(cs: seq<string>)
    requires |cs| == 4 && forall i :: 0 <= i < |cs| ==> IsOctet(cs[i])
    ensures cs + Zeros(0) == cs && '/' !in Completed(cs)
    ensures ParseIp(Completed(cs)) == Some(Ip(4, Fold(256, Octets(cs))))
  {
    hide IsOctet;
    QuadReads(cs);
  }

  /** The parts of a partial address: octets, and "*" for any. */
  predicate ArePieces(parts: seq<string>) {
    1 <= |parts| <= 4 && forall i :: 0 <= i < |parts| ==> IsOctet(parts[i]) || parts[i] == "*"
  }

  /** No octet behind a "*". */
  predicate InOrder(parts: seq<string>) { forall i, j :: 0 <= i < j < |parts| && parts[i] == "*" ==> parts[j] == "*" }

  predicate Fits(a: nat, parts: seq<string>)
    requires ArePieces(parts)
  {
    forall i :: 0 <= i < |parts| && parts[i] != "*" ==> IsOctet(parts[i]) && OctetsOf(a)[i] == OctetValue(parts[i])
  }

  lemma PieceIs(p: string)
    requires IsOctet(p) || p == "*"
    ensures p != "" && '.' !in p && (IsWild(p) <==> p == "*") && (IsOctet(p) <==> p != "*")
    ensures forall c :: c in p ==> IsDigit(c) || c == '*'
    ensures IsDigit(p[|p| - 1]) || p[|p| - 1] == '*'
  {
    if IsOctet(p) { assert IsDigit(p[0]) && IsDigit(p[|p| - 1]); }
  }

  /** How many octets come first. */
  function Octeted(parts: seq<string>): (n: nat)
    ensures n <= |parts| && (forall i :: 0 <= i < n ==> parts[i] != "*") && (n < |parts| ==> parts[n] == "*")
  {
    if parts == [] || parts[0] == "*" then 0 else 1 + Octeted(parts[1..])
  }

  predicate AllStars(parts: seq<string>) { forall i :: 0 <= i < |parts| ==> parts[i] == "*" }

  lemma OrderSplits(parts: seq<string>)
    requires parts != []
    ensures AllStars(parts) <==> parts[0] == "*" && AllStars(parts[1..])
    ensures InOrder(parts) <==> InOrder(parts[1..]) && (parts[0] == "*" ==> AllStars(parts[1..]))
  {
    var rest := parts[1..];
    assert parts == [parts[0]] + rest;
    assert forall i :: 0 <= i < |rest| ==> rest[i] == parts[i + 1];
    if InOrder(rest) && (parts[0] == "*" ==> AllStars(rest)) {
      forall i, j | 0 <= i < j < |parts| && parts[i] == "*" ensures parts[j] == "*" {
        assert rest[j - 1] == parts[j] && (i > 0 ==> rest[i - 1] == parts[i]);
      }
    }
  }

  lemma NoParts()
    ensures InOrder([]) && AllStars([])
  {}

  lemma StarsInOrder(parts: seq<string>)
    ensures AllStars(parts) ==> InOrder(parts)
  {}

  lemma {:induction false} LeadingIs(parts: seq<string>, seenWild: bool)
    requires forall i :: 0 <= i < |parts| ==> IsOctet(parts[i]) || parts[i] == "*"
    ensures Leading(parts, seenWild)
            == if InOrder(parts) && (seenWild ==> AllStars(parts))
               then Some(if seenWild then [] else parts[..Octeted(parts)]) else None
  {
    hide IsOctet, IsWild, InOrder, AllStars;
    assert parts[..0] == [];
    if parts == [] {
      NoParts();
    } else {
      PieceIs(parts[0]);
      LeadingIs(parts[1..], seenWild || parts[0] == "*");
      var rest := parts[1..];
      OrderSplits(parts);
      StarsInOrder(rest);
      if parts[0] != "*" { assert [parts[0]] + rest[..Octeted(rest)] == parts[..Octeted(parts)]; }
    }
  }

  /** The text of a partial address, with or without a dot at its end. */
  function Partial(parts: seq<string>, dot: bool): string { Join(parts, '.') + if dot then "." else "" }

  lemma PartialText(parts: seq<string>, dot: bool)
    requires ArePieces(parts)
    ensures var r := Partial(parts, dot);
            && Clean(r) && r != "" && '/' !in r && ':' !in r && Split(DropDot(r), '.') == parts
            && (dot <==> r[|r| - 1] == '.') && ('*' in r <==> "*" in parts)
            && |Split(r, '.')| == |parts| + if dot then 1 else 0
  {
    hide IsOctet, IsSpace, Split, IsDigit;
    forall i | 0 <= i < |parts|
      ensures parts[i] != "" && '.' !in parts[i] && forall c :: c in parts[i] ==> IsDigit(c) || c == '*'
    {
      PieceIs(parts[i]);
    }
    var text := Join(parts, '.');
    JoinLast(parts);
    SplitJoin(parts, '.');
    forall c | c in text ensures IsDigit(c) || c == '*' || c == '.' {
      if c != '.' {
        CharsOfJoin(parts, '.', c);
        var i :| 0 <= i < |parts| && c in parts[i];
      }
    }
    StarsOfJoin(parts);
    PieceIs(parts[|parts| - 1]);
    var r := Partial(parts, dot);
    assert !dot ==> r == text;
    assert forall c :: c in r ==> c in text || c == '.';
    assert forall c :: c in text ==> c in r;
    PieceChars(r);
    DigitIsNoDot();
    SplitLength(text, "", '.');
    assert text + ['.'] + "" == text + ".";
    assert dot ==> r[..|r| - 1] == text;
    SplitEmpty('.');
  }

  lemma SplitEmpty(sep: char)
    ensures Split("", sep) == [""]
  {}

  lemma DigitIsNoDot()
    ensures !IsDigit('.') && !IsDigit('*')
  {}

  lemma PieceChars(r: string)
    requires forall c :: c in r ==> IsDigit(c) || c == '*' || c == '.'
    ensures Clean(r) && '/' !in r && ':' !in r
  {}

  lemma {:induction false} JoinLast(parts: seq<string>)
    requires |parts| >= 1 && forall i :: 0 <= i < |parts| ==> parts[i] != ""
    ensures var text, last := Join(parts, '.'), parts[|parts| - 1]; text != "" && text[|text| - 1] == last[|last| - 1]
  {
    if |parts| == 1 {
    } else {
      JoinLast(parts[1..]);
    }
  }

  lemma {:induction false} StarsOfJoin(parts: seq<string>)
    requires forall i :: 0 <= i < |parts| ==> IsOctet(parts[i]) || parts[i] == "*"
    ensures '*' in Join(parts, '.') <==> "*" in parts
  {
    if parts == [] {
    } else {
      StarOf(parts[0]);
      StarsOfJoin(parts[1..]);
      assert parts == [parts[0]] + parts[1..];
    }
  }

  lemma StarOf(p: string)
    requires IsOctet(p) || p == "*"
    ensures '*' in p <==> p == "*"
  {}

  /** A partial rule as it is written, "10.*", "192.168." or "192.168.1.*": it matches exactly the IPv4 addresses with
      these octets, and nothing when it begins with a "*" or has an octet behind one. */
  lemma PartialMatches(ip: string, parts: seq<string>, dot: bool)
    requires ArePieces(parts) && (dot || |parts| < 4 || "*" in parts)
    ensures MatchOne(ip, Partial(parts, dot))
            <==> var addr := ParseIp(ip);
                 && addr.Some? && addr.value.version == 4
                 && parts[0] != "*" && InOrder(parts) && Fits(addr.value.big, parts)
  {
    hide IsOctet, ParseIp, Leading, OctetsOf, Clean, Split, Fits, Join, ParseCidr, Pow2, Completed;
    var r := Partial(parts, dot);
    PartialText(parts, dot);
    CleanIsNormal(r);
    LeadingIs(parts, false);
    hide Partial;
    assert Concrete(r) == Leading(parts, false);
    if InOrder(parts) && parts[0] != "*" {
      var cs := parts[..Octeted(parts)];
      assert cs[0] == parts[0];
      assert IsWildcard(r, cs);
      WildcardMatches(ip, r, cs);
      if ParseIp(ip).Some? { FitsIsBegin(ParseIp(ip).value.big, parts); }
    } else {
      assert ExpandRule(r) == None;
    }
  }

  lemma FitsIsBegin(a: nat, parts: seq<string>)
    requires ArePieces(parts) && InOrder(parts)
    ensures forall i :: 0 <= i < Octeted(parts) ==> IsOctet(parts[i])
    ensures Fits(a, parts) <==> BeginsWith(a, parts[..Octeted(parts)])
  {
    hide OctetsOf, OctetValue;
    var n := Octeted(parts);
    assert forall i :: n <= i < |parts| ==> parts[i] == "*";
    assert forall i :: 0 <= i < n ==> parts[..n][i] == parts[i];
  }

  // ----- rules as they are written -----

  lemma SpaceIsNoLetter(c: char)
    ensures IsSpace(LowerChar(c)) == IsSpace(c)
  {}

  lemma {:induction false} TrimStartLower(s: string)
    ensures TrimStart(Lower(s)) == Lower(TrimStart(s))
  {
    hide IsSpace;
    if s == "" {
    } else {
      SpaceIsNoLetter(s[0]);
      TrimStartLower(s[1..]);
      assert Lower(s)[1..] == Lower(s[1..]);
    }
  }

  lemma {:induction false} TrimEndLower(s: string)
    ensures TrimEnd(Lower(s)) == Lower(TrimEnd(s))
  {
    hide IsSpace;
    if s == "" {
    } else {
      SpaceIsNoLetter(s[|s| - 1]);
      TrimEndLower(s[..|s| - 1]);
      assert Lower(s)[..|s| - 1] == Lower(s[..|s| - 1]);
    }
  }

  lemma TrimLower(s: string)
    ensures Trim(Lower(s)) == Lower(Trim(s)) && Lower(Lower(s)) == Lower(s)
  {
    TrimStartLower(s);
    TrimEndLower(TrimStart(s));
  }

  /** Blanks in front of a text that does not begin with one. */
  lemma {:induction false} TrimStartAppend(s: string, t: string)
    requires t != "" && !IsSpace(t[0])
    ensures TrimStart(s + t) == TrimStart(s) + t
  {
    hide IsSpace;
    if s == "" {
      assert s + t == t;
    } else {
      assert (s + t)[1..] == s[1..] + t;
      TrimStartAppend(s[1..], t);
    }
  }

  lemma {:induction false} TrimStartTwice(s: string)
    ensures TrimStart(TrimStart(s)) == TrimStart(s) && (TrimStart(s) != "" ==> !IsSpace(TrimStart(s)[0]))
    ensures forall c :: c in TrimStart(s) ==> c in s
  {
    if s == "" {
    } else {
      TrimStartTwice(s[1..]);
    }
  }

  lemma {:induction false} TrimEndIs(s: string)
    ensures TrimEnd(s) <= s && TrimEnd(TrimEnd(s)) == TrimEnd(s)
    ensures s != "" && !IsSpace(s[0]) ==> TrimEnd(s) != ""
  {
    hide IsSpace;
    if s == "" {
    } else {
      TrimEndIs(s[..|s| - 1]);
    }
  }

  lemma TrimTwice(s: string)
    ensures Trim(Trim(s)) == Trim(s) && Trim(TrimStart(s)) == Trim(s)
    ensures forall c :: c in Trim(s) ==> c in s
  {
    hide IsSpace;
    TrimStartTwice(s);
    var u := TrimStart(s);
    TrimEndIs(u);
    assert TrimStart(TrimEnd(u)) == TrimEnd(u);
  }

  lemma LowerChars(s: string, c: char)
    requires !('A' <= c <= 'Z') && !('a' <= c <= 'z')
    ensures c in Lower(s) <==> c in s
  {
    if c in s {
      var i :| 0 <= i < |s| && s[i] == c;
      assert Lower(s)[i] == c;
    }
    if c in Lower(s) {
      var i :| 0 <= i < |s| && Lower(s)[i] == c;
      assert s[i] == c;
    }
  }

  /** A rule reads the same whether or not it has been trimmed and lower-cased. */
  lemma RuleReads(rule: string)
    ensures ParseIp(Lower(Trim(rule))) == ParseIp(rule) && Trim(Lower(Trim(rule))) == Lower(Trim(rule))
    ensures '/' !in rule ==> '/' !in Lower(Trim(rule))
  {
    hide Trim, Lower, Ipv6Big, Ipv4, Split;
    TrimTwice(rule);
    TrimLower(Trim(rule));
    LowerChars(Trim(rule), '/');
  }

  /** An exact address rule of either family matches exactly the addresses that read alike. */
  lemma ExactMatches(ip: string, rule: string)
    requires '/' !in rule && ParseIp(rule).Some? && !IsPartial(Lower(Trim(rule)))
    ensures MatchOne(ip, rule) <==> ParseIp(ip) == ParseIp(rule)
  {
    hide Trim, Lower, ParseIp, Split, V4Partial, ParseCidr;
    RuleReads(rule);
    NothingIsNoAddress(Lower(Trim(rule)));
  }

  lemma NothingIsNoAddress(r: string)
    ensures r == "" ==> ParseIp(r) == None
  {
    if r == "" {
      assert Trim(r) == "" && Lower("") == "" && CutZone("") == "" && Split("", '.') == [""];
    }
  }

  /** A CIDR rule as it is written, an address, a slash and a length: it matches exactly the addresses of the same
      family in the aligned block of 2^(width - length) addresses that the address lies in, and none when the length is
      not one to three digits or beyond the width. */
  lemma WrittenCidrMatches(ip: string, a: string, length: string)
    requires '/' !in a && '/' !in length && forall c :: c in length ==> !IsSpace(c)
    ensures MatchOne(ip, a + "/" + length)
            <==> var addr, net := ParseIp(ip), ParseIp(a);
                 && addr.Some? && net.Some? && addr.value.version == net.value.version
                 && 1 <= |length| <= 3 && AllDigits(length)
                 && var width := if net.value.version == 4 then 32 else 128;
                    Number(length) <= width
                    && var size := Pow2(width - Number(length));
                       net.value.big / size * size <= addr.value.big < net.value.big / size * size + size
  {
    hide ParseIp, Trim, Lower, Split, Pow2, IsSpace, V4Partial, ParseCidr;
    var rule := a + "/" + length;
    WrittenCidrReads(a, length);
    var r := Lower(Trim(rule));
    if ParseIp(a).Some? { VersionIs(a); }
    if ParseCidr(r).Some? { CidrMatches(ip, rule, ParseCidr(r).value); }
  }

  lemma VersionIs(a: string)
    requires ParseIp(a).Some?
    ensures ParseIp(a).value.version == 4 || ParseIp(a).value.version == 6
  {}

  lemma WrittenCidrReads(a: string, length: string)
    requires '/' !in a && '/' !in length && forall c :: c in length ==> !IsSpace(c)
    ensures var r := Lower(Trim(a + "/" + length));
            && r != "" && '/' in r
            && ParseCidr(r) == var net := ParseIp(a);
                               if net.None? || !(1 <= |length| <= 3 && AllDigits(length))
                                  || Number(length) > net.value.Bits() then None
                               else Some(Cidr(net.value.version, net.value.big, Number(length), net.value.Bits()))
  {
    hide Split, Trim, TrimStart, ParseIp, Number, AllDigits;
    var front, r := TrimStart(a), Lower(Trim(a + "/" + length));
    RuleReads(a + "/" + length);
    CidrText(a, length);
    TrimStartTwice(a);
    LowerChars(front, '/');
    LowerChars(length, '/');
    SplitAppend(Lower(front), '/', Lower(length));
    SplitPlain(Lower(length), '/');
    FrontReads(a);
    DigitsLower(length);
  }

  lemma CidrText(a: string, length: string)
    requires forall c :: c in length ==> !IsSpace(c)
    ensures Lower(Trim(a + "/" + length)) == Lower(TrimStart(a)) + ['/'] + Lower(length)
    ensures '/' in Lower(Trim(a + "/" + length))
  {
    hide IsSpace, TrimStart, Lower;
    SlashIsNoSpace();
    assert a + "/" + length == a + ("/" + length);
    TrimStartAppend(a, "/" + length);
    KeptEnd(TrimStart(a), length);
    LowerJoin(TrimStart(a), length);
  }

  lemma KeptEnd(front: string, length: string)
    requires forall c :: c in length ==> !IsSpace(c)
    ensures TrimEnd(front + ("/" + length)) == front + ("/" + length)
  {
    SlashIsNoSpace();
    hide IsSpace;
    var t := front + ("/" + length);
    assert t[|t| - 1] == ("/" + length)[|length|];
    assert length != "" ==> length[|length| - 1] in length;
  }

  lemma LowerJoin(front: string, back: string)
    ensures Lower(front + ("/" + back)) == Lower(front) + ['/'] + Lower(back)
    ensures '/' in Lower(front + ("/" + back))
  {
    assert LowerChar('/') == '/';
    assert (Lower(front) + ['/'] + Lower(back))[|front|] == '/';
  }

  lemma FrontReads(a: string)
    ensures ParseIp(Lower(TrimStart(a))) == ParseIp(a)
  {
    hide Split, Trim, TrimStart, Lower, Ipv6Big, Ipv4;
    TrimTwice(a);
    TrimLower(TrimStart(a));
    TrimLower(Trim(a));
  }

  lemma SlashIsNoSpace()
    ensures !IsSpace('/')
  {}

  lemma DigitsLower(s: string)
    ensures AllDigits(Lower(s)) <==> AllDigits(s)
    ensures AllDigits(s) ==> Lower(s) == s
  {
    forall i | 0 <= i < |s| ensures IsDigit(Lower(s)[i]) <==> IsDigit(s[i]) {}
    if AllDigits(s) {
      forall i | 0 <= i < |s| ensures Lower(s)[i] == s[i] { assert IsDigit(s[i]); }
    }
  }

  // ----- IPv4-mapped addresses -----

  lemma DottedReads(v: nat)
    requires v < TWO32
    ensures Ipv4(Dotted(v)) == Some(v) && ParseIp(Dotted(v)) == Some(Ip(4, v)) && '.' in Dotted(v) && Clean(Dotted(v))
    ensures forall c :: c in Dotted(v) ==> IsDigit(c) || c == '.'
  {
    hide Fold, OctetsOf, ParseIp, Ipv4, Decimal, Join, Octets, IsSpace;
    var o := OctetsOf(v);
    forall i | 0 <= i < 4 ensures IsOctet(Decimal(o[i])) && OctetValue(Decimal(o[i])) == o[i] {
      DecimalNumber(o[i]);
      ThreeDigits(o[i]);
    }
    hide IsOctet, OctetValue;
    var parts := [Decimal(o[0]), Decimal(o[1]), Decimal(o[2]), Decimal(o[3])];
    assert forall i :: 0 <= i < 4 ==> parts[i] == Decimal(o[i]);
    OctetsAre(parts, o);
    QuadReads(parts);
    FoldOctets(v);
    assert Dotted(v) == Join(parts, '.');
    DigitsAreClean(Dotted(v));
  }

  lemma OctetsAre(parts: seq<string>, o: seq<nat>)
    requires |parts| == |o| == 4 && forall i :: 0 <= i < 4 ==> IsOctet(parts[i]) && OctetValue(parts[i]) == o[i]
    ensures Octets(parts) == o
  {}

  lemma ThreeDigits(n: nat)
    requires n < 256
    ensures |Decimal(n)| <= 3
  {
    assert n >= 10 ==> Decimal(n) == Decimal(n / 10) + [DigitChar(n % 10)];
    assert n >= 100 ==> Decimal(n / 10) == Decimal(n / 10 / 10) + [DigitChar(n / 10 % 10)];
  }

  /** What becomes of every address that `ipv6ToBig` accepts once it is cleaned. One that begins with "::ffff:" is taken
      for IPv4 exactly when it denotes an IPv4-mapped address; when it does not and has a dotted tail it is refused,
      because what is left of it without the prefix is no address. Every other one stays IPv6, a mapped address among
      them. */
  lemma Folding(ip: string)
    requires Ipv6Big(Cleaned(ip)).Some?
    ensures var s := Cleaned(ip);
            var big := Ipv6Big(s).value;
            ParseIp(ip) == if !(MAPPED <= s) then Some(Ip(6, big))
                           else if big / TWO32 == 0xffff then Some(Ip(4, big % TWO32))
                           else if '.' in s then None
                           else Some(Ip(6, big))
  {
    hide Cleaned, Split, IsSpace, Clean, Dotted, Ipv4, EightGroups, AllLower, TailToHex;
    var s := Cleaned(ip);
    var big := Ipv6Big(s).value;
    if MAPPED <= s {
      if '.' in s {
        DottedMapped(s);
      } else if big / TWO32 == 0xffff {
        DottedReads(big % TWO32);
        NoColon(Dotted(big % TWO32));
      }
    }
  }

  /** What is left of the dotted form without the prefix. */
  lemma DottedMapped(s: string)
    requires Ipv6Big(s).Some? && MAPPED <= s && '.' in s
    ensures var big := Ipv6Big(s).value;
            if big / TWO32 == 0xffff then ':' !in s[7..] && Ipv4(s[7..]) == Some(big % TWO32)
            else ':' in s[7..] && Ipv6Big(s[7..]).None?
  {
    hide Ipv6Big, Ipv4, Split, LastColon;
    assert s[6] == ':';
    assert ':' in s;
    var at := LastColon(s);
    NotLater(s, at, 6);
    DotInTail(s);
    if at == 6 {
      assert s == MAPPED + s[7..];
      QuadText(s[7..]);
      MappedValue(s[7..]);
    } else {
      RestIsNoAddress(s);
    }
  }

  /** A dot in an accepted text is after the last colon, in an IPv4 tail. */
  lemma DotInTail(s: string)
    requires Ipv6Big(s).Some? && '.' in s
    ensures '.' in s[LastColon(s) + 1..] && Ipv4(s[LastColon(s) + 1..]).Some?
  {
    hide Ipv4, EightGroups, AllLower, LastColon, Values;
    if '.' !in s[LastColon(s) + 1..] { NoDots(s); }
  }

  lemma NoDots(str: string)
    requires EightGroups(str, 1).Some? && AllLower(EightGroups(str, 1).value)
    ensures '.' !in str
  {
    hide EightGroups;
    if '.' in str { GroupChars(str, 1, '.'); }
  }

  lemma NotLater(s: string, at: nat, i: nat)
    requires at < |s| && ':' !in s[at + 1..] && i < |s| && s[i] == ':'
    ensures i <= at
  {
    forall j | at < j < |s| ensures s[j] != ':' { assert s[at + 1..][j - at - 1] == s[j]; }
  }

  lemma LastColonAt(front: string, back: string)
    requires ':' !in back
    ensures LastColon(front + ":" + back) == |front|
  {
    hide LastColon;
    var s := front + ":" + back;
    var at := LastColon(s);
    assert s[|front|] == ':';
    NotLater(s, at, |front|);
    if at > |front| { PastFront(front, back, at); }
  }

  lemma PastFront(front: string, back: string, j: nat)
    requires |front| < j <= |front| + |back|
    ensures (front + ":" + back)[j] in back
  {
    assert (front + ":" + back)[j] == back[j - |front| - 1];
  }

  lemma {:induction false} JoinAppend(front: seq<string>, back: seq<string>, sep: char)
    requires |front| >= 1 && |back| >= 1
    ensures Join(front + back, sep) == Join(front, sep) + [sep] + Join(back, sep)
  {
    if |front| == 1 {
      assert (front + back)[1..] == back;
    } else {
      assert (front + back)[1..] == front[1..] + back;
      JoinAppend(front[1..], back, sep);
    }
  }

  /** The groups of a text that consists of "::", a few groups and a dotted tail. */
  function TailGroups(front: seq<string>, v: nat): (g: seq<string>)
    requires |front| <= 6
    ensures |g| == 8
  {
    Zeros(6 - |front|) + (front + [HexText(v / 65536 % 65536), HexText(v % 65536)])
  }

  /** What the rewriting of a dotted tail gives. */
  lemma TailRewritten(head: string, v4: string)
    requires Ipv4(v4).Some?
    ensures var s, v := head + ":" + v4, Ipv4(v4).value;
            && ':' in s && '.' in s && LastColon(s) == |head|
            && TailToHex(s) == Some(head + ":" + (HexText(v / 65536 % 65536) + ":" + HexText(v % 65536)))
  {
    hide LastColon, HexText, Ipv4;
    QuadText(v4);
    LastColonAt(head, v4);
    var s, v := head + ":" + v4, Ipv4(v4).value;
    assert s[|head|] == ':' && s[|head| + 1..] == v4 && s[..|head| + 1] == head + ":";
    Regroup(head + ":", HexText(v / 65536 % 65536), HexText(v % 65536));
  }

  lemma Regroup(a: string, b: string, c: string)
    ensures a + b + ":" + c == a + (b + ":" + c)
  {}

  lemma GapTail(front: seq<string>, v4: string)
    requires 1 <= |front| <= 5 && AllLower(front) && Ipv4(v4).Some?
    ensures var s, groups := "::" + Join(front, ':') + ":" + v4, TailGroups(front, Ipv4(v4).value);
            ':' in s && '.' in s && AllLower(groups) && Ipv6Big(s) == Some(Fold(65536, Values(groups)))
  {
    hide Join, HexText, Ipv4, TailToHex, AllLower, Values, EightGroups, Fold;
    var v := Ipv4(v4).value;
    var pair := [HexText(v / 65536 % 65536), HexText(v % 65536)];
    GapParts(front, v);
    TailRewritten("::" + Join(front, ':'), v4);
    JoinAppend(front, pair, ':');
    JoinPair(pair);
    var text := Join(front + pair, ':');
    Rejoin(Join(front, ':'), pair[0] + ":" + pair[1]);
    GapSplits(text, front + pair);
  }

  lemma Rejoin(front: string, back: string)
    ensures "::" + front + ":" + back == "::" + (front + ":" + back)
  {}

  lemma JoinPair(pair: seq<string>)
    requires |pair| == 2
    ensures Join(pair, ':') == pair[0] + ":" + pair[1]
  {}

  lemma GapParts(front: seq<string>, v: nat)
    requires |front| <= 6 && AllLower(front)
    ensures AllLower(front + [HexText(v / 65536 % 65536), HexText(v % 65536)]) && AllLower(TailGroups(front, v))
  {
    hide HexText;
    HexTextValue(v / 65536 % 65536);
    HexTextValue(v % 65536);
    assert IsLowerGroup("0");
    hide IsLowerGroup, IsGroup;
    var groups := TailGroups(front, v);
    LowerIsGroup("0");
    LowerIsGroup(HexText(v / 65536 % 65536));
    LowerIsGroup(HexText(v % 65536));
    forall i | 0 <= i < |groups| ensures IsLowerGroup(groups[i]) && IsGroup(groups[i]) {
      assert groups[i] in ["0", HexText(v / 65536 % 65536), HexText(v % 65536)] || groups[i] in front;
    }
  }

  lemma GapSplits(text: string, written: seq<string>)
    requires 1 <= |written| <= 7 && AllLower(written) && text == Join(written, ':')
    ensures EightGroups("::" + text, 1) == Some(Zeros(8 - |written|) + written)
  {
    hide Split, SplitDouble, Join, IsLowerGroup, IsGroup, AllLower;
    forall i | 0 <= i < |written| ensures written[i] != "" && ':' !in written[i] { LowerAt(written, i); }
    NoDoubleJoin(written);
    SplitJoin(written, ':');
    GapDouble(text);
    assert SplitDouble("::" + text) == ["", text];
    assert Groups("") == [] && Groups(text) == written;
    assert [] + Zeros(8 - |written|) + written == Zeros(8 - |written|) + written;
  }

  lemma LowerAt(groups: seq<string>, i: nat)
    requires AllLower(groups) && i < |groups|
    ensures groups[i] != "" && ':' !in groups[i]
  {
    GroupHasNoColon(groups[i]);
  }

  lemma GapDouble(text: string)
    ensures SplitDouble("::" + text) == [""] + SplitDouble(text)
  {
    assert ("::" + text)[2..] == text;
  }

  /** The dotted "::ffff:" form denotes the mapped address of its tail. */
  lemma MappedValue(v4: string)
    requires Ipv4(v4).Some?
    ensures Ipv4(v4).value < TWO32 && Ipv6Big(MAPPED + v4) == Some(0xffff * TWO32 + Ipv4(v4).value)
  {
    hide Split, Ipv6Big, Fold, Octets, HexText;
    var v := Ipv4(v4).value;
    QuadValue(Split(v4, '.'));
    FfffIsGroup();
    GapTail(["ffff"], v4);
    HexTextValue(v / 65536);
    HexTextValue(v % 65536);
    MappedGroups(HexText(v / 65536), HexText(v % 65536));
    assert Join(["ffff"], ':') == "ffff" && "::" + "ffff" + ":" + v4 == MAPPED + v4;
    assert Zeros(5) + (["ffff"] + [HexText(v / 65536), HexText(v % 65536)])
        == ["0", "0", "0", "0", "0", "ffff", HexText(v / 65536), HexText(v % 65536)];
  }

  lemma FfffIsGroup()
    ensures IsLowerGroup("ffff") && AllLower(["ffff"]) && AllLower(["ffff", "0"]) && GroupValue("ffff") == 0xffff
    ensures IsLowerGroup("0") && GroupValue("0") == 0
  {
    assert "ffff"[..3] == "fff" && "fff"[..2] == "ff" && "ff"[..1] == "f" && "f"[..0] == "";
    assert "0"[..0] == "";
  }

  // ----- more groups after the prefix -----

  lemma {:induction false} SingleIsWhole(s: string)
    requires |SplitDouble(s)| == 1
    ensures SplitDouble(s) == [s]
  {
    if |s| < 2 {
    } else {
      SingleIsWhole(s[1..]);
      assert s == [s[0]] + s[1..];
    }
  }

  lemma {:induction false} SingleSuffix(s: string, n: nat)
    requires n <= |s| && |SplitDouble(s)| == 1
    ensures |SplitDouble(s[n..])| == 1
  {
    if n == 0 || |s| < 2 {
    } else {
      assert s[1..][n - 1..] == s[n..];
      SingleSuffix(s[1..], n - 1);
    }
  }

  lemma {:induction false} SplitLength(a: string, b: string, sep: char)
    ensures |Split(a + [sep] + b, sep)| == |Split(a, sep)| + |Split(b, sep)|
  {
    var whole := a + [sep] + b;
    if a == "" {
      assert whole[1..] == b;
    } else {
      assert whole[1..] == a[1..] + [sep] + b;
      SplitLength(a[1..], b, sep);
    }
  }

  lemma {:induction false} FoldAtLeast(base: nat, digits: seq<nat>, i: nat)
    requires i < |digits|
    ensures Fold(base, digits) >= digits[i] * Power(base, |digits| - 1 - i)
  {
    if i < |digits| - 1 {
      var front := digits[..|digits| - 1];
      FoldAtLeast(base, front, i);
      Scale(Fold(base, front), digits[i], Power(base, |front| - 1 - i), base);
    } else {
      assert Power(base, 0) == 1;
    }
  }

  lemma Scale(a: nat, d: nat, p: nat, base: nat)
    requires a >= d * p
    ensures a * base >= d * (base * p)
  {
    assert d * (base * p) == d * p * base;
    if base > 0 && d * p < a { Multiple(a - d * p, base); }
    Distribute(a, d * p, base);
  }

  /** The text behind "::ffff:" when there are more groups before the dotted tail: it has too few to be an address, and
      the whole is no mapped address, for 0xffff stands above its low 48 bits. */
  lemma RestIsNoAddress(s: string)
    requires MAPPED <= s && Ipv6Big(s).Some? && LastColon(s) > 6 && Ipv4(s[LastColon(s) + 1..]).Some?
    ensures ':' in s[7..] && Ipv6Big(s[7..]).None? && Ipv6Big(s).value / TWO32 != 0xffff
  {
    hide Split, SplitDouble, LastColon, HexText, Ipv4, TailToHex, EightGroups, AllLower, Values, Fold;
    var front, v4 := s[7..LastColon(s)], s[LastColon(s) + 1..];
    var v := Ipv4(v4).value;
    var rest := front + ":" + (HexText(v / 65536 % 65536) + ":" + HexText(v % 65536));
    AfterPrefix(s, front, v4);
    TailRewritten(front, v4);
    FewGroups(rest, Split(rest, ':'));
  }

  lemma AfterPrefix(s: string, front: string, v4: string)
    requires MAPPED <= s && ':' in s && LastColon(s) > 6
    requires front == s[7..LastColon(s)] && v4 == s[LastColon(s) + 1..] && Ipv4(v4).Some?
    ensures var v := Ipv4(v4).value; var rest := front + ":" + (HexText(v / 65536 % 65536) + ":" + HexText(v % 65536));
            && s[7..] == front + ":" + v4 && TailToHex(s) == Some("::" + ("ffff:" + rest)) && |Split(rest, ':')| >= 3
  {
    hide Split, LastColon, HexText, Ipv4, TailToHex;
    var at, v := LastColon(s), Ipv4(v4).value;
    var pair := HexText(v / 65536 % 65536) + ":" + HexText(v % 65536);
    CutAt(s, at);
    TailRewritten(MAPPED + front, v4);
    Reassociate(front, pair);
    SplitLength(front, pair, ':');
    SplitLength(HexText(v / 65536 % 65536), HexText(v % 65536), ':');
  }

  lemma CutAt(s: string, at: nat)
    requires MAPPED <= s && 7 <= at < |s| && s[at] == ':'
    ensures s == MAPPED + s[7..at] + ":" + s[at + 1..] && s[7..] == s[7..at] + ":" + s[at + 1..]
  {}

  lemma Reassociate(front: string, pair: string)
    ensures MAPPED + front + ":" + pair == "::" + ("ffff:" + (front + ":" + pair))
  {}

  lemma FewGroups(rest: string, parts: seq<string>)
    requires EightGroups("::" + ("ffff:" + rest), 1).Some? && AllLower(EightGroups("::" + ("ffff:" + rest), 1).value)
    requires parts == Split(rest, ':') && |parts| >= 3
    ensures EightGroups(rest, 1).None?
    ensures Fold(65536, Values(EightGroups("::" + ("ffff:" + rest), 1).value)) / TWO32 != 0xffff
  {
    hide Split, SplitDouble, IsLowerGroup, IsGroup, GroupValue, Fold, EightGroups;
    FfffGroups(rest, parts);
    var groups := EightGroups("::" + ("ffff:" + rest), 1).value;
    FfffIsGroup();
    FoldAtLeast(65536, Values(groups), 7 - |parts|);
    HighGroup(Fold(65536, Values(groups)), |parts|);
  }

  lemma FfffGroups(rest: string, parts: seq<string>)
    requires EightGroups("::" + ("ffff:" + rest), 1).Some? && parts == Split(rest, ':') && |parts| >= 3
    ensures |parts| <= 6 && EightGroups("::" + ("ffff:" + rest), 1).value[7 - |parts|] == "ffff"
    ensures EightGroups(rest, 1).None?
  {
    hide Split, SplitDouble, Groups;
    var tail := "ffff:" + rest;
    GapDouble(tail);
    FfffParts(rest, parts);
    assert SplitDouble("::" + tail) == ["", tail];
    assert EightGroups("::" + tail, 1).value == [] + Zeros(7 - |parts|) + (["ffff"] + parts);
  }

  /** Behind a single "::" the text after "ffff:" has no gap of its own. */
  lemma FfffParts(rest: string, parts: seq<string>)
    requires parts == Split(rest, ':') && |parts| >= 3
    ensures Groups("") == [] && Groups("ffff:" + rest) == ["ffff"] + parts && Groups(rest) == parts
    ensures |SplitDouble("ffff:" + rest)| == 1 ==>
      SplitDouble("ffff:" + rest) == ["ffff:" + rest] && SplitDouble(rest) == [rest]
  {
    assert rest == "" ==> |parts| == 1;
    hide Split, SplitDouble;
    var tail := "ffff:" + rest;
    assert "ffff" + [':'] + rest == tail;
    SplitAppend("ffff", ':', rest);
    if |SplitDouble(tail)| == 1 {
      SingleIsWhole(tail);
      SingleSuffix(tail, 5);
      assert tail[5..] == rest;
      SingleIsWhole(rest);
    }
  }

  lemma HighGroup(big: nat, n: nat)
    requires n >= 3 && big >= 0xffff * Power(65536, n)
    ensures big / TWO32 != 0xffff
  {
    PowerPlus(65536, 3, n - 3);
    assert Power(65536, 3) == 0x1_0000_0000_0000;
    PowerPositive(65536, n - 3);
    hide Power;
    Multiple(Power(65536, n - 3) - 1, 0x1_0000_0000_0000);
  }

  lemma {:induction false} PowerPositive(base: nat, n: nat)
    requires base > 0
    ensures Power(base, n) > 0
  {
    if n == 0 {
    } else {
      PowerPositive(base, n - 1);
    }
  }

  /** An accepted address that is refused: "::ffff:0:1.2.3.4" is IPv6 text whose number is not a mapped one, and the
      text that is left without its prefix is no address. */
  lemma TranslatedIsRefused(v4: string)
    requires Ipv4(v4).Some?
    ensures var s := "::ffff:0:" + v4;
            Ipv6Big(s) == Some(0xffff * 0x1_0000 * TWO32 + Ipv4(v4).value) && ParseIp(s) == None
  {
    hide Split, Ipv6Big, Fold, Octets, HexText, ParseIp;
    var v, s := Ipv4(v4).value, "::ffff:0:" + v4;
    QuadValue(Split(v4, '.'));
    FfffIsGroup();
    GapTail(["ffff", "0"], v4);
    assert Join(["ffff", "0"], ':') == "ffff:0" && "::" + "ffff:0" + ":" + v4 == s;
    TranslatedValue(v);
    QuadText(v4);
    DigitsAreClean(v4);
    TranslatedIsClean(v4);
    CleanIsNormal(s);
    Folding(s);
  }

  lemma TranslatedIsClean(v4: string)
    requires Clean(v4)
    ensures Clean("::ffff:0:" + v4) && MAPPED <= "::ffff:0:" + v4
  {}

  lemma TranslatedValue(v: nat)
    requires v < TWO32 && AllLower(TailGroups(["ffff", "0"], v))
    ensures Fold(65536, Values(TailGroups(["ffff", "0"], v))) == 0xffff * 0x1_0000 * TWO32 + v
  {
    hide Fold, HexText;
    HexTextValue(v / 65536);
    HexTextValue(v % 65536);
    FfffIsGroup();
    hide GroupValue, IsGroup, IsLowerGroup;
    var groups := TailGroups(["ffff", "0"], v);
    assert groups == ["0", "0", "0", "0", "ffff", "0", HexText(v / 65536), HexText(v % 65536)];
    var h, l := v / 65536, v % 65536;
    assert Values(groups) == [0, 0, 0, 0, 0xffff, 0, h, l];
    FoldTranslated(h, l);
  }

  lemma FoldTranslated(h: nat, l: nat)
    ensures Fold(65536, [0, 0, 0, 0, 0xffff, 0, h, l]) == 0xffff * 0x1_0000 * TWO32 + h * 0x1_0000 + l
  {
    var v: seq<nat>, zeros: seq<nat> := [0, 0, 0, 0, 0xffff, 0, h, l], seq(4, i => 0);
    FoldZeros(65536, 4);
    assert v[..7][..6] == v[..6] && v[..6][..5] == v[..5] && v[..5][..4] == zeros;
    assert Fold(65536, v[..5]) == 0xffff;
    assert Fold(65536, v[..6]) == 0xffff * 65536;
    assert Fold(65536, v[..7]) == 0xffff * 65536 * 65536 + h;
  }

  lemma NoColon(s: string)
    requires forall c :: c in s ==> IsDigit(c) || c == '.'
    ensures ':' !in s
  {}

  /** The full form of a mapped address stays an IPv6 address, so no IPv4 rule applies to it. */
  lemma FullFormIsNotFolded(high: nat, low: nat)
    requires high < 0x1_0000 && low < 0x1_0000
    ensures var s := Join(["0", "0", "0", "0", "0", "ffff", HexText(high), HexText(low)], ':');
            && Ipv6Big(s) == Some(0xffff * TWO32 + high * 0x1_0000 + low)
            && ParseIp(s) == Some(Ip(6, 0xffff * TWO32 + high * 0x1_0000 + low))
  {
    hide Join, HexText, Ipv6Big, ParseIp, Split;
    var groups := ["0", "0", "0", "0", "0", "ffff", HexText(high), HexText(low)];
    HexTextValue(high);
    HexTextValue(low);
    MappedGroups(HexText(high), HexText(low));
    FullTextReads(groups);
    var s := Join(groups, ':');
    HexIsClean(s);
    CleanIsNormal(s);
    assert !(MAPPED <= s) by { FirstOfJoin(groups); }
    Folding(s);
  }

  lemma FirstOfJoin(groups: seq<string>)
    requires |groups| == 8 && groups[0] == "0"
    ensures Join(groups, ':')[..1] == "0" && !(MAPPED <= Join(groups, ':'))
  {
    assert Join(groups, ':')[0] == '0' && MAPPED[0] == ':';
  }

  lemma HexIsClean(s: string)
    requires ':' in s && forall c :: c in s ==> c == ':' || IsLowerHex(c)
    ensures Clean(s) && '.' !in s
  {}

  lemma MappedGroups(high: string, low: string)
    requires IsLowerGroup(high) && IsLowerGroup(low)
    ensures var groups := ["0", "0", "0", "0", "0", "ffff", high, low];
            && AllLower(groups)
            && Fold(65536, Values(groups)) == 0xffff * TWO32 + HexNumber(high) * 0x1_0000 + HexNumber(low)
  {
    FfffIsGroup();
    hide HexNumber, IsLowerHex;
    LowerIsGroup(high);
    LowerIsGroup(low);
    var h, l := GroupValue(high), GroupValue(low);
    hide GroupValue, IsLowerGroup, IsGroup;
    LowerIsGroup("0");
    LowerIsGroup("ffff");
    var groups := ["0", "0", "0", "0", "0", "ffff", high, low];
    assert AllLower(groups);
    var v := Values(groups);
    assert v == [0, 0, 0, 0, 0, 0xffff, h, l];
    FoldMapped(h, l);
  }

  lemma FoldMapped(h: nat, l: nat)
    ensures Fold(65536, [0, 0, 0, 0, 0, 0xffff, h, l]) == 0xffff * TWO32 + h * 0x1_0000 + l
  {
    var v: seq<nat>, zeros: seq<nat> := [0, 0, 0, 0, 0, 0xffff, h, l], seq(5, i => 0);
    FoldZeros(65536, 5);
    assert v[..7][..6] == v[..6] && v[..6][..5] == zeros;
    assert Fold(65536, v[..6]) == 0xffff;
    assert Fold(65536, v[..7]) == 0xffff * 65536 + h;
  }

  /** The dotted "::ffff:" form is folded to its tail. */
  lemma DottedFolds(v4: string)
    requires Ipv4(v4).Some?
    ensures ParseIp(MAPPED + v4) == ParseIp(v4) == Some(Ip(4, Ipv4(v4).value))
  {
    hide Split, IsSpace, Ipv6Big, Octets, Fold;
    QuadText(v4);
    DigitsAreClean(v4);
    var s := MAPPED + v4;
    assert Clean(s) by { MappedIsClean(v4); }
    CleanIsNormal(v4);
    CleanIsNormal(s);
    NotMapped(v4);
    assert s[7..] == v4;
  }

  lemma MappedIsClean(v4: string)
    requires Clean(v4)
    ensures Clean(MAPPED + v4)
  {}

  lemma QuadText(v4: string)
    requires Ipv4(v4).Some?
    ensures '.' in v4 && forall c :: c in v4 ==> IsDigit(c) || c == '.'
  {
    hide Split;
    if '.' !in v4 { SplitPlain(v4, '.'); }
    forall c | c in v4 ensures IsDigit(c) || c == '.' {
      if c != '.' {
        SplitChars(v4, '.', c);
        var i :| 0 <= i < |Split(v4, '.')| && c in Split(v4, '.')[i];
        assert IsOctet(Split(v4, '.')[i]);
      }
    }
  }

  /** A folded address matches exactly the rules that its dotted IPv4 form matches. */
  lemma FoldedMatches(ip: string, rule: string)
    requires Ipv6Big(Cleaned(ip)).Some? && MAPPED <= Cleaned(ip) && Ipv6Big(Cleaned(ip)).value / TWO32 == 0xffff
    ensures MatchOne(ip, rule) <==> MatchOne(Dotted(Ipv6Big(Cleaned(ip)).value % TWO32), rule)
  {
    hide ParseIp, ExpandRule, ParseCidr, Pow2, Cleaned, Ipv6Big, Dotted;
    Folding(ip);
    DottedReads(Ipv6Big(Cleaned(ip)).value % TWO32);
  }

  lemma DottedFoldedMatches(v4: string, rule: string)
    requires Ipv4(v4).Some?
    ensures MatchOne(MAPPED + v4, rule) <==> MatchOne(v4, rule)
  {
    hide ParseIp, ExpandRule, ParseCidr, Pow2, Ipv4;
    DottedFolds(v4);
  }

  // ----- the decision -----

  predicate IsParseable(ip: string) {
    var s := NormalizeIp(ip);
    Ipv4(s).Some? || Ipv6Big(s).Some?
  }

  /** `isParseable` and `parseIp` accept the same addresses. */
  lemma ParseableIsParsed(ip: string)
    ensures IsParseable(ip) <==> ParseIp(ip).Some?
  {
    hide Split, NormalizeIp;
    var s := NormalizeIp(ip);
    if ':' in s && Ipv4(s).Some? { QuadText(s); }
  }

  predicate IsLoopback(ip: string) { MatchOne(ip, "127.0.0.0/8") || MatchOne(ip, "::1") }

  datatype Verdict = Verdict(allowed: bool, reason: string)

  /** `evaluate`. */
  function Evaluate(ip: string, allow: seq<string>, deny: seq<string>, allowLoopback: bool): Verdict {
    if allowLoopback && IsLoopback(ip) then Verdict(true, "loopback")
    else if (|allow| > 0 || |deny| > 0) && !IsParseable(ip) then Verdict(false, "unparseable")
    else if MatchesAny(ip, deny) then Verdict(false, "denied")
    else if |allow| > 0 && !MatchesAny(ip, allow) then Verdict(false, "not-allowed")
    else Verdict(true, "ok")
  }

  /** Who is let in: loopback when exempt, everyone when there are no lists, and otherwise exactly the addresses that
      parse, match no deny rule, and match some allow rule if there are any. */
  lemma Admitted(ip: string, allow: seq<string>, deny: seq<string>, allowLoopback: bool)
    ensures Evaluate(ip, allow, deny, allowLoopback).allowed
            <==> || (allowLoopback && IsLoopback(ip))
                 || (allow == [] && deny == [])
                 || (&& ParseIp(ip).Some?
                     && (forall r :: r in deny ==> !MatchOne(ip, r))
                     && (allow == [] || exists r :: r in allow && MatchOne(ip, r)))
  {
    hide MatchOne, IsLoopback, IsParseable, ParseIp;
    ParseableIsParsed(ip);
    if MatchesAny(ip, deny) {
      var i :| 0 <= i < |deny| && MatchOne(ip, deny[i]);
      assert deny[i] in deny;
    }
    if r :| r in allow && MatchOne(ip, r) {
      var i :| 0 <= i < |allow| && allow[i] == r;
      assert MatchesAny(ip, allow);
    }
  }

  /** A list of one exact address lets in that address alone, or shuts it out alone. */
  lemma ListedAlone(ip: string, rule: string)
    requires '/' !in rule && ParseIp(rule).Some? && !IsPartial(Lower(Trim(rule)))
    ensures Evaluate(ip, [rule], [], false).allowed <==> ParseIp(ip) == ParseIp(rule)
    ensures Evaluate(ip, [], [rule], false).allowed <==> ParseIp(ip).Some? && ParseIp(ip) != ParseIp(rule)
  {
    hide MatchOne, ParseIp, Evaluate, IsPartial, Trim, Lower;
    ExactMatches(ip, rule);
    assert rule in [rule];
    Admitted(ip, [rule], [], false);
    Admitted(ip, [], [rule], false);
  }

  lemma LocalOctets()
    ensures IsOctet("127") && OctetValue("127") == 127 && IsOctet("0") && OctetValue("0") == 0
  {
    ZeroIsOctet();
    assert "127"[..2] == "12" && "12"[..1] == "1" && "1"[..0] == "";
  }

  lemma LocalText()
    ensures Completed(["127"]) == "127.0.0.0/8"
  {
    var parts := ["127"] + Zeros(3);
    assert parts == ["127", "0", "0", "0"];
    assert Decimal(8) == "8";
    hide Decimal;
    assert parts[1..] == ["0", "0", "0"] && parts[1..][1..] == ["0", "0"] && parts[1..][1..][1..] == ["0"];
    assert Join(["0", "0"], '.') == "0" + "." + "0";
    assert Join(["0", "0", "0"], '.') == "0" + "." + ("0" + "." + "0");
    assert Join(parts, '.') == "127" + "." + ("0" + "." + ("0" + "." + "0"));
  }

  lemma LocalBlock()
    ensures ExpandRule("127.0.0.0/8") == Some("127.0.0.0/8")
    ensures ParseCidr("127.0.0.0/8") == Some(Cidr(4, 127 * 0x100_0000, 8, 32))
  {
    hide Split, IsSpace, ParseIp, Fold, OctetValue, IsOctet, Completed, Join, Decimal;
    var cs := ["127"];
    LocalOctets();
    LocalText();
    CompletedReads(cs);
    CleanIsNormal(Completed(cs));
    var parts := cs + Zeros(3);
    assert parts == ["127", "0", "0", "0"];
    FoldFour(256, Octets(parts));
  }

  lemma {:induction false} FoldZeros(base: nat, n: nat)
    ensures Fold(base, seq(n, i => 0)) == 0
  {
    if n == 0 {
    } else {
      FoldZeros(base, n - 1);
      var zeros: seq<nat>, fewer: seq<nat> := seq(n, i => 0), seq(n - 1, i => 0);
      assert zeros[..n - 1] == fewer;
    }
  }

  lemma LocalGroups()
    ensures EightGroups("::1", 1) == Some(Zeros(7) + ["1"])
  {
    assert "::1"[2..] == "1" && SplitDouble("1") == ["1"];
    assert SplitDouble("::1") == ["", "1"];
    hide SplitDouble;
    SplitPlain("1", ':');
    assert [] + Zeros(7) + ["1"] == Zeros(7) + ["1"];
  }

  lemma LocalValue()
    ensures AllLower(Zeros(7) + ["1"]) && Fold(65536, Values(Zeros(7) + ["1"])) == 1
  {
    assert "0"[..0] == "" && "1"[..0] == "" && GroupValue("0") == 0 && GroupValue("1") == 1;
    assert IsLowerGroup("0") && IsLowerGroup("1") && IsGroup("0") && IsGroup("1");
    hide IsLowerGroup, IsGroup, GroupValue;
    var groups := Zeros(7) + ["1"];
    assert forall i :: 0 <= i < 8 ==> groups[i] == "0" || groups[i] == "1";
    var zeros: seq<nat> := seq(7, i => 0);
    assert Values(groups)[..7] == zeros;
    FoldZeros(65536, 7);
  }

  lemma LocalIsClean()
    ensures Clean("::1")
  {}

  lemma LocalSix()
    ensures ExpandRule("::1") == Some("::1") && ParseIp("::1") == Some(Ip(6, 1)) && '/' !in "::1"
  {
    hide Split, SplitDouble, LastColon, EightGroups, AllLower, Fold, IsSpace, Values;
    LocalIsClean();
    CleanIsNormal("::1");
    assert LastColon("::1") == 1;
    assert "::1"[2..] == "1";
    LocalGroups();
    LocalValue();
  }

  /** Loopback is 127.0.0.0/8 and ::1. */
  lemma LoopbackAddresses(ip: string)
    ensures IsLoopback(ip)
            <==> var addr := ParseIp(ip);
                 && addr.Some?
                 && (addr.value == Ip(6, 1) || (addr.value.version == 4 && OctetsOf(addr.value.big)[0] == 127))
  {
    hide ParseIp, ExpandRule, ParseCidr, Pow2;
    LocalBlock();
    LocalSix();
    if ParseIp(ip).Some? && ParseIp(ip).value.version == 4 {
      IpBound(ip);
      Widths();
      FirstOctets(ParseIp(ip).value.big);
    }
  }
}
