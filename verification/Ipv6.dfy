/** The two readers of IPv6 text (section 2.2 of RFC 4291): `ipv6ToBig` of lib/IpMatch.js and `ipv6ToBytes` of
    lib/Cert.js; and `ipv4ToBig`. */
module Ipv6 {
  import opened Bytes
  import opened Wrappers
  import opened Text

  // ----- numbers from digits -----

  function Fold(base: nat, digits: seq<nat>): nat {
    if digits == [] then 0 else Fold(base, digits[..|digits| - 1]) * base + digits[|digits| - 1]
  }

  // ----- IPv4 -----

  predicate IsOctet(p: string) { 1 <= |p| <= 3 && AllDigits(p) && Number(p) <= 255 }

  function OctetValue(p: string): (v: nat)
    requires IsOctet(p)
    ensures v <= 255
  {
    Number(p)
  }

  predicate IsQuad(parts: seq<string>) { |parts| == 4 && forall i :: 0 <= i < |parts| ==> IsOctet(parts[i]) }

  function Octets(parts: seq<string>): (o: seq<nat>)
    requires forall i :: 0 <= i < |parts| ==> IsOctet(parts[i])
    ensures |o| == |parts| && forall i :: 0 <= i < |o| ==> o[i] <= 255
  {
    seq(|parts|, i requires 0 <= i < |parts| => OctetValue(parts[i]))
  }

  function Ipv4(s: string): Option<nat> {
    var parts := Split(s, '.');
    if IsQuad(parts) then Some(Fold(256, Octets(parts))) else None
  }

  method Ipv4ToBig(s: string) returns (r: Option<nat>)
    ensures r == Ipv4(s)
  {
    hide Split, OctetValue;
    var parts := Split(s, '.');
    if |parts| != 4 { return None; }
    var n := 0;
    for i := 0 to |parts|
      invariant forall j :: 0 <= j < i ==> IsOctet(parts[j])
      invariant n == Fold(256, Octets(parts[..i]))
    {
      if !IsOctet(parts[i]) { return None; }
      assert Octets(parts[..i + 1])[..i] == Octets(parts[..i]);
      n := n * 256 + OctetValue(parts[i]);
    }
    assert parts[..|parts|] == parts;
    r := Some(n);
  }

  // ----- hexadecimal -----

  predicate IsLowerHex(c: char) { IsDigit(c) || 'a' <= c <= 'f' }

  predicate IsHex(c: char) { IsLowerHex(c) || 'A' <= c <= 'F' }

  function HexValue(c: char): (v: nat)
    requires IsHex(c)
    ensures v < 16
  {
    if IsDigit(c) then DigitValue(c) else if c >= 'a' then c as int - 'a' as int + 10 else c as int - 'A' as int + 10
  }

  function HexChar(v: nat): (c: char)
    requires v < 16
    ensures IsLowerHex(c) && HexValue(c) == v
  {
    if v < 10 then DigitChar(v) else ('a' as int + v - 10) as char
  }

  /** `toString(16)`. */
  function HexText(n: nat): string {
    if n < 16 then [HexChar(n)] else HexText(n / 16) + [HexChar(n % 16)]
  }

  /** `parseInt(s, 16)` of hexadecimal digits. */
  function HexNumber(s: string): nat
    requires forall i :: 0 <= i < |s| ==> IsHex(s[i])
  {
    if s == "" then 0 else 16 * HexNumber(s[..|s| - 1]) + HexValue(s[|s| - 1])
  }

  predicate IsLowerGroup(g: string) { 1 <= |g| <= 4 && forall i :: 0 <= i < |g| ==> IsLowerHex(g[i]) }

  predicate IsGroup(g: string) { 1 <= |g| <= 4 && forall i :: 0 <= i < |g| ==> IsHex(g[i]) }

  function GroupValue(g: string): (v: nat)
    requires IsGroup(g)
    ensures v < 65536
  {
    GroupBound(g);
    HexNumber(g)
  }

  lemma GroupBound(g: string)
    requires IsGroup(g)
    ensures HexNumber(g) < 65536
  {
    HexBound(g, 65536);
  }

  function Pow16(n: nat): nat { if n == 0 then 1 else 16 * Pow16(n - 1) }

  lemma {:induction false} HexLess(s: string)
    requires forall i :: 0 <= i < |s| ==> IsHex(s[i])
    ensures HexNumber(s) < Pow16(|s|)
  {
    if s == "" {
    } else {
      HexLess(s[..|s| - 1]);
    }
  }

  lemma HexBound(g: string, limit: nat)
    requires IsGroup(g) && limit == 65536
    ensures HexNumber(g) < limit
  {
    HexLess(g);
    assert Pow16(1) == 16 && Pow16(2) == 256 && Pow16(3) == 4096 && Pow16(4) == 65536;
  }

  /** The text of a number below 65536 is a group with its value. */
  lemma HexTextValue(n: nat)
    requires n < 65536
    ensures IsLowerGroup(HexText(n)) && HexNumber(HexText(n)) == n
  {
    HexDigits(n, 4);
    assert Pow16(1) == 16 && Pow16(2) == 256 && Pow16(3) == 4096 && Pow16(4) == 65536;
  }

  lemma {:induction false} HexDigits(n: nat, w: nat)
    requires w >= 1 && n < Pow16(w)
    ensures 1 <= |HexText(n)| <= w && (forall i :: 0 <= i < |HexText(n)| ==> IsLowerHex(HexText(n)[i]))
    ensures HexNumber(HexText(n)) == n
  {
    if n < 16 {
      assert HexText(n)[..0] == "";
    } else {
      HexDigits(n / 16, w - 1);
      assert HexText(n)[..|HexText(n)| - 1] == HexText(n / 16);
    }
  }

  // ----- splitting -----

  /** `s.split("::")`. */
  function SplitDouble(s: string): (parts: seq<string>)
    ensures |parts| >= 1
  {
    if |s| < 2 then [s]
    else if s[0] == ':' && s[1] == ':' then [""] + SplitDouble(s[2..])
    else var rest := SplitDouble(s[1..]); [[s[0]] + rest[0]] + rest[1..]
  }

  function LastColon(s: string): (i: nat)
    requires ':' in s
    ensures i < |s| && s[i] == ':' && ':' !in s[i + 1..]
  {
    if s[|s| - 1] == ':' then |s| - 1 else LastColon(s[..|s| - 1])
  }

  function Groups(half: string): seq<string> { if half == "" then [] else Split(half, ':') }

  function Zeros(n: nat): (z: seq<string>)
    ensures |z| == n && forall i :: 0 <= i < n ==> z[i] == "0"
  {
    seq(n, i => "0")
  }

  // ----- ipv6ToBig -----

  /** A dotted tail becomes two hexadecimal groups. */
  function TailToHex(s: string): Option<string>
    requires ':' in s
  {
    var at := LastColon(s);
    var tail := s[at + 1..];
    if '.' !in tail then Some(s)
    else
      var v := Ipv4(tail);
      if v.None? then None else Some(s[..at + 1] + HexText(v.value / 65536 % 65536) + ":" + HexText(v.value % 65536))
  }

  /** The eight groups of the text, "::" standing for at least `least` of them. */
  function EightGroups(str: string, least: int): (groups: Option<seq<string>>)
    ensures groups.Some? ==> |groups.value| == 8
  {
    var halves := SplitDouble(str);
    if |halves| > 2 then None
    else if |halves| == 1 then
      if |Groups(halves[0])| == 8 then Some(Groups(halves[0])) else None
    else
      var fill := 8 - (|Groups(halves[0])| + |Groups(halves[1])|);
      if fill < least || fill < 0 then None else Some(Groups(halves[0]) + Zeros(fill) + Groups(halves[1]))
  }

  function Values(groups: seq<string>): (v: seq<nat>)
    requires forall i :: 0 <= i < |groups| ==> IsGroup(groups[i])
    ensures |v| == |groups| && forall i :: 0 <= i < |v| ==> v[i] < 65536
  {
    seq(|groups|, i requires 0 <= i < |groups| => GroupValue(groups[i]))
  }

  predicate AllLower(groups: seq<string>) {
    forall i :: 0 <= i < |groups| ==> IsLowerGroup(groups[i]) && IsGroup(groups[i])
  }

  predicate AllGroups(groups: seq<string>) { forall i :: 0 <= i < |groups| ==> IsGroup(groups[i]) }

  function Ipv6Big(s: string): Option<nat> {
    if ':' !in s then None
    else
      var str := TailToHex(s);
      if str.None? then None
      else
        var groups := EightGroups(str.value, 1);
        if groups.None? || !AllLower(groups.value) then None else Some(Fold(65536, Values(groups.value)))
  }

  method ExpandGroups(str: string, least: int) returns (r: Option<seq<string>>)
    ensures r == EightGroups(str, least)
  {
    hide Split, SplitDouble;
    var halves := SplitDouble(str);
    if |halves| > 2 { return None; }
    var groups := Groups(halves[0]);
    if |halves| == 2 {
      var back := Groups(halves[1]);
      var missing := 8 - (|groups| + |back|);
      if missing < least || missing < 0 { return None; }
      groups := groups + Zeros(missing) + back;
    }
    if |groups| != 8 { return None; }
    r := Some(groups);
  }

  method Ipv6ToBig(s: string) returns (r: Option<nat>)
    ensures r == Ipv6Big(s)
  {
    hide Ipv4, HexText, EightGroups, AllLower;
    if ':' !in s { return None; }
    var str, lastColon := s, LastColon(s);
    var tail := s[lastColon + 1..];
    if '.' in tail {
      var v4 := Ipv4ToBig(tail);
      if v4.None? { return None; }
      str := s[..lastColon + 1] + HexText(v4.value / 65536 % 65536) + ":" + HexText(v4.value % 65536);
    }
    var groups := ExpandGroups(str, 1);
    if groups.None? { return None; }
    r := GroupsToBig(groups.value);
  }

  method GroupsToBig(groups: seq<string>) returns (r: Option<nat>)
    ensures r == if AllLower(groups) then Some(Fold(65536, Values(groups))) else None
  {
    hide IsLowerGroup, IsGroup, GroupValue;
    var n := 0;
    for i := 0 to |groups|
      invariant AllLower(groups[..i]) && AllGroups(groups[..i])
      invariant n == Fold(65536, Values(groups[..i]))
    {
      if !IsLowerGroup(groups[i]) { return None; }
      LowerIsGroup(groups[i]);
      assert Values(groups[..i + 1])[..i] == Values(groups[..i]);
      n := n * 65536 + GroupValue(groups[i]);
    }
    assert groups[..|groups|] == groups;
    r := Some(n);
  }

  lemma LowerIsGroup(g: string)
    requires IsLowerGroup(g)
    ensures IsGroup(g)
  {}

  // ----- ipv6ToBytes -----

  function StripFirst(s: string, c: char): string { if |s| > 0 && s[0] == c then s[1..] else s }

  function StripLast(s: string, c: char): string { if |s| > 0 && s[|s| - 1] == c then s[..|s| - 1] else s }

  /** The literal without brackets and zone. */
  function Bare(input: string): string { Split(StripLast(StripFirst(input, '['), ']'), '%')[0] }

  predicate IsTail(parts: seq<string>) {
    |parts| == 4 && forall i :: 0 <= i < |parts| ==> 1 <= |parts[i]| <= 3 && AllDigits(parts[i])
  }

  /** What `.` of the pattern before the tail does not match. */
  predicate HasLineBreak(s: string) { '\n' in s || '\r' in s || '\U{2028}' in s || '\U{2029}' in s }

  /** An embedded IPv4 tail, when there is one, becomes two hextets. */
  function EmbeddedToHex(s: string): Option<string>
    requires ':' in s
  {
    var at := LastColon(s);
    var parts := Split(s[at + 1..], '.');
    if HasLineBreak(s[..at]) || !IsTail(parts) then Some(s)
    else if exists i :: 0 <= i < 4 && Number(parts[i]) > 255 then None
    else
      Some(s[..at + 1] + HexText(Number(parts[0]) * 256 + Number(parts[1])) + ":"
           + HexText(Number(parts[2]) * 256 + Number(parts[3])))
  }

  function GroupBytes(groups: seq<string>): (b: Buffer)
    requires AllGroups(groups)
    ensures |b| == 2 * |groups|
  {
    if groups == [] then []
    else
      var v := GroupValue(groups[|groups| - 1]);
      GroupBytes(groups[..|groups| - 1]) + [v / 256, v % 256]
  }

  function Ipv6Bytes(input: string): (r: Option<Buffer>)
    ensures r.Some? ==> |r.value| == 16
  {
    var s := Bare(input);
    if ':' !in s then None
    else
      var str := EmbeddedToHex(s);
      if str.None? then None
      else
        var groups := EightGroups(str.value, 0);
        if groups.None? || !AllGroups(groups.value) then None else Some(GroupBytes(groups.value))
  }

  method Ipv6ToBytes(input: string) returns (r: Option<Buffer>)
    ensures r == Ipv6Bytes(input)
  {
    hide Bare, EmbeddedToHex, EightGroups, AllGroups;
    var s := Bare(input);
    if ':' !in s { return None; }
    var str := EmbeddedToHex(s);
    if str.None? { return None; }
    var groups := ExpandGroups(str.value, 0);
    if groups.None? { return None; }
    r := GroupsToBytes(groups.value);
  }

  method GroupsToBytes(groups: seq<string>) returns (r: Option<Buffer>)
    ensures r == if AllGroups(groups) then Some(GroupBytes(groups)) else None
  {
    hide IsGroup, GroupValue;
    var bytes: Buffer := [];
    for i := 0 to |groups|
      invariant AllGroups(groups[..i]) && bytes == GroupBytes(groups[..i])
    {
      if !IsGroup(groups[i]) { return None; }
      assert groups[..i + 1][..i] == groups[..i];
      var v := GroupValue(groups[i]);
      bytes := bytes + [v / 256, v % 256];
    }
    assert groups[..|groups|] == groups;
    r := Some(bytes);
  }

  // ----- agreement -----

  lemma {:induction false} BytesAreValue(groups: seq<string>)
    requires AllGroups(groups)
    ensures FromBigEndian(GroupBytes(groups)) == Fold(65536, Values(groups))
  {
    hide IsGroup, GroupValue;
    if groups == [] {
    } else {
      var front, v := groups[..|groups| - 1], GroupValue(groups[|groups| - 1]);
      BytesAreValue(front);
      var b := GroupBytes(front);
      assert Values(groups)[..|groups| - 1] == Values(front);
      TwoBytes(b, v / 256, v % 256);
    }
  }

  lemma TwoBytes(b: Buffer, high: byte, low: byte)
    ensures FromBigEndian(b + [high, low]) == 65536 * FromBigEndian(b) + 256 * high + low
  {
    assert (b + [high, low])[..|b| + 1] == b + [high];
    assert (b + [high])[..|b|] == b;
  }

  /** Every character of a split text is in a part, or the separator. */
  lemma {:induction false} SplitChars(s: string, sep: char, c: char)
    requires c in s && c != sep
    ensures exists i :: 0 <= i < |Split(s, sep)| && c in Split(s, sep)[i]
  {
    var rest := Split(s[1..], sep);
    if c in s[1..] {
      SplitChars(s[1..], sep, c);
      var i :| 0 <= i < |rest| && c in rest[i];
      if s[0] == sep {
        assert Split(s, sep)[i + 1] == rest[i];
      } else {
        assert c in Split(s, sep)[i];
      }
    } else {
      assert c in Split(s, sep)[0];
    }
  }

  lemma {:induction false} SplitDoubleChars(s: string, c: char)
    requires c in s && c != ':'
    ensures exists i :: 0 <= i < |SplitDouble(s)| && c in SplitDouble(s)[i]
  {
    if |s| >= 2 {
      if s[0] == ':' && s[1] == ':' {
        var rest := SplitDouble(s[2..]);
        assert c in s[2..];
        SplitDoubleChars(s[2..], c);
        var i :| 0 <= i < |rest| && c in rest[i];
        assert SplitDouble(s)[i + 1] == rest[i];
      } else if c in s[1..] {
        var rest := SplitDouble(s[1..]);
        SplitDoubleChars(s[1..], c);
        var i :| 0 <= i < |rest| && c in rest[i];
        assert c in SplitDouble(s)[i];
      } else {
        assert c in SplitDouble(s)[0];
      }
    } else {
      assert SplitDouble(s)[0] == s;
    }
  }

  /** The characters of a text with eight good groups are hexadecimal digits and colons. */
  lemma GroupChars(str: string, least: int, c: char)
    requires EightGroups(str, least).Some? && AllGroups(EightGroups(str, least).value) && c in str
    ensures c == ':' || IsHex(c)
    ensures AllLower(EightGroups(str, least).value) ==> c == ':' || IsLowerHex(c)
  {
    hide Split, SplitDouble, IsHex, IsLowerHex;
    if c != ':' {
      SplitDoubleChars(str, c);
      var halves := SplitDouble(str);
      var i :| 0 <= i < |halves| && c in halves[i];
      SplitChars(halves[i], ':', c);
      var parts := Groups(halves[i]);
      var j :| 0 <= j < |parts| && c in parts[j];
      var groups := EightGroups(str, least).value;
      var at := if i == 0 then j else |groups| - |parts| + j;
      assert groups[at] == parts[j];
      var x :| 0 <= x < |parts[j]| && parts[j][x] == c;
    }
  }

  lemma {:induction false} PartChars(s: string, sep: char, i: nat, c: char)
    requires i < |Split(s, sep)| && c in Split(s, sep)[i]
    ensures c in s
  {
    if s == "" {
    } else {
      var rest := Split(s[1..], sep);
      if s[0] == sep {
        if i > 0 { PartChars(s[1..], sep, i - 1, c); }
      } else if i > 0 {
        PartChars(s[1..], sep, i, c);
      } else if c != s[0] {
        PartChars(s[1..], sep, 0, c);
      }
    }
  }

  lemma {:induction false} HalfChars(s: string, i: nat, c: char)
    requires i < |SplitDouble(s)| && c in SplitDouble(s)[i]
    ensures c in s
  {
    if |s| < 2 {
    } else {
      if s[0] == ':' && s[1] == ':' {
        if i > 0 { HalfChars(s[2..], i - 1, c); }
      } else if i > 0 {
        HalfChars(s[1..], i, c);
      } else if c != s[0] {
        HalfChars(s[1..], 0, c);
      }
    }
  }

  /** A written group has no characters of its own. */
  lemma GroupsFromText(str: string, least: int, i: nat, c: char)
    requires EightGroups(str, least).Some? && i < |EightGroups(str, least).value|
    requires c in EightGroups(str, least).value[i]
    ensures c == '0' || c in str
  {
    hide Split, SplitDouble;
    var halves := SplitDouble(str);
    var head := Groups(halves[0]);
    if i < |head| {
      PartChars(halves[0], ':', i, c);
      HalfChars(str, 0, c);
    } else {
      var back := Groups(halves[1]);
      var j := i - (8 - |back|);
      if j >= 0 {
        assert EightGroups(str, least).value[i] == back[j];
        PartChars(halves[1], ':', j, c);
        HalfChars(str, 1, c);
      }
    }
  }

  // ----- the dotted tail -----

  lemma QuadValue(parts: seq<string>)
    requires IsQuad(parts)
    ensures var v := Fold(256, Octets(parts)); var o := Octets(parts);
            && v / 65536 % 65536 == o[0] * 256 + o[1] && v % 65536 == o[2] * 256 + o[3]
            && v == 65536 * (o[0] * 256 + o[1]) + o[2] * 256 + o[3] && v < 0x1_0000_0000
  {
    hide OctetValue, IsOctet;
    var o := Octets(parts);
    FoldFour(256, o);
    var high, low := o[0] * 256 + o[1], o[2] * 256 + o[3];
    assert Fold(256, o) == 65536 * high + low;
    assert (65536 * high + low) / 65536 == high && (65536 * high + low) % 65536 == low;
  }

  lemma FoldFour(base: nat, d: seq<nat>)
    requires |d| == 4
    ensures Fold(base, d) == ((d[0] * base + d[1]) * base + d[2]) * base + d[3]
  {
    assert d[..3][..2] == d[..2] && d[..2][..1] == d[..1] && d[..1][..0] == [];
    assert Fold(base, d[..1]) == d[0];
    assert Fold(base, d[..2]) == d[0] * base + d[1];
    assert Fold(base, d[..3]) == (d[0] * base + d[1]) * base + d[2];
  }

  /** Whether the text has an embedded IPv4 address in the view of `ipv6ToBytes`. */
  predicate HasTail(s: string)
    requires ':' in s
  {
    !HasLineBreak(s[..LastColon(s)]) && IsTail(Split(s[LastColon(s) + 1..], '.'))
  }

  /** The two readers treat a good dotted tail alike. */
  lemma TailsAgree(s: string)
    requires ':' in s && '.' in s[LastColon(s) + 1..] && HasTail(s)
    ensures EmbeddedToHex(s) == TailToHex(s)
  {
    hide Split, LastColon, HexText;
    var parts := Split(s[LastColon(s) + 1..], '.');
    if IsQuad(parts) {
      QuadValue(parts);
      assert forall i :: 0 <= i < 4 ==> Number(parts[i]) == Octets(parts)[i];
    } else {
      assert exists i :: 0 <= i < 4 && Number(parts[i]) > 255;
    }
  }

  lemma NoTail(s: string)
    requires ':' in s && '.' !in s[LastColon(s) + 1..]
    ensures EmbeddedToHex(s) == Some(s) == TailToHex(s)
  {
    hide Split, LastColon;
    SplitPlain(s[LastColon(s) + 1..], '.');
  }

  predicate IsPlain(c: char) { c == ':' || c == '.' || IsLowerHex(c) }

  /** What `ipv6ToBig` accepts consists of lower-case hexadecimal digits, colons and dots. */
  lemma AcceptedChars(s: string, c: char)
    requires Ipv6Big(s).Some? && c in s
    ensures IsPlain(c)
  {
    hide Split, SplitDouble, IsLowerHex, IsHex, LastColon, HexText, IsGroup, IsLowerGroup, EightGroups;
    var str, at := TailToHex(s).value, LastColon(s);
    if c in str {
      GroupChars(str, 1, c);
    } else {
      assert s == s[..at + 1] + s[at + 1..];
      assert c in s[at + 1..];
      QuadChars(s[at + 1..], c);
    }
  }

  lemma QuadChars(tail: string, c: char)
    requires Ipv4(tail).Some? && c in tail
    ensures c == '.' || IsLowerHex(c)
  {
    hide Split;
    if c != '.' { SplitChars(tail, '.', c); }
  }

  lemma PlainIsBare(s: string)
    requires forall c :: c in s ==> IsPlain(c)
    ensures Bare(s) == s && !HasLineBreak(s)
  {
    hide Split;
    assert '%' !in s && '[' !in s && ']' !in s;
    SplitPlain(s, '%');
  }

  /** The text of a good address has an embedded address exactly when there is a dot after the last colon. */
  lemma DottedTail(s: string)
    requires Ipv6Big(s).Some?
    ensures EmbeddedToHex(s) == TailToHex(s)
  {
    hide Split, LastColon, HexText, EightGroups, IsPlain;
    if '.' in s[LastColon(s) + 1..] {
      forall c | c in s ensures IsPlain(c) { AcceptedChars(s, c); }
      PlainIsBare(s);
      NoLineBreak(s, LastColon(s));
      assert IsQuad(Split(s[LastColon(s) + 1..], '.'));
      TailsAgree(s);
    } else {
      NoTail(s);
    }
  }

  lemma NoLineBreak(s: string, at: nat)
    requires at <= |s| && !HasLineBreak(s)
    ensures !HasLineBreak(s[..at])
  {}

  /** Whatever `ipv6ToBig` accepts, `ipv6ToBytes` accepts, and its 16 octets are the same integer. */
  lemma ParsersAgree(s: string)
    requires Ipv6Big(s).Some?
    ensures Ipv6Bytes(s).Some? && FromBigEndian(Ipv6Bytes(s).value) == Ipv6Big(s).value
  {
    hide EmbeddedToHex, TailToHex, SplitDouble, Bare, IsPlain, IsGroup, IsLowerGroup, FromBigEndian;
    forall c | c in s ensures IsPlain(c) { AcceptedChars(s, c); }
    PlainIsBare(s);
    DottedTail(s);
    BytesAreValue(EightGroups(TailToHex(s).value, 1).value);
  }

  /** "::" that stands for no group at all. */
  predicate EmptyGap(s: string) {
    ':' in s && EmbeddedToHex(s).Some?
    && var halves := SplitDouble(EmbeddedToHex(s).value);
       |halves| == 2 && |Groups(halves[0])| + |Groups(halves[1])| == 8
  }

  predicate HasUpper(s: string) { exists c :: c in s && 'A' <= c <= 'F' }

  /** What `ipv6ToBytes` accepts beyond `ipv6ToBig`: brackets and zones, upper-case digits, and a "::" for no group. */
  lemma BytesAcceptsMore(s: string)
    requires Ipv6Bytes(s).Some?
    ensures Ipv6Big(s).Some? <==> Bare(s) == s && !HasUpper(s) && !EmptyGap(s)
  {
    hide Split, SplitDouble, Bare, LastColon, HexText, IsGroup, IsLowerGroup, EightGroups, EmbeddedToHex;
    if Ipv6Big(s).Some? {
      forall c | c in s ensures IsPlain(c) { AcceptedChars(s, c); }
      PlainIsBare(s);
      DottedTail(s);
      GapIsZero(EmbeddedToHex(s).value);
    } else if Bare(s) == s && !HasUpper(s) && !EmptyGap(s) {
      BytesThenBig(s);
    }
  }

  lemma GapIsZero(str: string)
    ensures EightGroups(str, 1).Some? ==> EightGroups(str, 0) == EightGroups(str, 1)
    ensures EightGroups(str, 0).Some?
            ==> (EightGroups(str, 1).None?
                 <==> |SplitDouble(str)| == 2 && |Groups(SplitDouble(str)[0])| + |Groups(SplitDouble(str)[1])| == 8)
  {
    hide SplitDouble, Split;
  }

  lemma BytesThenBig(s: string)
    requires Ipv6Bytes(s).Some? && Bare(s) == s && !HasUpper(s) && !EmptyGap(s)
    ensures Ipv6Big(s).Some?
  {
    hide Split, SplitDouble, Bare, LastColon, HexText, IsGroup, IsLowerGroup, EightGroups, EmbeddedToHex, TailToHex;
    var str := EmbeddedToHex(s).value;
    if '.' in s[LastColon(s) + 1..] {
      if HasTail(s) { TailsAgree(s); } else { UnchangedTail(s); GroupChars(s, 0, '.'); }
    } else {
      NoTail(s);
    }
    GapIsZero(str);
    var groups := EightGroups(str, 1).value;
    forall i | 0 <= i < |groups| ensures IsLowerGroup(groups[i]) {
      forall c | c in groups[i] ensures !('A' <= c <= 'F') {
        GroupsFromText(str, 1, i, c);
        HexedChars(s, c);
      }
      LowerGroup(groups[i]);
    }
  }

  lemma LowerGroup(g: string)
    requires IsGroup(g) && forall c :: c in g ==> !('A' <= c <= 'F')
    ensures IsLowerGroup(g)
  {
    forall i | 0 <= i < |g| ensures IsLowerHex(g[i]) { assert IsHex(g[i]) && g[i] in g; }
  }

  lemma UnchangedTail(s: string)
    requires ':' in s && !HasTail(s)
    ensures EmbeddedToHex(s) == Some(s)
  {
    hide Split, LastColon;
  }

  /** Rewriting the tail introduces no upper-case digits. */
  lemma HexedChars(s: string, c: char)
    requires ':' in s && EmbeddedToHex(s).Some?
    ensures c in EmbeddedToHex(s).value && c !in s ==> !('A' <= c <= 'F')
  {
    hide Split, LastColon, HexText;
    if HasTail(s) {
      var parts := Split(s[LastColon(s) + 1..], '.');
      var high, low := Number(parts[0]) * 256 + Number(parts[1]), Number(parts[2]) * 256 + Number(parts[3]);
      if EmbeddedToHex(s).Some? && high < 65536 && low < 65536 {
        HexTextValue(high);
        HexTextValue(low);
      }
    }
  }

  // ----- full texts -----

  lemma {:induction false} NoDoubleAppend(p: string, rest: string)
    requires p != "" && ':' !in p && rest != "" && rest[0] != ':' && SplitDouble(rest) == [rest]
    ensures SplitDouble(p + ":" + rest) == [p + ":" + rest]
  {
    var whole := p + ":" + rest;
    if |p| == 1 {
      assert whole[1..] == ":" + rest && whole[1..][1..] == rest;
      assert SplitDouble(":" + rest) == [":" + rest];
    } else {
      assert whole[1..] == p[1..] + ":" + rest && whole[1] == p[1];
      NoDoubleAppend(p[1..], rest);
    }
    assert whole == [whole[0]] + whole[1..];
  }

  lemma {:induction false} NoDoublePlain(p: string)
    requires ':' !in p
    ensures SplitDouble(p) == [p]
  {
    if |p| < 2 {
    } else {
      NoDoublePlain(p[1..]);
      assert p == [p[0]] + p[1..];
    }
  }

  lemma {:induction false} NoDoubleJoin(parts: seq<string>)
    requires |parts| >= 1 && forall i :: 0 <= i < |parts| ==> parts[i] != "" && ':' !in parts[i]
    ensures SplitDouble(Join(parts, ':')) == [Join(parts, ':')] && Join(parts, ':') != "" && Join(parts, ':')[0] != ':'
  {
    if |parts| == 1 {
      NoDoublePlain(parts[0]);
    } else {
      NoDoubleJoin(parts[1..]);
      NoDoubleAppend(parts[0], Join(parts[1..], ':'));
    }
    assert parts[0][0] in parts[0];
  }

  lemma GroupHasNoColon(g: string)
    requires IsLowerGroup(g)
    ensures g != "" && ':' !in g && '.' !in g && IsGroup(g)
  {}

  lemma {:induction false} JoinHas(parts: seq<string>, sep: char)
    requires |parts| >= 2
    ensures sep in Join(parts, sep)
  {
    assert Join(parts, sep)[|parts[0]|] == sep;
  }

  lemma {:induction false} CharsOfJoin(parts: seq<string>, sep: char, c: char)
    requires c in Join(parts, sep) && c != sep
    ensures exists i :: 0 <= i < |parts| && c in parts[i]
  {
    if |parts| > 1 && c !in parts[0] {
      CharsOfJoin(parts[1..], sep, c);
      var i :| 0 <= i < |parts[1..]| && c in parts[1..][i];
      assert c in parts[i + 1];
    }
  }

  /** Eight groups written out in full read as the number they are the digits of. */
  lemma FullTextReads(groups: seq<string>)
    requires |groups| == 8 && AllLower(groups)
    ensures var s := Join(groups, ':');
            && ':' in s && (forall c :: c in s ==> c == ':' || IsLowerHex(c))
            && Ipv6Big(s) == Some(Fold(65536, Values(groups)))
  {
    hide Split, SplitDouble, Join, IsLowerGroup, IsGroup, IsLowerHex, LastColon, Fold, Values;
    var s := Join(groups, ':');
    forall i | 0 <= i < |groups|
      ensures groups[i] != "" && ':' !in groups[i] && '.' !in groups[i] && IsGroup(groups[i])
    {
      GroupHasNoColon(groups[i]);
    }
    JoinHas(groups, ':');
    NoDoubleJoin(groups);
    SplitJoin(groups, ':');
    forall c | c in s ensures c == ':' || IsLowerHex(c) {
      if c != ':' {
        CharsOfJoin(groups, ':', c);
        var i :| 0 <= i < |groups| && c in groups[i];
        LowerGroupChars(groups[i], c);
      }
    }
    DotIsNotHex();
    assert '.' !in s[LastColon(s) + 1..];
  }

  lemma LowerGroupChars(g: string, c: char)
    requires IsLowerGroup(g) && c in g
    ensures IsLowerHex(c)
  {}

  lemma DotIsNotHex()
    ensures !IsLowerHex('.')
  {}

  // ----- gaps -----

  lemma {:induction false} DoubleSplits(p: string, w: string)
    requires SplitDouble(p) == [p] && (p != "" ==> p[|p| - 1] != ':')
    ensures SplitDouble(p + "::" + w) == [p] + SplitDouble(w)
  {
    var s := p + "::" + w;
    if p == "" {
      assert s == "::" + w && s[2..] == w;
    } else {
      assert s[1..] == p[1..] + "::" + w && p == [p[0]] + p[1..];
      if |p| >= 2 {
        assert s[0] == p[0] && s[1] == p[1];
        assert SplitDouble(p)[0][1..] == SplitDouble(p[1..])[0];
      }
      DoubleSplits(p[1..], w);
    }
  }

  lemma NoDoubleParts(parts: seq<string>)
    requires AllLower(parts)
    ensures var text := Join(parts, ':');
            && SplitDouble(text) == [text] && (text != "" ==> text[|text| - 1] != ':') && Groups(text) == parts
            && forall c :: c in text ==> c == ':' || IsLowerHex(c)
  {
    hide Split, SplitDouble, IsLowerGroup, IsGroup, IsLowerHex;
    forall i | 0 <= i < |parts| ensures parts[i] != "" && ':' !in parts[i] { GroupHasNoColon(parts[i]); }
    if parts == [] {
      NoDoublePlain("");
    } else {
      NoDoubleJoin(parts);
      SplitJoin(parts, ':');
      JoinEnds(parts);
    }
    var text := Join(parts, ':');
    forall c | c in text ensures c == ':' || IsLowerHex(c) {
      if c != ':' {
        CharsOfJoin(parts, ':', c);
        var i :| 0 <= i < |parts| && c in parts[i];
        LowerGroupChars(parts[i], c);
      }
    }
  }

  lemma {:induction false} JoinEnds(parts: seq<string>)
    requires |parts| >= 1 && forall i :: 0 <= i < |parts| ==> parts[i] != "" && ':' !in parts[i]
    ensures var text := Join(parts, ':'); text != "" && text[|text| - 1] != ':'
  {
    if |parts| == 1 {
      assert parts[0][|parts[0]| - 1] in parts[0];
    } else {
      JoinEnds(parts[1..]);
    }
  }

  lemma GapText(front: seq<string>, back: seq<string>)
    requires AllLower(front) && AllLower(back)
    ensures var p, w := Join(front, ':'), Join(back, ':');
            && SplitDouble(p + "::" + w) == [p, w] && Groups(p) == front && Groups(w) == back
            && ':' in p + "::" + w && '.' !in p + "::" + w
  {
    hide Split, SplitDouble, Join, IsLowerGroup, IsGroup, IsLowerHex, Groups, AllLower;
    var p, w := Join(front, ':'), Join(back, ':');
    NoDoubleParts(front);
    NoDoubleParts(back);
    DoubleSplits(p, w);
    assert [p] + [w] == [p, w];
    assert (p + "::" + w)[|p|] == ':';
    DotIsNotHex();
  }

  lemma WithoutDot(text: string)
    requires ':' in text && '.' !in text
    ensures TailToHex(text) == Some(text)
  {
    hide LastColon;
    assert '.' !in text[LastColon(text) + 1..];
  }

  /** A "::" stands for the zero groups that are missing where it stands, at least one. */
  lemma GapReads(front: seq<string>, back: seq<string>)
    requires AllLower(front) && AllLower(back)
    ensures var text := Join(front, ':') + "::" + Join(back, ':');
            if |front| + |back| >= 8 then Ipv6Big(text) == None
            else
              var groups := front + seq(8 - |front| - |back|, i => "0") + back;
              AllLower(groups) && Ipv6Big(text) == Some(Fold(65536, Values(groups)))
  {
    hide Split, SplitDouble, Join, IsLowerGroup, IsGroup, TailToHex, Fold, Values, Groups;
    var text := Join(front, ':') + "::" + Join(back, ':');
    GapText(front, back);
    WithoutDot(text);
    if |front| + |back| < 8 {
      var n: nat := 8 - |front| - |back|;
      assert Zeros(n) == seq(n, i => "0");
      ZeroIsGroup();
      var groups := front + Zeros(n) + back;
      assert forall i :: 0 <= i < |groups| ==> groups[i] in front || groups[i] == "0" || groups[i] in back;
    }
  }

  lemma ZeroIsGroup()
    ensures IsLowerGroup("0") && IsGroup("0")
  {}
}
