/** Readable text from HTML: `stripHtml` of lib/Extract.js. Case folding is that of ASCII letters. */
module Html {
  import Strings = Text

  // ----- the tokenizer, character by character -----

  predicate StartsWith(s: string, pattern: string, i: nat) {
    i + |pattern| <= |s| && s[i..i + |pattern|] == pattern
  }

  /** The element whose body is skipped that opens after the '<' at i; "" for any other tag. */
  function Opens(lower: string, i: nat): string {
    if StartsWith(lower, "script", i + 1) then "script" else if StartsWith(lower, "style", i + 1) then "style" else ""
  }

  datatype Mode = Text | Tag | Body(name: string)

  /** What is left of the text from position i on: characters outside tags, and a space for every tag and body. */
  function Strip(s: string, i: nat, mode: Mode): string
    requires i <= |s|
    decreases |s| - i, if mode.Body? then 1 else 0
  {
    if i == |s| then ""
    else
      match mode
      case Text =>
        if s[i] != '<' then [s[i]] + Strip(s, i + 1, Text)
        else
          var name := Opens(Strings.Lower(s), i);
          " " + Strip(s, i + 1, if name == "" then Tag else Body(name))
      case Tag => Strip(s, i + 1, if s[i] == '>' then Text else Tag)
      case Body(name) =>
        if StartsWith(Strings.Lower(s), "</" + name, i) then Strip(s, i, Text) else Strip(s, i + 1, Body(name))
  }

  /** No '<' is left. */
  lemma {:induction false} NoTagsLeft(s: string, i: nat, mode: Mode)
    requires i <= |s|
    ensures '<' !in Strip(s, i, mode)
    decreases |s| - i, if mode.Body? then 1 else 0
  {
    hide Opens, StartsWith;
    if i == |s| {
    } else {
      match mode
      case Text =>
        var name := Opens(Strings.Lower(s), i);
        NoTagsLeft(s, i + 1, if s[i] != '<' then Text else if name == "" then Tag else Body(name));
      case Tag => NoTagsLeft(s, i + 1, if s[i] == '>' then Text else Tag);
      case Body(name) =>
        if StartsWith(Strings.Lower(s), "</" + name, i) { NoTagsLeft(s, i, Text); } else { NoTagsLeft(s, i + 1, mode); }
    }
  }

  // ----- searching -----

  /** `indexOf` of a character, and how many characters it looks at. */
  method IndexOfChar(s: string, c: char, i: nat) returns (at: int, probes: nat)
    requires i <= |s|
    ensures at == -1 || i <= at < |s|
    ensures forall j :: i <= j < (if at < 0 then |s| else at) ==> s[j] != c
    ensures at >= 0 ==> s[at] == c
    ensures probes <= (if at < 0 then |s| else at) - i + 1
  {
    at, probes := i, 0;
    while at < |s|
      invariant i <= at <= |s| && probes == at - i
      invariant forall j :: i <= j < at ==> s[j] != c
    {
      probes := probes + 1;
      if s[at] == c { return; }
      at := at + 1;
    }
    at := -1;
  }

  /** Comparing a pattern at one place looks at no more characters than it has. */
  method Compare(s: string, pattern: string, i: nat) returns (same: bool, probes: nat)
    ensures same == StartsWith(s, pattern, i) && probes <= |pattern|
  {
    probes := 0;
    if i + |pattern| > |s| { return false, 0; }
    for j := 0 to |pattern|
      invariant probes == j && s[i..i + j] == pattern[..j]
    {
      probes := probes + 1;
      if s[i + j] != pattern[j] {
        assert s[i..i + |pattern|][j] == s[i + j];
        return false, probes;
      }
      assert s[i..i + j + 1] == s[i..i + j] + [s[i + j]];
      assert pattern[..j + 1] == pattern[..j] + [pattern[j]];
    }
    assert pattern[..|pattern|] == pattern;
    same := true;
  }

  /** `indexOf` of a pattern. */
  method IndexOf(s: string, pattern: string, i: nat) returns (at: int, probes: nat)
    requires i <= |s|
    ensures at == -1 || i <= at <= |s|
    ensures forall j :: i <= j < (if at < 0 then |s| else at) ==> !StartsWith(s, pattern, j)
    ensures at >= 0 ==> StartsWith(s, pattern, at)
    ensures probes <= |pattern| * ((if at < 0 then |s| else at) - i + 1)
  {
    at, probes := i, 0;
    while at < |s|
      invariant i <= at <= |s| && probes <= |pattern| * (at - i)
      invariant forall j :: i <= j < at ==> !StartsWith(s, pattern, j)
    {
      var same, p := Compare(s, pattern, at);
      probes := probes + p;
      assert |pattern| * (at - i + 1) == |pattern| * (at - i) + |pattern|;
      if same { return; }
      at := at + 1;
    }
    assert |pattern| * (at - i + 1) == |pattern| * (at - i) + |pattern|;
    at := -1;
  }

  // ----- the scan -----

  lemma {:induction false} TextRun(s: string, i: nat, end: nat)
    requires i <= end <= |s| && forall j :: i <= j < end ==> s[j] != '<'
    ensures Strip(s, i, Text) == s[i..end] + Strip(s, end, Text)
    decreases end - i
  {
    hide Strip;
    var rest := Strip(s, end, Text);
    if i < end {
      TextStep(s, i);
      TextRun(s, i + 1, end);
      assert s[i..end] == [s[i]] + s[i + 1..end];
      assert [s[i]] + (s[i + 1..end] + rest) == ([s[i]] + s[i + 1..end]) + rest;
    } else {
      assert s[i..end] + rest == rest;
    }
  }

  lemma TextStep(s: string, i: nat)
    requires i < |s| && s[i] != '<'
    ensures Strip(s, i, Text) == [s[i]] + Strip(s, i + 1, Text)
  {}

  lemma {:induction false} TagRun(s: string, i: nat, end: nat)
    requires i <= end <= |s| && (forall j :: i <= j < end ==> s[j] != '>') && (end < |s| ==> s[end] == '>')
    ensures Strip(s, i, Tag) == (if end < |s| then Strip(s, end + 1, Text) else "")
    decreases end - i
  {
    TagStep(s, i);
    hide Strip;
    if i == end {
    } else {
      TagRun(s, i + 1, end);
    }
  }

  lemma TagStep(s: string, i: nat)
    requires i <= |s|
    ensures Strip(s, i, Tag) == if i == |s| then "" else Strip(s, i + 1, if s[i] == '>' then Text else Tag)
  {}

  lemma {:induction false} BodyRun(s: string, i: nat, end: nat, name: string)
    requires i <= end <= |s| && (forall j :: i <= j < end ==> !StartsWith(Strings.Lower(s), "</" + name, j))
    requires end < |s| ==> StartsWith(Strings.Lower(s), "</" + name, end)
    ensures Strip(s, i, Body(name)) == Strip(s, end, Text)
    decreases end - i
  {
    hide StartsWith;
    if i == end {
    } else {
      BodyRun(s, i + 1, end, name);
    }
  }

  function TagRest(s: string, i: nat): string
    requires i < |s|
  {
    Strip(s, i + 1, if Opens(Strings.Lower(s), i) == "" then Tag else Body(Opens(Strings.Lower(s), i)))
  }

  lemma StripTag(s: string, i: nat)
    requires i < |s| && s[i] == '<'
    ensures Strip(s, i, Text) == " " + TagRest(s, i)
  {}

  /** The text has the pattern at i, a capital letter standing for the small one too. */
  predicate Reads(s: string, pattern: string, i: nat) {
    && i + |pattern| <= |s|
    && forall x :: 0 <= x < |pattern| ==>
         s[i + x] == pattern[x] || ('A' <= s[i + x] <= 'Z' && s[i + x] as int + 32 == pattern[x] as int)
  }

  lemma ReadsIs(s: string, pattern: string, i: nat)
    requires forall x :: 0 <= x < |pattern| ==> !('A' <= pattern[x] <= 'Z')
    ensures StartsWith(Strings.Lower(s), pattern, i) <==> Reads(s, pattern, i)
  {
    var lower := Strings.Lower(s);
    if i + |pattern| <= |s| {
      var part := lower[i..i + |pattern|];
      assert forall x :: 0 <= x < |part| ==> part[x] == Strings.LowerChar(s[i + x]);
    }
  }

  /** A "<script" or "<style", in letters of any case, is left out with all that follows, up to the next "</script" or
      "</style" of the same name, or the end. */
  lemma BodySkipped(s: string, i: nat, name: string, end: nat)
    requires i < |s| && s[i] == '<' && name in {"script", "style"} && Reads(s, name, i + 1)
    requires i + 1 <= end <= |s| && (end < |s| ==> Reads(s, "</" + name, end))
    requires forall j :: i + 1 <= j < end ==> !Reads(s, "</" + name, j)
    ensures Strip(s, i, Text) == " " + Strip(s, end, Text)
  {
    hide Strip, StartsWith, Reads, Strings.Lower;
    StripTag(s, i);
    ReadsIs(s, "script", i + 1);
    ReadsIs(s, "style", i + 1);
    NotBoth(s, i + 1);
    SmallLetters(name);
    forall j: nat ensures StartsWith(Strings.Lower(s), "</" + name, j) <==> Reads(s, "</" + name, j) {
      ReadsIs(s, "</" + name, j);
    }
    BodyRun(s, i + 1, end, name);
  }

  lemma NotBoth(s: string, i: nat)
    ensures !(Reads(s, "script", i) && Reads(s, "style", i))
  {
    assert "script"[1] == 'c' && "style"[1] == 't';
  }

  lemma SmallLetters(name: string)
    requires name in {"script", "style"}
    ensures forall x :: 0 <= x < |"</" + name| ==> !('A' <= ("</" + name)[x] <= 'Z')
  {}

  /** Any other tag is left out up to the first '>' behind it, or the end. */
  lemma TagSkipped(s: string, i: nat, end: nat)
    requires i < |s| && s[i] == '<' && !Reads(s, "script", i + 1) && !Reads(s, "style", i + 1)
    requires i + 1 <= end <= |s| && (end < |s| ==> s[end] == '>') && forall j :: i + 1 <= j < end ==> s[j] != '>'
    ensures Strip(s, i, Text) == " " + if end < |s| then Strip(s, end + 1, Text) else ""
  {
    hide Strip, StartsWith, Reads, Strings.Lower;
    StripTag(s, i);
    ReadsIs(s, "script", i + 1);
    ReadsIs(s, "style", i + 1);
    TagRun(s, i + 1, end);
  }

  /** What one turn of the scan puts out: a space, or a run of the text up to a tag. */
  ghost predicate IsPiece(s: string, piece: string) {
    piece == " " || ('<' !in piece && exists i, j :: 0 <= i <= j <= |s| && piece == s[i..j])
  }

  /** One turn of the scan, at position i: the piece that it puts out, and where the next turn starts. */
  method Turn(s: string, lower: string, i: nat) returns (piece: string, next: nat, probes: nat)
    requires i < |s| && lower == Strings.Lower(s)
    ensures i < next <= |s| && Strip(s, i, Text) == piece + Strip(s, next, Text)
    ensures piece != "" && IsPiece(s, piece) && probes <= 30 * (next - i)
  {
    hide Strip, Opens, StartsWith, Strings.Lower;
    var n := |s|;
    StripEnds(s);
    var lt, p := IndexOfChar(s, '<', i);
    if lt < 0 {
      TextRun(s, i, n);
      return s[i..], n, p;
    }
    if lt > i {
      TextRun(s, i, lt);
      return s[i..lt], lt, p;
    }
    StripTag(s, i);
    var skip, q := OpensWith(lower, i);
    if skip != "" {
      var close, r := IndexOf(lower, "</" + skip, i + 1);
      var end := if close < 0 then n else close;
      BodyRun(s, i + 1, end, skip);
      SkipCost(skip, end - i);
      return " ", end, p + q + r;
    }
    var gt, r := IndexOfChar(s, '>', i);
    TagRun(s, i + 1, if gt < 0 then n else gt);
    return " ", if gt < 0 then n else gt + 1, p + q + r;
  }

  /** The scan of `stripHtml`; `cap` 0 means none. The result is the tokenizer's text, cut short only where the cap
      was reached: the last piece begins at `last`, below the cap. The number of characters looked at is linear in the
      input. */
  method Scan(s: string, cap: nat) returns (out: string, probes: nat, ghost last: nat)
    ensures out != "" ==> last < |out| && (cap > 0 ==> last < cap) && IsPiece(s, out[last..])
    ensures out <= Strip(s, 0, Text)
    ensures out != Strip(s, 0, Text) ==> cap > 0 && |out| >= cap
    ensures '<' !in out
    ensures probes <= 30 * |s|
  {
    hide Strip, Strings.Lower, IsPiece;
    var lower := Strings.Lower(s);
    var i: nat := 0;
    out, probes, last := "", 0, 0;
    StripEnds(s);
    while i < |s| && (cap == 0 || |out| < cap)
      invariant i <= |s| && Strip(s, 0, Text) == out + Strip(s, i, Text)
      invariant probes <= 30 * i
      invariant out != "" ==> last < |out| && (cap > 0 ==> last < cap) && IsPiece(s, out[last..])
    {
      var piece, next, p := Turn(s, lower, i);
      Appended(out, piece, Strip(s, next, Text));
      last, out, i, probes := |out|, out + piece, next, probes + p;
    }
    NoTagsLeft(s, 0, Text);
    assert forall c :: c in out ==> c in out + Strip(s, i, Text);
  }

  lemma Appended(out: string, piece: string, rest: string)
    ensures out + (piece + rest) == out + piece + rest && (out + piece)[|out|..] == piece
  {}

  lemma StripEnds(s: string)
    ensures forall mode :: Strip(s, |s|, mode) == ""
  {}

  method OpensWith(lower: string, i: nat) returns (skip: string, probes: nat)
    ensures skip == Opens(lower, i) && probes <= 11 && |skip| <= 6
  {
    hide StartsWith;
    var script, p := Compare(lower, "script", i + 1);
    if script { return "script", p; }
    var style, q := Compare(lower, "style", i + 1);
    return if style then "style" else "", p + q;
  }

  lemma SkipCost(skip: string, d: nat)
    requires |skip| <= 6
    ensures |"</" + skip| * d <= 8 * d
  {}

  // ----- entities -----

  /** An entity and the character it stands for. */
  datatype Entity = Entity(text: string, stands: char)

  /** The first of the entities that the text begins with, or -1. */
  function Matching(s: string, entities: seq<Entity>): (k: int)
    ensures -1 <= k < |entities| && (k >= 0 ==> entities[k].text <= s)
  {
    if entities == [] then -1
    else
      var k := Matching(s, entities[..|entities| - 1]);
      if k < 0 && entities[|entities| - 1].text <= s then |entities| - 1 else k
  }

  predicate AreEntities(entities: seq<Entity>) {
    forall i :: 0 <= i < |entities| ==> IsEntity(entities[i])
  }

  predicate IsName(c: char) { 'a' <= c <= 'z' || '0' <= c <= '9' || c == '#' || c == ';' }

  predicate IsEntity(e: Entity) {
    |e.text| >= 2 && e.text[0] == '&' && forall i :: 0 < i < |e.text| ==> IsName(e.text[i])
  }

  /** What these entities stand for can not be part of another entity's text. */
  predicate Inert(entities: seq<Entity>) {
    forall i :: 0 <= i < |entities| ==> entities[i].stands != '&' && !IsName(entities[i].stands)
  }

  /** One global replacement: every occurrence of one of the entities, from left to right. */
  function Decode(s: string, entities: seq<Entity>): string
    requires AreEntities(entities)
    decreases |s|
  {
    if s == "" then ""
    else
      var k := Matching(s, entities);
      if k < 0 then [s[0]] + Decode(s[1..], entities)
      else [entities[k].stands] + Decode(s[|entities[k].text|..], entities)
  }

  lemma DecodeStep(s: string, entities: seq<Entity>)
    requires AreEntities(entities) && s != ""
    ensures var k := Matching(s, entities);
            Decode(s, entities) == (if k < 0 then [s[0]] + Decode(s[1..], entities)
                                    else [entities[k].stands] + Decode(s[|entities[k].text|..], entities))
  {
    hide Matching, AreEntities;
  }

  predicate AllNames(w: string) { forall i :: 0 <= i < |w| ==> IsName(w[i]) }

  /** Decoding neither makes nor breaks a text of name characters. */
  lemma {:induction false} DecodePrefix(s: string, entities: seq<Entity>, w: string)
    requires AreEntities(entities) && Inert(entities) && AllNames(w)
    ensures w <= Decode(s, entities) <==> w <= s
    ensures w <= s ==> Decode(s, entities)[|w|..] == Decode(s[|w|..], entities)
    decreases |s|
  {
    hide Matching, IsName;
    if s == "" || w == "" {
      assert w == "" ==> s[0..] == s && Decode(s, entities)[0..] == Decode(s, entities);
    } else {
      var k, d := Matching(s, entities), Decode(s, entities);
      HeadAndTail(w, d);
      HeadAndTail(w, s);
      if k < 0 {
        assert d == [s[0]] + Decode(s[1..], entities);
        DecodePrefix(s[1..], entities, w[1..]);
        assert d[1..] == Decode(s[1..], entities);
        if w <= s { assert d[|w|..] == d[1..][|w| - 1..] && s[|w|..] == s[1..][|w| - 1..]; }
      } else {
        AmpersandIsNoName();
        assert d[0] == entities[k].stands && s[0] == entities[k].text[0] == '&';
      }
    }
  }

  lemma AmpersandIsNoName()
    ensures !IsName('&')
  {}

  lemma HeadAndTail(w: string, s: string)
    requires w != ""
    ensures w <= s <==> |s| > 0 && w[0] == s[0] && w[1..] <= s[1..]
  {
    if |s| > 0 && w[0] == s[0] && w[1..] <= s[1..] {
      assert w == [w[0]] + w[1..] && s == [s[0]] + s[1..];
    }
    if w <= s { assert w[1..] == s[1..][..|w| - 1]; }
  }

  lemma {:induction false} MatchingAppend(s: string, a: seq<Entity>, b: seq<Entity>)
    ensures Matching(s, a + b)
            == if Matching(s, a) >= 0 then Matching(s, a)
               else if Matching(s, b) >= 0 then |a| + Matching(s, b)
               else -1
  {
    if b == [] {
      assert a + b == a;
    } else {
      assert (a + b)[..|a + b| - 1] == a + b[..|b| - 1];
      MatchingAppend(s, a, b[..|b| - 1]);
    }
  }

  lemma NameTail(e: Entity)
    requires IsEntity(e)
    ensures AllNames(e.text[1..])
  {}

  /** Matching an undecoded ampersand before and after a replacement gives the same entity. */
  lemma {:induction false} MatchingSurvives(s: string, a: seq<Entity>, b: seq<Entity>)
    requires AreEntities(a) && AreEntities(b) && Inert(a) && s != "" && Matching(s, a) < 0
    ensures Matching([s[0]] + Decode(s[1..], a), b) == Matching(s, b)
  {
    if b == [] {
    } else {
      var e, d := b[|b| - 1], [s[0]] + Decode(s[1..], a);
      MatchingSurvives(s, a, b[..|b| - 1]);
      NameTail(e);
      DecodePrefix(s[1..], a, e.text[1..]);
      HeadAndTail(e.text, s);
      HeadAndTail(e.text, d);
      assert d[1..] == Decode(s[1..], a);
    }
  }

  lemma {:induction false} NoMatchInside(c: char, rest: string, b: seq<Entity>)
    requires AreEntities(b) && c != '&'
    ensures Matching([c] + rest, b) < 0
  {
    if b == [] {
    } else {
      NoMatchInside(c, rest, b[..|b| - 1]);
      assert IsEntity(b[|b| - 1]);
      HeadAndTail(b[|b| - 1].text, [c] + rest);
    }
  }

  /** Two replacements one after the other are one replacement of both kinds of entities, as long as the first puts in
      nothing that the second could take for a part of an entity. */
  lemma {:induction false} DecodeTwice(s: string, a: seq<Entity>, b: seq<Entity>)
    requires AreEntities(a) && AreEntities(b) && Inert(a) && AreEntities(a + b)
    ensures Decode(Decode(s, a), b) == Decode(s, a + b)
    decreases |s|
  {
    if s == "" {
    } else {
      hide Matching, Decode;
      var d, k, m := Decode(s, a), Matching(s, a), Matching(s, b);
      DecodeStep(s, a);
      DecodeStep(d, b);
      DecodeStep(s, a + b);
      MatchingAppend(s, a, b);
      if k >= 0 {
        var rest := s[|a[k].text|..];
        assert IsEntity(a[k]);
        NoMatchInside(a[k].stands, Decode(rest, a), b);
        assert d[1..] == Decode(rest, a);
        DecodeTwice(rest, a, b);
      } else {
        MatchingSurvives(s, a, b);
        if m < 0 {
          assert d[1..] == Decode(s[1..], a);
          DecodeTwice(s[1..], a, b);
        } else {
          assert IsEntity(b[m]);
          SkipEntity(s, a, b[m]);
          DecodeTwice(s[|b[m].text|..], a, b);
        }
      }
    }
  }

  lemma SkipEntity(s: string, a: seq<Entity>, e: Entity)
    requires AreEntities(a) && Inert(a) && IsEntity(e) && e.text <= s && s != "" && Matching(s, a) < 0
    ensures |e.text| <= |Decode(s, a)| && Decode(s, a)[|e.text|..] == Decode(s[|e.text|..], a)
  {
    hide Matching, Decode;
    var w := e.text[1..];
    DecodeStep(s, a);
    NameTail(e);
    HeadAndTail(e.text, s);
    DecodePrefix(s[1..], a, w);
    assert Decode(s, a)[|w| + 1..] == Decode(s[1..], a)[|w|..];
    assert s[|w| + 1..] == s[1..][|w|..];
  }

  const NBSP: Entity := Entity("&nbsp;", ' ')
  const LT: Entity := Entity("&lt;", '<')
  const GT: Entity := Entity("&gt;", '>')
  const QUOT: Entity := Entity("&quot;", '"')
  const APOS: seq<Entity> := [Entity("&#39;", '\''), Entity("&apos;", '\'')]
  const AMP: Entity := Entity("&amp;", '&')

  const MARKS: seq<Entity> := [NBSP, LT, GT, QUOT]

  lemma TheEntities()
    ensures IsEntity(NBSP) && IsEntity(LT) && IsEntity(GT) && IsEntity(QUOT) && IsEntity(AMP)
    ensures forall i :: 0 <= i < |APOS| ==> IsEntity(APOS[i])
  {}

  lemma WhatTheyStandFor()
    ensures Inert(MARKS) && Inert(APOS)
  {}

  lemma Combined(a: seq<Entity>, b: seq<Entity>)
    requires AreEntities(a) && AreEntities(b)
    ensures AreEntities(a + b) && (Inert(a) && Inert(b) ==> Inert(a + b))
  {
    hide IsEntity, IsName;
  }

  /** The chain of replacements of `stripHtml`. */
  function DecodeEntities(s: string): string {
    TheEntities();
    Decode(Decode(Decode(Decode(Decode(Decode(s, [NBSP]), [LT]), [GT]), [QUOT]), APOS), [AMP])
  }

  /** The chain decodes every entity of the text once, and no entity that only decoding has put together. */
  lemma EntitiesDecodedOnce(s: string)
    ensures AreEntities(MARKS + APOS + [AMP]) && DecodeEntities(s) == Decode(s, MARKS + APOS + [AMP])
  {
    hide Decode, Matching, IsEntity, IsName;
    TheEntities();
    WhatTheyStandFor();
    assert Inert([NBSP]) && Inert([NBSP, LT]) && Inert([NBSP, LT, GT]) by {
      assert forall i :: 0 <= i < 4 ==> MARKS[i].stands != '&' && !IsName(MARKS[i].stands);
      assert NBSP == MARKS[0] && LT == MARKS[1] && GT == MARKS[2];
    }
    DecodeTwice(s, [NBSP], [LT]);
    assert [NBSP] + [LT] == [NBSP, LT];
    DecodeTwice(s, [NBSP, LT], [GT]);
    assert [NBSP, LT] + [GT] == [NBSP, LT, GT];
    DecodeTwice(s, [NBSP, LT, GT], [QUOT]);
    assert [NBSP, LT, GT] + [QUOT] == MARKS;
    Combined(MARKS, APOS);
    DecodeTwice(s, MARKS, APOS);
    Combined(MARKS + APOS, [AMP]);
    DecodeTwice(s, MARKS + APOS, [AMP]);
  }

  lemma MatchingLast(s: string, front: seq<Entity>, e: Entity)
    ensures Matching(s, front + [e]) == if Matching(s, front) < 0 && e.text <= s then |front| else Matching(s, front)
  {
    assert (front + [e])[..|front|] == front;
  }

  /** What the entities stand for, from left to right. */
  lemma EntityMeaning(s: string)
    ensures DecodeEntities(s)
            == if s == "" then ""
               else if "&nbsp;" <= s then " " + DecodeEntities(s[6..])
               else if "&lt;" <= s then "<" + DecodeEntities(s[4..])
               else if "&gt;" <= s then ">" + DecodeEntities(s[4..])
               else if "&quot;" <= s then "\"" + DecodeEntities(s[6..])
               else if "&#39;" <= s then "'" + DecodeEntities(s[5..])
               else if "&apos;" <= s then "'" + DecodeEntities(s[6..])
               else if "&amp;" <= s then "&" + DecodeEntities(s[5..])
               else [s[0]] + DecodeEntities(s[1..])
  {
    var all := MARKS + APOS + [AMP];
    assert all == [NBSP] + [LT] + [GT] + [QUOT] + [APOS[0]] + [APOS[1]] + [AMP];
    EntitiesDecodedOnce(s);
    if s != "" {
      DecodeStep(s, all);
      MatchingLast(s, [], NBSP);
      MatchingLast(s, [NBSP], LT);
      MatchingLast(s, [NBSP] + [LT], GT);
      MatchingLast(s, [NBSP] + [LT] + [GT], QUOT);
      MatchingLast(s, [NBSP] + [LT] + [GT] + [QUOT], APOS[0]);
      MatchingLast(s, [NBSP] + [LT] + [GT] + [QUOT] + [APOS[0]], APOS[1]);
      MatchingLast(s, [NBSP] + [LT] + [GT] + [QUOT] + [APOS[0]] + [APOS[1]], AMP);
      assert [] + [NBSP] == [NBSP];
      var k := Matching(s, all);
      hide Matching, Decode, DecodeEntities, AreEntities;
      EntitiesDecodedOnce(s[if k < 0 then 1 else |all[k].text|..]);
    }
  }
}
