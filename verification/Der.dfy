/** The DER codec of lib/Der.js: lengths, elements and INTEGERs (ITU-T X.690, sections 8.1.3, 8.3 and 10.1), and
    the strict reader. */
module Der {
  import opened Bytes
  import opened Wrappers

  // ----- minimal base-256 numbers -----

  /** The base-256 digits of n without leading zeros; none for 0. */
  function MinBytes(n: nat): Buffer {
    if n == 0 then [] else MinBytes(n / 256) + [n % 256]
  }

  lemma {:induction false} MinBytesValue(n: nat)
    ensures FromBigEndian(MinBytes(n)) == n
    ensures n > 0 ==> |MinBytes(n)| > 0 && MinBytes(n)[0] != 0
  {
    if n == 0 {
    } else {
      MinBytesValue(n / 256);
      assert MinBytes(n)[..|MinBytes(n)| - 1] == MinBytes(n / 256);
    }
  }

  /** Digits without a leading zero are the minimal digits of their value. */
  lemma {:induction false} MinBytesUnique(s: Buffer)
    requires s == [] || s[0] != 0
    ensures MinBytes(FromBigEndian(s)) == s
    ensures s != [] ==> FromBigEndian(s) > 0
  {
    if s == [] {
    } else {
      var front := s[..|s| - 1];
      MinBytesUnique(front);
      assert (256 * FromBigEndian(front) + s[|s| - 1]) / 256 == FromBigEndian(front);
      assert s == front + [s[|s| - 1]];
    }
  }

  lemma {:induction false} MinBytesLength(n: nat, w: nat)
    ensures |MinBytes(n)| <= w <==> n < Radix(w)
  {
    if n == 0 || w == 0 {
    } else {
      MinBytesLength(n / 256, w - 1);
    }
  }

  // ----- writing -----

  /** The definite length of a content of n bytes. */
  function LenOf(n: nat): Buffer {
    if n < 0x80 then [n] else [0x80 + |MinBytes(n)| % 0x80] + MinBytes(n)
  }

  method Len(n: nat) returns (b: Buffer)
    ensures b == LenOf(n)
  {
    if n < 0x80 { return [n]; }
    var digits: Buffer, x := [], n;
    while x > 0
      invariant MinBytes(n) == MinBytes(x) + digits
    {
      digits := [x % 256] + digits;
      x := x / 256;
    }
    return [0x80 + |digits| % 0x80] + digits;
  }

  /** Section 8.1.3 of ITU-T X.690: one octet below 128, otherwise the number of octets that follow, with its top bit
      set, and the length in as few of them as it takes. */
  lemma LengthOctets(n: nat)
    requires n < Radix(127)
    ensures n <= 127 ==> LenOf(n) == [n]
    ensures n >= 128 ==>
      (var b := LenOf(n);
       |b| >= 2 && b[0] == 128 + |b| - 1 && b[1] != 0 && FromBigEndian(b[1..]) == n)
  {
    hide Radix, FromBigEndian;
    MinBytesValue(n);
    MinBytesLength(n, 127);
    if n >= 128 { assert LenOf(n)[1..] == MinBytes(n); }
  }

  function Tlv(tag: byte, content: Buffer): Buffer {
    [tag] + LenOf(|content|) + content
  }

  function Sequence(content: Buffer): Buffer { Tlv(0x30, content) }

  // ----- reading -----

  datatype DerError =
    Truncated | Indefinite | LengthTooLarge | TruncatedLength | NonMinimal | Exceeds | Overruns | Trailing

  /** A read element: its content is the bytes from `start` to `end`. */
  datatype Element = Element(tag: byte, len: nat, hlen: nat, start: nat, end: nat)

  /** `readTLV`. */
  function ReadTlv(buf: Buffer, offset: int): (r: Result<Element, DerError>)
    ensures r.Ok? ==> 0 <= offset < r.value.start <= r.value.end <= |buf| && r.value.hlen == r.value.start - offset
  {
    if offset < 0 || offset + 2 > |buf| then Err(Truncated)
    else
      var tag, first := buf[offset], buf[offset + 1];
      if first == 0x80 then Err(Indefinite)
      else if first < 0x80 then Located(buf, offset, tag, offset + 2, first)
      else
        var num := first - 0x80;
        if num > 4 then Err(LengthTooLarge)
        else if offset + 2 + num > |buf| then Err(TruncatedLength)
        else if buf[offset + 2] == 0 then Err(NonMinimal)
        else
          var len := FromBigEndian(buf[offset + 2..offset + 2 + num]);
          if len < 0x80 then Err(NonMinimal) else Located(buf, offset, tag, offset + 2 + num, len)
  }

  function Located(buf: Buffer, offset: nat, tag: byte, start: nat, len: nat): Result<Element, DerError>
    requires offset <= start
  {
    if start + len > |buf| then Err(Exceeds) else Ok(Element(tag, len, start - offset, start, start + len))
  }

  method ReadTLV(buf: Buffer, offset: int) returns (r: Result<Element, DerError>)
    ensures r == ReadTlv(buf, offset)
  {
    if offset < 0 || offset + 2 > |buf| { return Err(Truncated); }
    var tag := buf[offset];
    var p := offset + 1;
    var len: nat := buf[p];
    p := p + 1;
    if len == 0x80 { return Err(Indefinite); }
    if len >= 0x80 {
      var num := len - 0x80;
      if num > 4 { return Err(LengthTooLarge); }
      if p + num > |buf| { return Err(TruncatedLength); }
      if buf[p] == 0 { return Err(NonMinimal); }
      len := 0;
      for i := 0 to num
        invariant p == offset + 2 + i && len == FromBigEndian(buf[offset + 2..p])
      {
        assert buf[offset + 2..p + 1][..i] == buf[offset + 2..p];
        len := len * 256 + buf[p];
        p := p + 1;
      }
      if len < 0x80 { return Err(NonMinimal); }
    }
    var end := p + len;
    if end > |buf| { return Err(Exceeds); }
    return Ok(Element(tag, len, p - offset, p, end));
  }

  const LIMIT: nat := 0x1_0000_0000

  lemma LimitIsRadix()
    ensures LIMIT == Radix(4)
  {
    assert Radix(4) == 256 * 256 * 256 * 256 * Radix(0);
  }

  /** What was written reads back, whatever precedes and follows it. */
  lemma ReadInvertsWrite(before: Buffer, tag: byte, content: Buffer, after: Buffer)
    requires |content| < LIMIT
    ensures var whole := Tlv(tag, content);
            var r := ReadTlv(before + whole + after, |before|);
            && r == Ok(Element(tag, |content|, |whole| - |content|, |before| + |whole| - |content|, |before| + |whole|))
            && (before + whole + after)[r.value.start..r.value.end] == content
  {
    hide MinBytes, FromBigEndian, Radix;
    var n, at := |content|, |before|;
    var buf := before + Tlv(tag, content) + after;
    assert buf[at] == tag && buf[at + 1] == LenOf(n)[0];
    if n >= 0x80 {
      var digits := MinBytes(n);
      MinBytesValue(n);
      LimitIsRadix();
      MinBytesLength(n, 4);
      assert buf[at + 2..at + 2 + |digits|] == digits;
      assert buf[at + 2] == digits[0];
    }
  }

  /** Every element the reader accepts is what the writer writes for its tag and content: one encoding per value. */
  lemma WriteInvertsRead(buf: Buffer, offset: int)
    requires ReadTlv(buf, offset).Ok?
    ensures var e := ReadTlv(buf, offset).value;
            && e.len == e.end - e.start < LIMIT
            && buf[offset..e.end] == Tlv(e.tag, buf[e.start..e.end])
  {
    hide MinBytes, FromBigEndian, Radix;
    var e := ReadTlv(buf, offset).value;
    var digits := buf[offset + 2..e.start];
    if digits != [] {
      assert buf[offset + 2] == digits[0];
      MinBytesUnique(digits);
      MinBytesLength(e.len, 4);
      LimitIsRadix();
      assert LenOf(e.len) == [buf[offset + 1]] + digits;
    }
    assert buf[offset..e.end] == [e.tag] + LenOf(e.len) + buf[e.start..e.end];
  }

  // ----- the children of a constructed element -----

  /** `children`, from position p of the span on. */
  function ChildrenOf(buf: Buffer, p: int, end: int): Result<seq<Element>, DerError>
    decreases end - p
  {
    if p < end then
      var t := ReadTlv(buf, p);
      if t.Err? then Err(t.error)
      else if t.value.end > end then Err(Overruns)
      else
        var rest := ChildrenOf(buf, t.value.end, end);
        if rest.Ok? then Ok([t.value] + rest.value) else rest
    else if p != end then Err(Trailing)
    else Ok([])
  }

  function Prepend(out: seq<Element>, rest: Result<seq<Element>, DerError>): Result<seq<Element>, DerError> {
    if rest.Ok? then Ok(out + rest.value) else rest
  }

  lemma PrependStep(out: seq<Element>, e: Element, rest: Result<seq<Element>, DerError>)
    ensures Prepend([], rest) == rest
    ensures Prepend(out, Prepend([e], rest)) == Prepend(out + [e], rest)
  {
    if rest.Ok? {
      assert [] + rest.value == rest.value;
      assert out + ([e] + rest.value) == out + [e] + rest.value;
    }
  }

  method Children(buf: Buffer, start: int, end: int) returns (r: Result<seq<Element>, DerError>)
    ensures r == ChildrenOf(buf, start, end)
  {
    hide ReadTlv;
    var out: seq<Element>, p := [], start;
    var all := ChildrenOf(buf, start, end);
    if all.Ok? { assert [] + all.value == all.value; }
    while p < end
      invariant ChildrenOf(buf, start, end) == Prepend(out, ChildrenOf(buf, p, end))
      decreases end - p
    {
      var t := ReadTLV(buf, p);
      if t.Err? { return Err(t.error); }
      if t.value.end > end { return Err(Overruns); }
      PrependStep(out, t.value, ChildrenOf(buf, t.value.end, end));
      out := out + [t.value];
      p := t.value.end;
    }
    if p != end { return Err(Trailing); }
    assert out + [] == out;
    r := Ok(out);
  }

  /** A tag and a content. */
  datatype Item = Item(tag: byte, content: Buffer)

  function Flatten(items: seq<Item>): Buffer {
    if items == [] then [] else Tlv(items[0].tag, items[0].content) + Flatten(items[1..])
  }

  predicate AllShort(items: seq<Item>) {
    forall i :: 0 <= i < |items| ==> |items[i].content| < LIMIT
  }

  function ItemOf(buf: Buffer, e: Element): Item
    requires e.start <= e.end <= |buf|
  {
    Item(e.tag, buf[e.start..e.end])
  }

  /** The elements lie in the buffer one after the other, from `start` to `end`, and hold the items. */
  ghost predicate Holds(buf: Buffer, elements: seq<Element>, items: seq<Item>, start: int, end: int)
    decreases |elements|
  {
    if elements == [] then items == [] && start == end
    else
      var e := elements[0];
      && items != [] && ReadTlv(buf, start) == Ok(e) && ItemOf(buf, e) == items[0]
      && Holds(buf, elements[1..], items[1..], e.end, end)
  }

  /** A concatenation of elements is split into exactly these elements, in order. */
  lemma {:induction false} ChildrenOfFlatten(before: Buffer, items: seq<Item>, after: Buffer)
    requires AllShort(items)
    ensures SplitsInto(before + Flatten(items) + after, |before|, |before| + |Flatten(items)|, items)
    decreases |items|
  {
    hide ReadTlv, Tlv;
    if items == [] {
    } else {
      var first, rest := items[0], items[1..];
      var whole := Tlv(first.tag, first.content);
      assert before + Flatten(items) + after == before + whole + (Flatten(rest) + after);
      assert before + Flatten(items) + after == (before + whole) + Flatten(rest) + after;
      ReadInvertsWrite(before, first.tag, first.content, Flatten(rest) + after);
      ChildrenOfFlatten(before + whole, rest, after);
    }
  }

  function ItemsOf(buf: Buffer, elements: seq<Element>): (items: seq<Item>)
    requires forall i :: 0 <= i < |elements| ==> elements[i].start <= elements[i].end <= |buf|
    ensures |items| == |elements|
  {
    seq(|elements|, i requires 0 <= i < |elements| => ItemOf(buf, elements[i]))
  }

  /** Conversely an accepted span is the concatenation of the elements returned for it. */
  lemma {:induction false} ChildrenAreFlatten(buf: Buffer, start: nat, end: nat)
    requires start <= end <= |buf| && ChildrenOf(buf, start, end).Ok?
    ensures var elements := ChildrenOf(buf, start, end).value;
            && (forall i :: 0 <= i < |elements| ==> elements[i].start <= elements[i].end <= |buf|)
            && AllShort(ItemsOf(buf, elements)) && buf[start..end] == Flatten(ItemsOf(buf, elements))
    decreases end - start
  {
    hide ReadTlv, Tlv;
    if start == end {
    } else {
      var e := ReadTlv(buf, start).value;
      WriteInvertsRead(buf, start);
      ChildrenAreFlatten(buf, e.end, end);
      var elements := ChildrenOf(buf, start, end).value;
      assert elements == [e] + ChildrenOf(buf, e.end, end).value;
      assert ItemsOf(buf, elements)[1..] == ItemsOf(buf, elements[1..]);
      assert buf[start..end] == buf[start..e.end] + buf[e.end..end];
    }
  }

  /** `children` accepts a span exactly when it is a concatenation of elements, and there is only one way to split
      it. */
  lemma SpanSplitsUniquely(buf: Buffer, start: nat, end: nat, items: seq<Item>)
    requires start <= end <= |buf|
    ensures AllShort(items) && buf[start..end] == Flatten(items) <==> SplitsInto(buf, start, end, items)
  {
    hide ReadTlv, ChildrenOf, Holds, Flatten, SplitsInto;
    if AllShort(items) && buf[start..end] == Flatten(items) {
      ChildrenOfFlatten(buf[..start], items, buf[end..]);
      assert buf == buf[..start] + Flatten(items) + buf[end..];
    }
    if SplitsInto(buf, start, end, items) { SplitsFlatten(buf, start, end, items); }
  }

  /** `children` accepts the span and returns elements that hold the items. */
  ghost predicate SplitsInto(buf: Buffer, start: int, end: int, items: seq<Item>) {
    var r := ChildrenOf(buf, start, end);
    r.Ok? && |r.value| == |items| && Holds(buf, r.value, items, start, end)
  }

  lemma SplitsFlatten(buf: Buffer, start: nat, end: nat, items: seq<Item>)
    requires start <= end <= |buf| && SplitsInto(buf, start, end, items)
    ensures AllShort(items) && buf[start..end] == Flatten(items)
  {
    hide ReadTlv, ChildrenOf, Holds, Flatten;
    HoldsFlatten(buf, ChildrenOf(buf, start, end).value, items, start, end);
  }

  lemma {:induction false} HoldsFlatten(buf: Buffer, elements: seq<Element>, items: seq<Item>, start: nat, end: nat)
    requires start <= end <= |buf| && |elements| == |items| && Holds(buf, elements, items, start, end)
    ensures AllShort(items) && buf[start..end] == Flatten(items)
    decreases |items|
  {
    hide ReadTlv, Tlv;
    if items == [] {
    } else {
      WriteInvertsRead(buf, start);
      HoldsEnd(buf, elements[1..], items[1..], elements[0].end, end);
      HoldsFlatten(buf, elements[1..], items[1..], elements[0].end, end);
      assert buf[start..end] == buf[start..elements[0].end] + buf[elements[0].end..end];
    }
  }

  lemma {:induction false} HoldsEnd(buf: Buffer, elements: seq<Element>, items: seq<Item>, start: int, end: int)
    requires Holds(buf, elements, items, start, end)
    ensures start <= end
    decreases |elements|
  {
    hide ReadTlv;
    if elements == [] {
    } else {
      HoldsEnd(buf, elements[1..], items[1..], elements[0].end, end);
    }
  }

  // ----- INTEGER -----

  /** A non-negative INTEGER content in its one DER form. */
  predicate MinimalNatural(c: Buffer) {
    && |c| > 0 && c[0] < 0x80
    && (|c| > 1 && c[0] == 0 ==> c[1] >= 0x80)
  }

  function SkipZeros(b: Buffer): Buffer {
    if |b| > 1 && b[0] == 0 then SkipZeros(b[1..]) else b
  }

  function SignSafe(b: Buffer): Buffer {
    if |b| > 0 && b[0] >= 0x80 then [0] + b else b
  }

  function IntegerContent(b: Buffer): Buffer { SignSafe(SkipZeros(b)) }

  /** `integer`. */
  method Integer(buf: Buffer) returns (r: Buffer)
    ensures r == Tlv(0x02, IntegerContent(buf))
  {
    var i := 0;
    while i < |buf| - 1 && buf[i] == 0
      invariant 0 <= i <= |buf| && SkipZeros(buf[i..]) == SkipZeros(buf)
    {
      assert buf[i..][1..] == buf[i + 1..];
      i := i + 1;
    }
    var b := buf[i..];
    if |b| > 0 && b[0] >= 0x80 { b := [0] + b; }
    r := Tlv(0x02, b);
  }

  lemma {:induction false} LeadingZero(b: Buffer)
    ensures FromBigEndian([0] + b) == FromBigEndian(b)
  {
    if b == [] {
    } else {
      LeadingZero(b[..|b| - 1]);
      assert ([0] + b)[..|b|] == [0] + b[..|b| - 1];
    }
  }

  lemma {:induction false} SkipZerosValue(b: Buffer)
    ensures FromBigEndian(SkipZeros(b)) == FromBigEndian(b)
    ensures b != [] ==> SkipZeros(b) != [] && (|SkipZeros(b)| > 1 ==> SkipZeros(b)[0] != 0)
    decreases |b|
  {
    if |b| > 1 && b[0] == 0 {
      SkipZerosValue(b[1..]);
      LeadingZero(b[1..]);
      assert b == [0] + b[1..];
    }
  }

  /** `integer` writes the minimal non-negative form of the value of its bytes, unless it gets none: then it writes an
      INTEGER without content, which no value has. */
  lemma IntegerMeaning(b: Buffer)
    ensures FromBigEndian(IntegerContent(b)) == FromBigEndian(b)
    ensures MinimalNatural(IntegerContent(b)) <==> b != []
    ensures b == [] ==> IntegerContent(b) == []
  {
    SkipZerosValue(b);
    LeadingZero(SkipZeros(b));
  }

  /** There is one minimal form per value. */
  lemma MinimalUnique(c: Buffer, d: Buffer)
    requires MinimalNatural(c) && MinimalNatural(d) && FromBigEndian(c) == FromBigEndian(d)
    ensures c == d
  {
    hide FromBigEndian;
    MinimalDigits(c);
    MinimalDigits(d);
  }

  lemma MinimalDigits(c: Buffer)
    requires MinimalNatural(c)
    ensures var digits := MinBytes(FromBigEndian(c));
            c == if digits == [] || digits[0] >= 0x80 then [0] + digits else digits
  {
    hide FromBigEndian;
    if c[0] == 0 {
      LeadingZero(c[1..]);
      assert c == [0] + c[1..];
      MinBytesUnique(c[1..]);
    } else {
      MinBytesUnique(c);
    }
  }

  /** `smallInt`. */
  method SmallInt(n: nat) returns (r: Buffer)
    ensures exists c :: r == Tlv(0x02, c) && MinimalNatural(c) && FromBigEndian(c) == n
  {
    hide FromBigEndian;
    var b: Buffer, x: nat := [n % 256], n / 256;
    while x > 0
      invariant |b| > 0 && (n > 0 ==> MinBytes(n) == MinBytes(x) + b) && (n == 0 ==> b == [0] && x == 0)
    {
      b := [x % 256] + b;
      x := x / 256;
    }
    assert [] + b == b;
    DigitsOf(n, b);
    if b[0] >= 0x80 {
      LeadingZero(b);
      b := [0] + b;
    }
    assert MinimalNatural(b) && FromBigEndian(b) == n;
    r := Tlv(0x02, b);
  }

  lemma DigitsOf(n: nat, b: Buffer)
    requires b == if n == 0 then [0] else MinBytes(n)
    ensures |b| > 0 && FromBigEndian(b) == n && (|b| > 1 ==> b[0] != 0)
  {
    hide MinBytes;
    MinBytesValue(n);
    if n == 0 { assert b[..0] == []; }
  }

  /** The argument of `intFlexible`: a number, of which a buffer of one byte is made, or a buffer. */
  datatype Flexible = Small(n: int) | Raw(buf: Buffer)

  function Octets(x: Flexible): Buffer { if x.Small? then [x.n % 256] else x.buf }

  /** `intFlexible`: sign-safe, but leading zeros stay. */
  function FlexibleContent(x: Flexible): Buffer {
    if Octets(x) == [] then [0] else SignSafe(Octets(x))
  }

  method IntFlexible(x: Flexible) returns (r: Buffer)
    ensures r == Tlv(0x02, FlexibleContent(x))
  {
    var b := Octets(x);
    if |b| > 0 && b[0] >= 0x80 { b := [0] + b; }
    if |b| == 0 { b := [0]; }
    r := Tlv(0x02, b);
  }

  /** Flexible integers keep the value of a buffer and the low byte of a number, are never negative, and are minimal
      exactly when the buffer has no redundant zero, which that of a number never has. */
  lemma FlexibleMeaning(x: Flexible)
    ensures FlexibleContent(x)[0] < 0x80
    ensures FromBigEndian(FlexibleContent(x)) == if x.Small? then x.n % 256 else FromBigEndian(x.buf)
    ensures MinimalNatural(FlexibleContent(x)) <==> x.Small? || !(|x.buf| > 1 && x.buf[0] == 0 && x.buf[1] < 0x80)
  {
    var b := Octets(x);
    LeadingZero(b);
    if b == [] { assert FromBigEndian([0]) == 256 * FromBigEndian([]) + 0; }
    if x.Small? { assert b[..0] == [] && FromBigEndian(b) == b[0]; }
  }
}
