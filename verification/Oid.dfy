/** OBJECT IDENTIFIER text and contents: `oid` and `decodeOid` of lib/Der.js (ITU-T X.690, section 8.19). */
module Oid {
  import Arithmetic
  import opened Bytes
  import opened Wrappers
  import opened Text
  import Der

  // ----- sub-identifiers -----

  /** The base-128 digits of v, all marked as continued. */
  function Continued(v: nat): Buffer {
    if v == 0 then [] else Continued(v / 128) + [0x80 + v % 128]
  }

  function Base128(v: nat): Buffer { Continued(v / 128) + [v % 128] }

  /** The value of base-128 digits, whatever their top bits. */
  function FromBase128(b: Buffer): nat {
    if b == [] then 0 else FromBase128(b[..|b| - 1]) * 128 + b[|b| - 1] % 128
  }

  /** Section 8.19.2 of ITU-T X.690: the value in as few octets as it takes, all but the last with the top bit set. */
  lemma {:induction false} ContinuedMeaning(v: nat)
    ensures var b := Continued(v);
            && FromBase128(b) == v && (forall i :: 0 <= i < |b| ==> b[i] >= 128) && (b != [] ==> b[0] != 128)
  {
    if v == 0 {
    } else {
      ContinuedMeaning(v / 128);
      var front := Continued(v / 128);
      assert Continued(v) == front + [0x80 + v % 128];
      FromBase128Append(front, 0x80 + v % 128);
      hide FromBase128, Continued;
      SmallContinued(v);
    }
  }

  lemma SmallContinued(v: nat)
    ensures v > 0 && v / 128 == 0 ==> Continued(v) == [128 + v]
    ensures (0x80 + v % 128) % 128 == v % 128
    ensures v / 128 > 0 ==> Continued(v / 128) != []
  {
    assert Continued(0) == [];
    Arithmetic.Quotient(0x80 + v % 128, 128, 1, v % 128);
    hide Continued;
    if v / 128 == 0 { Arithmetic.Quotient(v, 128, 0, v); }
  }

  lemma FromBase128Append(b: Buffer, d: byte)
    ensures FromBase128(b + [d]) == FromBase128(b) * 128 + d % 128
  {
    assert (b + [d])[..|b|] == b;
  }

  lemma Base128Meaning(v: nat)
    ensures var b := Base128(v);
            && |b| >= 1 && FromBase128(b) == v && b[|b| - 1] < 128
            && (forall i :: 0 <= i < |b| - 1 ==> b[i] >= 128) && b[0] != 128
  {
    var q, d := v / 128, v % 128;
    var front := Continued(q);
    assert Base128(v) == front + [d];
    hide FromBase128, Continued, Base128;
    ContinuedMeaning(q);
    FromBase128Append(front, d);
    LastAppended(front, d);
    assert d % 128 == d by { Arithmetic.Quotient(d, 128, 0, d); }
  }

  lemma LastAppended(front: Buffer, d: byte)
    requires d < 128 && (forall i :: 0 <= i < |front| ==> front[i] >= 128) && (front != [] ==> front[0] != 128)
    ensures var b := front + [d];
            |b| >= 1 && b[|b| - 1] == d && (forall i :: 0 <= i < |b| - 1 ==> b[i] >= 128) && b[0] != 128
  {}

  function EncodeSubs(subs: seq<nat>): Buffer {
    if subs == [] then [] else EncodeSubs(subs[..|subs| - 1]) + Base128(subs[|subs| - 1])
  }

  /** Where the decoder stands: the finished sub-identifiers and the one under way. */
  datatype Progress = Progress(subs: seq<nat>, v: nat, inSub: bool)

  function Step(p: Progress, b: byte): Option<Progress> {
    if !p.inSub && b == 0x80 then None
    else if b >= 0x80 then Some(Progress(p.subs, p.v * 128 + (b - 0x80), true))
    else Some(Progress(p.subs + [p.v * 128 + b], 0, false))
  }

  function Scan(bytes: Buffer): Option<Progress> {
    if bytes == [] then Some(Progress([], 0, false))
    else
      var before := Scan(bytes[..|bytes| - 1]);
      if before.None? then None else Step(before.value, bytes[|bytes| - 1])
  }

  lemma ScanAppend(bytes: Buffer, b: byte)
    ensures Scan(bytes + [b]) == if Scan(bytes).None? then None else Step(Scan(bytes).value, b)
  {
    assert (bytes + [b])[..|bytes|] == bytes;
  }

  lemma Digits(v: nat, d: nat)
    requires d < 128
    ensures Base128(v * 128 + d) == Continued(v) + [d]
    ensures v > 0 || d > 0 ==> Continued(v * 128 + d) == Continued(v) + [0x80 + d]
  {
    assert (v * 128 + d) / 128 == v && (v * 128 + d) % 128 == d;
  }

  lemma AppendSub(subs: seq<nat>, v: nat)
    ensures EncodeSubs(subs + [v]) == EncodeSubs(subs) + Base128(v)
  {
    assert (subs + [v])[..|subs|] == subs;
  }

  /** What has been scanned is the encoding of the progress. */
  lemma {:induction false} ScanSound(bytes: Buffer)
    requires Scan(bytes).Some?
    ensures var p := Scan(bytes).value; bytes == EncodeSubs(p.subs) + Continued(p.v) && (p.inSub <==> p.v > 0)
  {
    hide Continued, EncodeSubs, Base128;
    NoSubs();
    if bytes == [] {
    } else {
      var front, b := bytes[..|bytes| - 1], bytes[|bytes| - 1];
      ScanSound(front);
      assert bytes == front + [b];
      StepSound(front, Scan(front).value, b);
    }
  }

  lemma StepSound(front: Buffer, p: Progress, b: byte)
    requires front == EncodeSubs(p.subs) + Continued(p.v) && (p.inSub <==> p.v > 0) && Step(p, b).Some?
    ensures var q := Step(p, b).value; front + [b] == EncodeSubs(q.subs) + Continued(q.v) && (q.inSub <==> q.v > 0)
  {
    hide Continued, EncodeSubs, Base128;
    NoSubs();
    Digits(p.v, b % 128);
    assert front + [b] == EncodeSubs(p.subs) + (Continued(p.v) + [b]);
    if b < 0x80 {
      AppendSub(p.subs, p.v * 128 + b);
      assert EncodeSubs(p.subs + [p.v * 128 + b]) + [] == EncodeSubs(p.subs + [p.v * 128 + b]);
    }
  }

  lemma {:induction false} ScanContinued(before: Buffer, v: nat)
    requires Scan(before).Some? && !Scan(before).value.inSub && Scan(before).value.v == 0
    ensures Scan(before + Continued(v)) == Some(Progress(Scan(before).value.subs, v, v > 0))
  {
    hide Scan;
    if v == 0 {
      assert before + Continued(v) == before;
    } else {
      ScanContinued(before, v / 128);
      ScanAppend(before + Continued(v / 128), 0x80 + v % 128);
      assert before + Continued(v) == before + Continued(v / 128) + [0x80 + v % 128];
    }
  }

  lemma ScanBase(before: Buffer, subs: seq<nat>, v: nat)
    requires Scan(before) == Some(Progress(subs, 0, false))
    ensures Scan(before + Base128(v)) == Some(Progress(subs + [v], 0, false))
  {
    hide Scan, Continued;
    ScanContinued(before, v / 128);
    ScanAppend(before + Continued(v / 128), v % 128);
    assert before + Base128(v) == before + Continued(v / 128) + [v % 128];
  }

  lemma {:induction false} ScanEncoded(subs: seq<nat>)
    ensures Scan(EncodeSubs(subs)) == Some(Progress(subs, 0, false))
  {
    hide Scan, Base128, EncodeSubs;
    NoSubs();
    if subs == [] {
    } else {
      var front, v := subs[..|subs| - 1], subs[|subs| - 1];
      ScanEncoded(front);
      ScanBase(EncodeSubs(front), front, v);
      AppendSub(front, v);
      assert subs == front + [v];
    }
  }

  lemma NoSubs()
    ensures EncodeSubs([]) == [] && Continued(0) == [] && Scan([]) == Some(Progress([], 0, false))
  {}

  // ----- arcs -----

  /** The first sub-identifier stands for the first two arcs. */
  function ArcsOf(subs: seq<nat>): (arcs: seq<nat>)
    requires |subs| >= 1
    ensures |arcs| == |subs| + 1 && subs == [40 * arcs[0] + arcs[1]] + arcs[2..]
    ensures arcs[0] <= 2 && (arcs[0] < 2 ==> arcs[1] < 40)
  {
    var z := subs[0];
    (if z < 40 then [0, z] else if z < 80 then [1, z - 40] else [2, z - 80]) + subs[1..]
  }

  function Decimals(arcs: seq<nat>): (parts: seq<string>)
    ensures |parts| == |arcs|
  {
    seq(|arcs|, i requires 0 <= i < |arcs| => Decimal(arcs[i]))
  }

  /** The dotted text of arcs. */
  function Dotted(arcs: seq<nat>): string { Join(Decimals(arcs), '.') }

  lemma DottedSplits(arcs: seq<nat>)
    requires |arcs| >= 1
    ensures Split(Dotted(arcs), '.') == Decimals(arcs) && |Dotted(arcs)| > 0
  {
    forall i | 0 <= i < |arcs| ensures '.' !in Decimals(arcs)[i] && |Decimals(arcs)[i]| > 0 { DecimalNumber(arcs[i]); }
    SplitJoin(Decimals(arcs), '.');
    assert Decimals(arcs)[0] != "";
  }

  lemma DottedInjective(a: seq<nat>, b: seq<nat>)
    requires |a| >= 1 && |b| >= 1 && Dotted(a) == Dotted(b)
    ensures a == b
  {
    DottedSplits(a);
    DottedSplits(b);
    forall i | 0 <= i < |a| ensures a[i] == b[i] {
      assert Decimals(a)[i] == Decimals(b)[i];
      DecimalNumber(a[i]);
      DecimalNumber(b[i]);
    }
  }

  // ----- decodeOid -----

  function DecodeText(bytes: Buffer): string {
    var r := Scan(bytes);
    if bytes == [] || r.None? || r.value.inSub || r.value.subs == [] then "" else Dotted(ArcsOf(r.value.subs))
  }

  method DecodeOid(bytes: Buffer) returns (text: string)
    ensures text == DecodeText(bytes)
  {
    if |bytes| == 0 { return ""; }
    var subs: seq<nat>, v: nat, inSub := [], 0, false;
    for i := 0 to |bytes|
      invariant Scan(bytes[..i]) == Some(Progress(subs, v, inSub)) && (i > 0 ==> inSub || subs != [])
    {
      assert bytes[..i + 1][..i] == bytes[..i];
      var b := bytes[i];
      if !inSub {
        if b == 0x80 {
          assert Scan(bytes[..i + 1]).None?;
          ScanRefuses(bytes, i + 1);
          return "";
        }
        inSub := true;
      }
      v := v * 128 + b % 0x80;
      if b < 0x80 {
        subs := subs + [v];
        v, inSub := 0, false;
      }
    }
    assert bytes[..|bytes|] == bytes;
    if inSub { return ""; }
    text := Dotted(ArcsOf(subs));
  }

  lemma {:induction false} ScanRefuses(bytes: Buffer, i: nat)
    requires i <= |bytes| && Scan(bytes[..i]).None?
    ensures Scan(bytes).None?
  {
    if i < |bytes| {
      var front := bytes[..|bytes| - 1];
      assert front[..i] == bytes[..i];
      ScanRefuses(front, i);
    } else {
      assert bytes[..i] == bytes;
    }
  }

  /** A non-empty text is given to exactly one byte string: the encoding of its arcs. */
  lemma DecodedText(bytes: Buffer, arcs: seq<nat>)
    requires |arcs| >= 1
    ensures DecodeText(bytes) == Dotted(arcs)
            <==> |arcs| >= 2 && arcs[0] <= 2 && (arcs[0] < 2 ==> arcs[1] < 40)
                 && bytes == EncodeSubs([40 * arcs[0] + arcs[1]] + arcs[2..])
  {
    hide Dotted, EncodeSubs, Scan;
    DottedSplits(arcs);
    if DecodeText(bytes) == Dotted(arcs) {
      var p := Scan(bytes).value;
      ScanSound(bytes);
      assert EncodeSubs(p.subs) + Continued(0) == EncodeSubs(p.subs);
      DottedInjective(ArcsOf(p.subs), arcs);
    }
    if |arcs| >= 2 && arcs[0] <= 2 && (arcs[0] < 2 ==> arcs[1] < 40) {
      var subs := [40 * arcs[0] + arcs[1]] + arcs[2..];
      ScanEncoded(subs);
      NotEmpty(subs);
      assert ArcsOf(subs) == arcs;
    }
  }

  lemma NotEmpty(subs: seq<nat>)
    requires subs != []
    ensures EncodeSubs(subs) != []
  {}

  /** Two byte strings never give the same non-empty text. */
  lemma DecodeInjective(a: Buffer, b: Buffer)
    requires DecodeText(a) == DecodeText(b) != ""
    ensures a == b
  {
    hide Dotted, EncodeSubs, Scan;
    var arcs := ArcsOf(Scan(a).value.subs);
    DecodedText(a, arcs);
    DecodedText(b, arcs);
  }

  // ----- oid -----

  const MAX_SAFE: nat := 0x20_0000_0000_0000

  /** The arcs of a dotted text; `Number` is exact on them below 2^53. */
  predicate IsDotted(dotted: string) {
    var parts := Split(dotted, '.');
    |parts| >= 2 && forall i :: 0 <= i < |parts| ==> AllDigits(parts[i]) && Number(parts[i]) < MAX_SAFE
  }

  function Arcs(dotted: string): (arcs: seq<nat>)
    requires IsDotted(dotted)
    ensures |arcs| >= 2
  {
    var parts := Split(dotted, '.');
    seq(|parts|, i requires 0 <= i < |parts| => Number(parts[i]))
  }

  /** The content that `oid` writes: the first octet is cut to a byte. */
  function OidContent(arcs: seq<nat>): Buffer
    requires |arcs| >= 2
  {
    [(40 * arcs[0] + arcs[1]) % 256] + EncodeSubs(arcs[2..])
  }

  method Stack(arc: nat) returns (stack: Buffer)
    ensures stack == Base128(arc)
  {
    var v: nat := arc;
    stack := [v % 0x80];
    v := v / 128;
    while v > 0
      invariant Base128(arc) == Continued(v) + stack
    {
      stack := [0x80 + v % 0x80] + stack;
      v := v / 128;
    }
    assert Continued(0) + stack == stack;
  }

  /** What a text is as a number: `Number`, with None for NaN. */
  type Evaluator = string -> Option<nat>

  /** The evaluator gives decimal numbers below 2^53 their value. */
  ghost predicate ReadsDecimals(number: Evaluator) {
    forall p :: AllDigits(p) && Number(p) < MAX_SAFE ==> number(p) == Some(Number(p))
  }

  function Numbers(number: Evaluator, parts: seq<string>): (arcs: seq<Option<nat>>)
    ensures |arcs| == |parts|
  {
    seq(|parts|, i requires 0 <= i < |parts| => number(parts[i]))
  }

  /** The first octet: cut to a byte, and 0 when one of the first two arcs is missing or not a number. */
  function FirstOctet(arcs: seq<Option<nat>>): byte {
    if |arcs| >= 2 && arcs[0].Some? && arcs[1].Some? then (40 * arcs[0].value + arcs[1].value) % 256 else 0
  }

  /** The further arcs; one that is not a number is written like 0. */
  function Further(arcs: seq<Option<nat>>): (subs: seq<nat>)
    ensures |subs| == if |arcs| >= 2 then |arcs| - 2 else 0
  {
    seq(if |arcs| >= 2 then |arcs| - 2 else 0,
        i requires 0 <= i < |arcs| - 2 => if arcs[i + 2].Some? then arcs[i + 2].value else 0)
  }

  /** The content that `oid` writes for any text. */
  function OidBody(number: Evaluator, dotted: string): Buffer {
    var arcs := Numbers(number, Split(dotted, '.'));
    [FirstOctet(arcs)] + EncodeSubs(Further(arcs))
  }

  /** `oid`. */
  method Encode(number: Evaluator, dotted: string) returns (r: Buffer)
    ensures r == Der.Tlv(0x06, OidBody(number, dotted))
  {
    hide EncodeSubs, Split;
    var parts := Numbers(number, Split(dotted, '.'));
    var body: Buffer := [FirstOctet(parts)];
    NoSubs();
    ghost var subs := Further(parts);
    assert subs[..0] == [];
    if |parts| >= 2 {
      for i := 2 to |parts|
        invariant body == [FirstOctet(parts)] + EncodeSubs(subs[..i - 2])
      {
        var stack: Buffer := [0];
        if parts[i].Some? { stack := Stack(parts[i].value); }
        assert Base128(0) == [0];
        AppendSub(subs[..i - 2], subs[i - 2]);
        assert subs[..i - 1] == subs[..i - 2] + [subs[i - 2]];
        body := body + stack;
      }
    }
    assert subs[..|subs|] == subs;
    r := Der.Tlv(0x06, body);
  }

  /** For dotted decimals the content is that of the arcs. */
  lemma BodyOfDotted(number: Evaluator, dotted: string)
    requires ReadsDecimals(number) && IsDotted(dotted)
    ensures OidBody(number, dotted) == OidContent(Arcs(dotted))
  {
    hide EncodeSubs, Split;
    var arcs := Numbers(number, Split(dotted, '.'));
    assert forall i :: 0 <= i < |arcs| ==> arcs[i] == Some(Arcs(dotted)[i]);
    assert Further(arcs) == Arcs(dotted)[2..];
  }

  lemma ArcsOfDotted(arcs: seq<nat>)
    requires |arcs| >= 2
    ensures IsDotted(Dotted(arcs)) <==> forall i :: 0 <= i < |arcs| ==> arcs[i] < MAX_SAFE
    ensures IsDotted(Dotted(arcs)) ==> Arcs(Dotted(arcs)) == arcs
  {
    hide Dotted;
    DottedSplits(arcs);
    forall i | 0 <= i < |arcs| ensures AllDigits(Decimals(arcs)[i]) && Number(Decimals(arcs)[i]) == arcs[i] {
      DecimalNumber(arcs[i]);
    }
  }

  /** The first two arcs share one octet, and are the ones it is split into again. */
  predicate FirstOctetFits(a: nat, b: nat) {
    a <= 2 && (a < 2 ==> b < 40) && 40 * a + b < 128
  }

  /** `decodeOid` gives the text back to `oid` exactly when the first two arcs fit an octet with a clear top bit. */
  lemma OidRoundTrip(arcs: seq<nat>)
    requires |arcs| >= 2
    ensures DecodeText(OidContent(arcs)) == Dotted(arcs) <==> FirstOctetFits(arcs[0], arcs[1])
  {
    hide Dotted, DecodeText, EncodeSubs;
    var z, rest := 40 * arcs[0] + arcs[1], arcs[2..];
    DecodedText(OidContent(arcs), arcs);
    SplitFirst(z, rest);
    assert z < 128 ==> Base128(z) == [z];
    assert z >= 128 ==> |Base128(z)| > 1;
  }

  /** On texts: what else is needed is that the numbers are written without leading zeros. */
  lemma OidTextRoundTrip(dotted: string)
    requires IsDotted(dotted)
    ensures DecodeText(OidContent(Arcs(dotted))) == dotted
            <==> dotted == Dotted(Arcs(dotted)) && FirstOctetFits(Arcs(dotted)[0], Arcs(dotted)[1])
  {
    hide Dotted, EncodeSubs, Scan, IsDotted, Arcs;
    OidRoundTrip(Arcs(dotted));
    var content := OidContent(Arcs(dotted));
    if DecodeText(content) == dotted {
      EmptyIsNotDotted();
      ArcsOfDotted(ArcsOf(Scan(content).value.subs));
    }
  }

  lemma EmptyIsNotDotted()
    ensures !IsDotted("")
  {}

  lemma {:induction false} SplitFirst(z: nat, rest: seq<nat>)
    ensures EncodeSubs([z] + rest) == Base128(z) + EncodeSubs(rest)
  {
    hide EncodeSubs, Base128;
    NoSubs();
    if rest == [] {
      assert EncodeSubs([]) + Base128(z) == Base128(z) == Base128(z) + [];
      AppendSub([], z);
      assert [z] + rest == [] + [z];
    } else {
      var front, v := rest[..|rest| - 1], rest[|rest| - 1];
      SplitFirst(z, front);
      assert rest == front + [v];
      AppendSub([z] + front, v);
      AppendSub(front, v);
      assert [z] + rest == [z] + front + [v];
    }
  }
}
