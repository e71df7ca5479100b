/** The certificate that lib/Cert.js builds and the extension reader of lib/Attest.js that must agree with it:
    `derName`, `derExtension` and the shape of `buildSelfSigned`; `certExtension`. */
module Certificate {
  import opened Bytes
  import opened Wrappers
  import opened Der
  import opened Oid

  // ----- building -----

  datatype Extension = Extension(oid: string, critical: bool, value: Buffer)

  const BOOLEAN_TRUE: Buffer := [0x01, 0x01, 0xff]

  function OidItem(number: Evaluator, oid: string): Item {
    Item(0x06, OidBody(number, oid))
  }

  /** The parts of an extension: OID, optional critical flag, value in an OCTET STRING. */
  function ExtensionParts(number: Evaluator, e: Extension): seq<Item> {
    [OidItem(number, e.oid)] + (if e.critical then [Item(0x01, [0xff])] else []) + [Item(0x04, e.value)]
  }

  /** `derExtension`. */
  method DerExtension(number: Evaluator, oid: string, critical: bool, value: Buffer) returns (r: Buffer)
    ensures r == Sequence(Flatten(ExtensionParts(number, Extension(oid, critical, value))))
    ensures var flag := if critical then [0x01, 0x01, 0xff] else [];
            r == Tlv(0x30, Tlv(0x06, OidBody(number, oid)) + flag + Tlv(0x04, value))
  {
    hide OidBody;
    var parts := Oid.Encode(number, oid);
    if critical { parts := parts + BOOLEAN_TRUE; }
    parts := parts + Tlv(0x04, value);
    r := Sequence(parts);
    FlattenParts(number, Extension(oid, critical, value));
  }

  lemma FlattenParts(number: Evaluator, e: Extension)
    ensures Flatten(ExtensionParts(number, e))
            == Tlv(0x06, OidBody(number, e.oid)) + (if e.critical then BOOLEAN_TRUE else []) + Tlv(0x04, e.value)
  {
    hide OidBody;
    var oid, flag, value := [OidItem(number, e.oid)], [Item(0x01, [0xff])], [Item(0x04, e.value)];
    FlattenOne(oid[0]);
    FlattenOne(flag[0]);
    FlattenOne(value[0]);
    assert Tlv(0x01, [0xff]) == BOOLEAN_TRUE;
    FlattenAppend(oid, flag);
    FlattenAppend(oid + flag, value);
    FlattenAppend(oid, value);
    assert oid + [] == oid;
  }

  /** What goes into a certificate besides its extensions: the serial number, the common name, the two validity
      times as written elements, the public key, and the signature. */
  datatype Fields = Fields(serial: Buffer, cn: Buffer, times: seq<Item>, key: Buffer, signature: Buffer)

  const SHA256_RSA: string := "1.2.840.113549.1.1.11"
  const COMMON_NAME: string := "2.5.4.3"

  function Algorithm(number: Evaluator): (i: Item)
    ensures i.tag == 0x30
  {
    Item(0x30, Flatten([OidItem(number, SHA256_RSA), Item(0x05, [])]))
  }

  /** `derName`. */
  function Name(number: Evaluator, cn: Buffer): (i: Item)
    ensures i.tag == 0x30
  {
    Item(0x30, Flatten([Item(0x31, Flatten([Item(0x30, Flatten([OidItem(number, COMMON_NAME), Item(0x0c, cn)]))]))]))
  }

  function ExtensionItems(number: Evaluator, exts: seq<Extension>): (items: seq<Item>)
    ensures |items| == |exts|
  {
    seq(|exts|, i requires 0 <= i < |exts| => Item(0x30, Flatten(ExtensionParts(number, exts[i]))))
  }

  /** The TBSCertificate fields: version, serial number, algorithm, issuer, validity, subject, key, extensions. */
  function TbsItems(number: Evaluator, f: Fields, exts: seq<Extension>): (items: seq<Item>)
    ensures |items| == 8 && items[7] == Item(0xa3, Flatten([Item(0x30, Flatten(ExtensionItems(number, exts)))]))
    ensures items[..7] == PlainItems(number, f)
  {
    PlainItems(number, f) + [Item(0xa3, Flatten([Item(0x30, Flatten(ExtensionItems(number, exts)))]))]
  }

  function PlainItems(number: Evaluator, f: Fields): (items: seq<Item>)
    ensures |items| == 7 && forall x :: x in items ==> x.tag != 0xa3
  {
    hide Name, Algorithm, Flatten, IntegerContent, Tlv;
    [Item(0xa0, Tlv(0x02, [2])), Item(0x02, IntegerContent(f.serial)), Algorithm(number), Name(number, f.cn),
     Item(0x30, Flatten(f.times)), Name(number, f.cn), Item(0x30, f.key)]
  }

  function CertificateItems(number: Evaluator, f: Fields, exts: seq<Extension>): (items: seq<Item>)
    ensures |items| == 3 && items[0] == Item(0x30, Flatten(TbsItems(number, f, exts)))
  {
    [Item(0x30, Flatten(TbsItems(number, f, exts))), Algorithm(number), Item(0x03, [0x00] + f.signature)]
  }

  function CertificateDer(number: Evaluator, f: Fields, exts: seq<Extension>): Buffer
  {
    Sequence(Flatten(CertificateItems(number, f, exts)))
  }

  // ----- flattened lists -----

  lemma FlattenOne(item: Item)
    ensures Flatten([item]) == Tlv(item.tag, item.content)
  {}

  lemma {:induction false} FlattenAppend(a: seq<Item>, b: seq<Item>)
    ensures Flatten(a + b) == Flatten(a) + Flatten(b)
  {
    hide Tlv;
    if a == [] {
      assert a + b == b;
    } else {
      assert (a + b)[1..] == a[1..] + b;
      FlattenAppend(a[1..], b);
    }
  }

  lemma {:induction false} FlattenLonger(items: seq<Item>)
    ensures forall i :: 0 <= i < |items| ==> |items[i].content| < |Flatten(items)|
  {
    if items == [] {
    } else {
      FlattenLonger(items[1..]);
      assert forall i :: 0 < i < |items| ==> items[i] == items[1..][i - 1];
    }
  }

  // ----- reading -----

  /** An extension as read: its critical flag and its value. */
  datatype Found = Found(critical: bool, value: Buffer)

  function ContentOf(buf: Buffer, e: Element): Buffer {
    if e.start <= e.end <= |buf| then buf[e.start..e.end] else []
  }

  function FirstWithTag(elements: seq<Element>, tag: byte): Option<Element> {
    if elements == [] then None
    else if elements[0].tag == tag then Some(elements[0])
    else FirstWithTag(elements[1..], tag)
  }

  /** The first extension with the wanted OID. Whatever is malformed on the way to it makes the whole search fail. */
  function FindExtension(der: Buffer, exts: seq<Element>, want: string): Option<Found> {
    if exts == [] then None
    else
      var r := ChildrenOf(der, exts[0].start, exts[0].end);
      if r.Err? || r.value == [] then None
      else
        var parts := r.value;
        if DecodeText(ContentOf(der, parts[0])) != want then FindExtension(der, exts[1..], want)
        else if |parts| == 1 then None
        else if |parts| == 3 then
          Some(Found(ContentOf(der, parts[1]) == [0xff], ContentOf(der, parts[2])))
        else
          Some(Found(false, ContentOf(der, parts[1])))
  }

  /** The children of the first child, or of the given element; none when anything is malformed. */
  function Inside(der: Buffer, e: Option<Element>): Option<seq<Element>> {
    if e.None? then None
    else
      var r := ChildrenOf(der, e.value.start, e.value.end);
      if r.Ok? then Some(r.value) else None
  }

  function First(elements: Option<seq<Element>>): Option<Element> {
    if elements.None? || elements.value == [] then None else Some(elements.value[0])
  }

  /** `certExtension`. */
  function CertExtension(der: Buffer, want: string): Option<Found> {
    var cert := ReadTlv(der, 0);
    if cert.Err? then None
    else
      var tbs := First(Inside(der, Some(cert.value)));
      var fields := Inside(der, tbs);
      if fields.None? then None
      else
        var list := Inside(der, First(Inside(der, FirstWithTag(fields.value, 0xa3))));
        if list.None? then None else FindExtension(der, list.value, want)
  }

  method ReadExtension(der: Buffer, want: string) returns (r: Option<Found>)
    ensures r == CertExtension(der, want)
  {
    hide ChildrenOf, ReadTlv, DecodeText;
    var cert := Der.ReadTLV(der, 0);
    if cert.Err? { return None; }
    var kids := Der.Children(der, cert.value.start, cert.value.end);
    if kids.Err? || kids.value == [] { return None; }
    var tbs := kids.value[0];
    var tbsKids := Der.Children(der, tbs.start, tbs.end);
    if tbsKids.Err? { return None; }
    var extsCtx := FirstWithTag(tbsKids.value, 0xa3);
    if extsCtx.None? { return None; }
    var wrapped := Der.Children(der, extsCtx.value.start, extsCtx.value.end);
    if wrapped.Err? || wrapped.value == [] { return None; }
    var exts := Der.Children(der, wrapped.value[0].start, wrapped.value[0].end);
    if exts.Err? { return None; }
    for i := 0 to |exts.value|
      invariant FindExtension(der, exts.value, want) == FindExtension(der, exts.value[i..], want)
    {
      var ext := exts.value[i];
      assert exts.value[i..][0] == ext && exts.value[i..][1..] == exts.value[i + 1..];
      var parts := Der.Children(der, ext.start, ext.end);
      if parts.Err? || parts.value == [] { return None; }
      var text := Oid.DecodeOid(ContentOf(der, parts.value[0]));
      if text != want { continue; }
      if |parts.value| == 1 { return None; }
      var critical, value := false, parts.value[1];
      if |parts.value| == 3 {
        critical := ContentOf(der, parts.value[1]) == [0xff];
        value := parts.value[2];
      }
      return Some(Found(critical, ContentOf(der, value)));
    }
    return None;
  }

  /** The parts of the i-th extension, and whether it is the wanted one. */
  predicate Skipped(der: Buffer, ext: Element, want: string) {
    var parts := ChildrenOf(der, ext.start, ext.end);
    parts.Ok? && parts.value != [] && DecodeText(ContentOf(der, parts.value[0])) != want
  }

  /** Which extension is found: the first that is not skipped for another OID. It gives null when it is malformed or has
      no value; three parts are a flag and a value, and the flag is set by the one octet 0xff only. */
  lemma {:induction false} FoundExactly(der: Buffer, exts: seq<Element>, want: string, i: nat)
    requires i <= |exts| && forall j :: 0 <= j < i ==> Skipped(der, exts[j], want)
    requires i < |exts| ==> !Skipped(der, exts[i], want)
    ensures FindExtension(der, exts, want)
            == if i == |exts| then None
               else
                 var parts := ChildrenOf(der, exts[i].start, exts[i].end);
                 if parts.Err? || |parts.value| < 2 then None
                 else if |parts.value| == 3 then
                   Some(Found(ContentOf(der, parts.value[1]) == [0xff], ContentOf(der, parts.value[2])))
                 else Some(Found(false, ContentOf(der, parts.value[1])))
    decreases |exts|
  {
    hide ChildrenOf, DecodeText, ContentOf;
    if i == 0 {
    } else {
      assert Skipped(der, exts[0], want);
      assert forall j :: 0 <= j < i - 1 ==> exts[1..][j] == exts[j + 1];
      FoundExactly(der, exts[1..], want, i - 1);
    }
  }

  // ----- agreement -----

  /** The elements hold the items, in order. */
  ghost predicate Hold(buf: Buffer, elements: seq<Element>, items: seq<Item>) {
    && |elements| == |items|
    && forall i :: 0 <= i < |items| ==>
         elements[i].start <= elements[i].end <= |buf| && elements[i].tag == items[i].tag
         && ContentOf(buf, elements[i]) == items[i].content
  }

  lemma HeldAt(buf: Buffer, elements: seq<Element>, items: seq<Item>, i: nat)
    requires Hold(buf, elements, items) && i < |items|
    ensures |elements| == |items| && elements[i].start <= elements[i].end <= |buf| && elements[i].tag == items[i].tag
    ensures ContentOf(buf, elements[i]) == items[i].content && |items[i].content| <= |buf|
  {}

  lemma {:induction false} HoldsAreHeld(buf: Buffer, elements: seq<Element>, items: seq<Item>, start: int, end: int)
    requires |elements| == |items| && Holds(buf, elements, items, start, end)
    ensures Hold(buf, elements, items)
  {
    hide ReadTlv;
    if elements == [] {
    } else {
      HoldsAreHeld(buf, elements[1..], items[1..], elements[0].end, end);
      forall i | 0 < i < |items| ensures elements[i] == elements[1..][i - 1] && items[i] == items[1..][i - 1] {}
    }
  }

  /** Reading inside an element whose content is a flattened list gives elements that hold the list. */
  lemma ReadInside(buf: Buffer, e: Element, items: seq<Item>)
    requires e.start <= e.end <= |buf| && ContentOf(buf, e) == Flatten(items) && |Flatten(items)| < LIMIT
    ensures ChildrenOf(buf, e.start, e.end).Ok? && Hold(buf, ChildrenOf(buf, e.start, e.end).value, items)
  {
    hide ChildrenOf, Holds, Hold, Flatten;
    FlattenLonger(items);
    SpanSplitsUniquely(buf, e.start, e.end, items);
    HoldsAreHeld(buf, ChildrenOf(buf, e.start, e.end).value, items, e.start, e.end);
  }

  function FirstMatch(exts: seq<Extension>, want: string): Option<Found> {
    if exts == [] then None
    else if exts[0].oid == want then Some(Found(exts[0].critical, exts[0].value))
    else FirstMatch(exts[1..], want)
  }

  /** The first extension whose OID, as it was written, decodes to the wanted text. */
  function FirstDecoded(number: Evaluator, exts: seq<Extension>, want: string): Option<Found> {
    if exts == [] then None
    else if DecodeText(OidBody(number, exts[0].oid)) == want then Some(Found(exts[0].critical, exts[0].value))
    else FirstDecoded(number, exts[1..], want)
  }

  /** The OID texts that survive `oid` and `decodeOid`. */
  predicate Survives(oid: string) {
    IsDotted(oid) && oid == Dotted(Arcs(oid)) && FirstOctetFits(Arcs(oid)[0], Arcs(oid)[1])
  }

  lemma {:induction false} DecodedIsMatch(number: Evaluator, exts: seq<Extension>, want: string)
    requires ReadsDecimals(number) && forall e :: e in exts ==> Survives(e.oid)
    ensures FirstDecoded(number, exts, want) == FirstMatch(exts, want)
    decreases |exts|
  {
    hide DecodeText, OidBody, OidContent, IsDotted, Arcs, Dotted, ReadsDecimals;
    if exts == [] {
    } else {
      OidTextRoundTrip(exts[0].oid);
      BodyOfDotted(number, exts[0].oid);
      DecodedIsMatch(number, exts[1..], want);
    }
  }

  lemma {:induction false} FindMatches(number: Evaluator, der: Buffer, elements: seq<Element>, exts: seq<Extension>,
                                       want: string)
    requires Hold(der, elements, ExtensionItems(number, exts)) && |der| < LIMIT
    ensures FindExtension(der, elements, want) == FirstDecoded(number, exts, want)
    decreases |exts|
  {
    hide ChildrenOf, DecodeText, OidBody, Flatten;
    if exts == [] {
    } else {
      var e, items := exts[0], ExtensionItems(number, exts);
      assert items[1..] == ExtensionItems(number, exts[1..]);
      ReadInside(der, elements[0], ExtensionParts(number, e));
      var parts := ChildrenOf(der, elements[0].start, elements[0].end).value;
      assert ContentOf(der, parts[0]) == ExtensionParts(number, e)[0].content;
      assert Hold(der, elements[1..], ExtensionItems(number, exts[1..]));
      FindMatches(number, der, elements[1..], exts[1..], want);
    }
  }

  lemma {:induction false} TagFound(elements: seq<Element>, tag: byte, at: nat)
    requires at < |elements| && elements[at].tag == tag && forall i :: 0 <= i < at ==> elements[i].tag != tag
    ensures FirstWithTag(elements, tag) == Some(elements[at])
  {
    if at == 0 {
    } else {
      TagFound(elements[1..], tag, at - 1);
    }
  }

  /** Reading down to the TBSCertificate. */
  lemma TbsHeld(number: Evaluator, f: Fields, exts: seq<Extension>)
    returns (cert: Element, parts: seq<Element>, tbs: seq<Element>)
    requires |CertificateDer(number, f, exts)| < LIMIT
    ensures var der := CertificateDer(number, f, exts);
            && ReadTlv(der, 0) == Ok(cert) && cert.tag == 0x30 && cert.end == |der|
            && ChildrenOf(der, cert.start, cert.end) == Ok(parts) && Hold(der, parts, CertificateItems(number, f, exts))
            && ChildrenOf(der, parts[0].start, parts[0].end) == Ok(tbs) && Hold(der, tbs, TbsItems(number, f, exts))
  {
    hide ChildrenOf, ReadTlv, Flatten, TbsItems, Hold, ContentOf, CertificateDer;
    var der, items := CertificateDer(number, f, exts), CertificateItems(number, f, exts);
    cert := WholeReads(number, f, exts);
    ReadInside(der, cert, items);
    parts := ChildrenOf(der, cert.start, cert.end).value;
    HeldAt(der, parts, items, 0);
    ReadInside(der, parts[0], TbsItems(number, f, exts));
    tbs := ChildrenOf(der, parts[0].start, parts[0].end).value;
  }

  lemma WholeReads(number: Evaluator, f: Fields, exts: seq<Extension>) returns (cert: Element)
    requires |CertificateDer(number, f, exts)| < LIMIT
    ensures var der, whole := CertificateDer(number, f, exts), Flatten(CertificateItems(number, f, exts));
            && ReadTlv(der, 0) == Ok(cert) && cert.tag == 0x30 && cert.start <= cert.end == |der|
            && ContentOf(der, cert) == whole && |whole| < LIMIT
  {
    hide ReadTlv, Flatten, CertificateItems, Tlv, ContentOf;
    cert := SequenceReads(Flatten(CertificateItems(number, f, exts)));
  }

  lemma SequenceReads(content: Buffer) returns (e: Element)
    requires |Tlv(0x30, content)| < LIMIT
    ensures var der := Tlv(0x30, content);
            && ReadTlv(der, 0) == Ok(e) && e.tag == 0x30 && e.start <= e.end == |der|
            && ContentOf(der, e) == content && |content| < LIMIT
  {
    hide ReadTlv, Tlv;
    var der := Tlv(0x30, content);
    assert |content| < |der| by { TlvLonger(content); }
    ReadInvertsWrite([], 0x30, content, []);
    assert [] + der + [] == der;
    e := ReadTlv(der, 0).value;
  }

  lemma TlvLonger(content: Buffer)
    ensures |content| < |Tlv(0x30, content)|
  {}

  /** Build and read agree: whatever the extensions' OID texts, `certExtension` finds exactly the first extension whose
      written OID decodes to the wanted text, with its value and critical flag, and nothing when there is none. When all
      texts survive the codec this is the first extension with the wanted OID. */
  lemma BuildReadAgree(number: Evaluator, f: Fields, exts: seq<Extension>, want: string)
    requires |CertificateDer(number, f, exts)| < LIMIT
    ensures CertExtension(CertificateDer(number, f, exts), want) == FirstDecoded(number, exts, want)
    ensures ReadsDecimals(number) && (forall e :: e in exts ==> Survives(e.oid)) ==>
              CertExtension(CertificateDer(number, f, exts), want) == FirstMatch(exts, want)
  {
    hide ChildrenOf, ReadTlv, Flatten, FindExtension, FirstMatch, FirstDecoded, Algorithm, Survives, ReadsDecimals;
    hide TbsItems, PlainItems, CertificateItems, ExtensionItems;
    if ReadsDecimals(number) && (forall e :: e in exts ==> Survives(e.oid)) { DecodedIsMatch(number, exts, want); }
    var der := CertificateDer(number, f, exts);
    var cert, parts, fields := TbsHeld(number, f, exts);
    forall i | 0 <= i < 7 ensures fields[i].tag != 0xa3 {
      assert TbsItems(number, f, exts)[i] == TbsItems(number, f, exts)[..7][i];
    }
    TagFound(fields, 0xa3, 7);
    Shorter(der, fields[7]);
    var wrapped := [Item(0x30, Flatten(ExtensionItems(number, exts)))];
    ReadInside(der, fields[7], wrapped);
    var list := ChildrenOf(der, fields[7].start, fields[7].end).value[0];
    Shorter(der, list);
    ReadInside(der, list, ExtensionItems(number, exts));
    FindMatches(number, der, ChildrenOf(der, list.start, list.end).value, exts, want);
  }

  lemma Shorter(der: Buffer, e: Element)
    requires e.start <= e.end <= |der|
    ensures |ContentOf(der, e)| <= |der|
  {}

  /** The whole of a certificate as a reader finds it (section 4.1 of RFC 5280): version 3, the serial number, the
      signature algorithm inside and outside, one name as issuer and subject, the validity, the key, the extensions, and
      the signature behind an octet for no unused bits. */
  lemma CertificateReads(number: Evaluator, f: Fields, exts: seq<Extension>)
    requires |CertificateDer(number, f, exts)| < LIMIT
    ensures var der := CertificateDer(number, f, exts);
            var cert := ReadTlv(der, 0);
            && cert.Ok? && cert.value.tag == 0x30 && cert.value.end == |der|
            && var parts := ChildrenOf(der, cert.value.start, cert.value.end);
               && parts.Ok? && Tags(parts.value) == [0x30, 0x30, 0x03]
               && ContentOf(der, parts.value[2]) == [0] + f.signature
               && var tbs := ChildrenOf(der, parts.value[0].start, parts.value[0].end);
                  && tbs.Ok? && Tags(tbs.value) == [0xa0, 0x02, 0x30, 0x30, 0x30, 0x30, 0x30, 0xa3]
                  && ContentOf(der, tbs.value[0]) == [0x02, 0x01, 0x02]
                  && (f.serial != [] ==> MinimalNatural(ContentOf(der, tbs.value[1])))
                  && FromBigEndian(ContentOf(der, tbs.value[1])) == FromBigEndian(f.serial)
                  && ContentOf(der, tbs.value[2]) == ContentOf(der, parts.value[1])
                     == Tlv(0x06, OidBody(number, "1.2.840.113549.1.1.11")) + [0x05, 0x00]
                  && ContentOf(der, tbs.value[3]) == ContentOf(der, tbs.value[5])
                     == Tlv(0x31, Tlv(0x30, Tlv(0x06, OidBody(number, "2.5.4.3")) + Tlv(0x0c, f.cn)))
                  && ContentOf(der, tbs.value[4]) == Flatten(f.times) && ContentOf(der, tbs.value[6]) == f.key
  {
    hide ChildrenOf, ReadTlv, Flatten, OidBody, Algorithm, Name, ExtensionItems, IntegerContent, MinimalNatural;
    hide FromBigEndian, Tlv, CertificateDer, ContentOf, Hold, Tags;
    var der, outer := CertificateDer(number, f, exts), CertificateItems(number, f, exts);
    var inner := TbsItems(number, f, exts);
    var cert, parts, tbs := TbsHeld(number, f, exts);
    TagsHeld(der, parts, outer);
    TagsHeld(der, tbs, inner);
    assert Tags(parts) == [0x30, 0x30, 0x03];
    assert Tags(tbs) == [0xa0, 0x02, 0x30, 0x30, 0x30, 0x30, 0x30, 0xa3];
    HeldAt(der, parts, outer, 1);
    HeldAt(der, parts, outer, 2);
    forall i | 0 <= i < 8 ensures ContentOf(der, tbs[i]) == inner[i].content { HeldAt(der, tbs, inner, i); }
    IntegerMeaning(f.serial);
    FixedParts(number, f.cn);
  }

  function Tags(elements: seq<Element>): (t: seq<byte>)
    ensures |t| == |elements|
  {
    seq(|elements|, i requires 0 <= i < |elements| => elements[i].tag)
  }

  lemma TagsHeld(der: Buffer, elements: seq<Element>, items: seq<Item>)
    requires Hold(der, elements, items)
    ensures |elements| == |Tags(elements)| == |items|
    ensures forall i :: 0 <= i < |items| ==> Tags(elements)[i] == items[i].tag
  {}

  lemma FixedParts(number: Evaluator, cn: Buffer)
    ensures Tlv(0x02, [2]) == [0x02, 0x01, 0x02]
    ensures Algorithm(number).content == Tlv(0x06, OidBody(number, "1.2.840.113549.1.1.11")) + [0x05, 0x00]
    ensures Name(number, cn).content == Tlv(0x31, Tlv(0x30, Tlv(0x06, OidBody(number, "2.5.4.3")) + Tlv(0x0c, cn)))
  {
    hide OidBody;
    var oid, name := OidItem(number, SHA256_RSA), OidItem(number, COMMON_NAME);
    FlattenAppend([oid], [Item(0x05, [])]);
    FlattenOne(oid);
    FlattenOne(Item(0x05, []));
    assert Tlv(0x05, []) == [0x05, 0x00];
    FlattenAppend([name], [Item(0x0c, cn)]);
    FlattenOne(name);
    FlattenOne(Item(0x0c, cn));
    FlattenOne(Item(0x30, Flatten([name, Item(0x0c, cn)])));
    FlattenOne(Item(0x31, Flatten([Item(0x30, Flatten([name, Item(0x0c, cn)]))])));
    assert [oid] + [Item(0x05, [])] == [oid, Item(0x05, [])];
    assert [name] + [Item(0x0c, cn)] == [name, Item(0x0c, cn)];
  }
}
