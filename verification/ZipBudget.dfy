/** The archive guard of lib/Extract.js (`zipWithinBudget`): both enumerations of a ZIP archive are vetted against one
    budget of bytes, nodes and entries. Inflating is an arbitrary function from a stream to its content. */
module ZipBudget {
  import opened Bytes
  import opened Wrappers

  const ZIP_MAX_UNCOMPRESSED: int := 128 * 1024 * 1024
  const ZIP_MAX_NODES: nat := 12_000_000
  const ZIP_MAX_ENTRIES: nat := 8192
  const NONE32: nat := 0xffff_ffff

  /** The content of the deflate stream that a buffer begins with; None when it is corrupt. */
  type Inflate = Buffer -> Option<Buffer>

  // ----- headers -----

  function U16(buf: Buffer, i: nat): (n: nat)
    requires i + 2 <= |buf|
    ensures n <= 0xffff
  {
    buf[i] as int + 256 * (buf[i + 1] as int)
  }

  function U32(buf: Buffer, i: nat): nat
    requires i + 4 <= |buf|
  {
    U16(buf, i) + 0x1_0000 * U16(buf, i + 2)
  }

  predicate IsLocal(buf: Buffer, p: nat) { p + 30 <= |buf| && U32(buf, p) == 0x04034b50 }

  function DataStart(buf: Buffer, p: nat): (d: nat)
    requires IsLocal(buf, p)
    ensures d >= p + 30
  {
    p + 30 + U16(buf, p + 26) + U16(buf, p + 28)
  }

  predicate HasDescriptor(buf: Buffer, p: nat)
    requires IsLocal(buf, p)
  {
    U16(buf, p + 6) / 8 % 2 == 1
  }

  /** How far a sequential reader steps over the data: unknown when the sizes are in a trailing descriptor. */
  function StepOver(buf: Buffer, p: nat): Option<nat>
    requires IsLocal(buf, p)
  {
    if HasDescriptor(buf, p) then None else Some(U32(buf, p + 18))
  }

  /** An entry as a walk reaches it: its local header, and the compressed size if the central directory gives one. */
  datatype Entry = Entry(lho: nat, cdComp: nat)

  /** The entries that the walk over the local headers reaches, from p on. */
  function LocalEntries(buf: Buffer, p: nat): seq<Entry>
    decreases |buf| - p
  {
    if !IsLocal(buf, p) then []
    else
      var step := StepOver(buf, p);
      [Entry(p, 0)] + if step.None? then [] else LocalEntries(buf, DataStart(buf, p) + step.value)
  }

  predicate IsCentral(buf: Buffer, q: nat) { q + 46 <= |buf| && U32(buf, q) == 0x02014b50 }

  function NextCentral(buf: Buffer, q: nat): nat
    requires IsCentral(buf, q)
  {
    q + 46 + U16(buf, q + 28) + U16(buf, q + 30) + U16(buf, q + 32)
  }

  /** The entries that the walk over the central directory reaches, from q on, `left` of them at most. */
  function CentralEntries(buf: Buffer, q: nat, left: nat): seq<Entry>
    decreases left
  {
    if left == 0 || !IsCentral(buf, q) then []
    else [Entry(U32(buf, q + 42), U32(buf, q + 20))] + CentralEntries(buf, NextCentral(buf, q), left - 1)
  }

  /** The last end-of-directory signature at or below i, as far down as the longest comment allows. */
  function FindEnd(buf: Buffer, i: int): (e: Option<nat>)
    requires i <= |buf| - 22
    ensures e.Some? ==> e.value <= i
  {
    if i < 0 || i < |buf| - (22 + 0xffff) then None
    else if U32(buf, i) == 0x06054b50 then Some(i)
    else FindEnd(buf, i - 1)
  }

  // ----- vetting -----

  /** What has been charged for a data offset. */
  datatype Charge = Charge(offset: nat, content: Buffer)

  datatype Tally = Tally(budget: int, entries: nat, nodes: nat, charges: seq<Charge>)

  function Offsets(charges: seq<Charge>): set<nat> {
    set i | 0 <= i < |charges| :: charges[i].offset
  }

  function Count(content: Buffer, b: byte): nat {
    if content == [] then 0 else Count(content[..|content| - 1], b) + if content[|content| - 1] == b then 1 else 0
  }

  /** '<' and '=' */
  function Nodes(content: Buffer): nat { Count(content, 0x3c) + Count(content, 0x3d) }

  function Max1(n: int): int { if n > 1 then n else 1 }

  /** The size of stored data; None for a descriptor entry without a size in the directory. */
  function StoredSize(buf: Buffer, e: Entry): Option<nat>
    requires IsLocal(buf, e.lho)
  {
    if !HasDescriptor(buf, e.lho) then Some(U32(buf, e.lho + 18)) else if e.cdComp > 0 then Some(e.cdComp) else None
  }

  predicate IsStoredWithoutSize(buf: Buffer, e: Entry) {
    IsLocal(buf, e.lho) && U16(buf, e.lho + 8) == 0 && StoredSize(buf, e).None?
  }

  /** The real content of an entry, None when it can not be had. */
  function Content(buf: Buffer, inflate: Inflate, e: Entry): Option<Buffer>
    requires IsLocal(buf, e.lho)
  {
    var d := DataStart(buf, e.lho);
    if d > |buf| then None
    else if U16(buf, e.lho + 8) == 8 then inflate(buf[d..])
    else if U16(buf, e.lho + 8) == 0 && StoredSize(buf, e).Some? && d + StoredSize(buf, e).value <= |buf| then
      Some(buf[d..d + StoredSize(buf, e).value])
    else None
  }

  function ChargeFor(t: Tally, offset: nat, content: Buffer): Option<Tally> {
    if t.budget - |content| < 0 || t.nodes + Nodes(content) > ZIP_MAX_NODES then None
    else Some(Tally(t.budget - |content|, t.entries, t.nodes + Nodes(content), t.charges + [Charge(offset, content)]))
  }

  /** `vet`; None when it refuses the archive. */
  function VetEntry(buf: Buffer, inflate: Inflate, t: Tally, e: Entry): Option<Tally> {
    if !IsLocal(buf, e.lho) || t.entries + 1 > ZIP_MAX_ENTRIES then None
    else if U32(buf, e.lho + 18) == NONE32 || U32(buf, e.lho + 22) == NONE32 || DataStart(buf, e.lho) > |buf| then None
    else
      var visited, d, kind := t.(entries := t.entries + 1), DataStart(buf, e.lho), U16(buf, e.lho + 8);
      if d in Offsets(t.charges) then Some(visited)
      else if kind == 0 && StoredSize(buf, e).None? then Some(visited)
      else
        var content := Content(buf, inflate, e);
        if content.None? || (kind == 8 && |content.value| > Max1(t.budget)) then None
        else ChargeFor(visited, d, content.value)
  }

  function VetAll(buf: Buffer, inflate: Inflate, t: Tally, list: seq<Entry>): Option<Tally>
    decreases |list|
  {
    if list == [] then Some(t)
    else
      var next := VetEntry(buf, inflate, t, list[0]);
      if next.None? then None else VetAll(buf, inflate, next.value, list[1..])
  }

  const START: Tally := Tally(ZIP_MAX_UNCOMPRESSED, 0, 0, [])

  predicate NoZip64(list: seq<Entry>) { forall i :: 0 <= i < |list| ==> list[i].lho != NONE32 }

  /** The entries of the central directory; None when the directory itself is refused. */
  function Directory(buf: Buffer): Option<seq<Entry>>
    requires |buf| >= 22
  {
    var end := FindEnd(buf, |buf| - 22);
    if end.None? then Some([])
    else
      var n, offset := U16(buf, end.value + 10), U32(buf, end.value + 16);
      if n > ZIP_MAX_ENTRIES || offset == NONE32 then None
      else
        var list := CentralEntries(buf, offset, n);
        if NoZip64(list) then Some(list) else None
  }

  /** The tally of an accepted archive. */
  function Verdict(buf: Buffer, inflate: Inflate): Option<Tally> {
    if |buf| < 22 then None
    else
      var local := VetAll(buf, inflate, START, LocalEntries(buf, 0));
      if local.None? || Directory(buf).None? then None
      else
        var both := VetAll(buf, inflate, local.value, Directory(buf).value);
        if both.None? || (LocalEntries(buf, 0) == [] && both.value.charges == []) then None else both
  }

  // ----- what acceptance means -----

  function Total(charges: seq<Charge>): nat {
    if charges == [] then 0 else Total(charges[..|charges| - 1]) + |charges[|charges| - 1].content|
  }

  function TotalNodes(charges: seq<Charge>): nat {
    if charges == [] then 0 else TotalNodes(charges[..|charges| - 1]) + Nodes(charges[|charges| - 1].content)
  }

  predicate Within(t: Tally) {
    && t.budget == ZIP_MAX_UNCOMPRESSED - Total(t.charges) >= 0
    && t.nodes == TotalNodes(t.charges) <= ZIP_MAX_NODES && t.entries <= ZIP_MAX_ENTRIES
    && forall i, j :: 0 <= i < j < |t.charges| ==> t.charges[i].offset != t.charges[j].offset
  }

  /** The entry's data offset was charged, or it is stored with its size in a descriptor and none in the directory. */
  predicate Covered(buf: Buffer, t: Tally, e: Entry) {
    IsLocal(buf, e.lho) && (DataStart(buf, e.lho) in Offsets(t.charges) || IsStoredWithoutSize(buf, e))
  }

  /** The charge is for the real content of the entry. */
  predicate Gives(buf: Buffer, inflate: Inflate, e: Entry, c: Charge) {
    IsLocal(buf, e.lho) && DataStart(buf, e.lho) == c.offset && Content(buf, inflate, e) == Some(c.content)
  }

  /** The charge is for the real content of one of the entries. */
  ghost predicate IsReal(buf: Buffer, inflate: Inflate, c: Charge, list: seq<Entry>) {
    exists e :: e in list && Gives(buf, inflate, e, c)
  }

  lemma VetEntryKeeps(buf: Buffer, inflate: Inflate, t: Tally, e: Entry)
    requires Within(t) && VetEntry(buf, inflate, t, e).Some?
    ensures var u := VetEntry(buf, inflate, t, e).value;
            && Within(u) && u.entries == t.entries + 1 && Covered(buf, u, e)
            && (u.charges == t.charges
                || (exists c :: u.charges == t.charges + [c] && IsReal(buf, inflate, c, [e])))
  {
    hide U16, U32, Nodes, HasDescriptor, Within, Offsets;
    var u, d := VetEntry(buf, inflate, t, e).value, DataStart(buf, e.lho);
    WithinVisited(t);
    if u.charges != t.charges {
      var content := Content(buf, inflate, e).value;
      ChargeKeeps(t.(entries := t.entries + 1), d, content);
      assert e in [e] && IsReal(buf, inflate, Charge(d, content), [e]);
    }
  }

  lemma WithinVisited(t: Tally)
    requires Within(t)
    ensures t.entries + 1 <= ZIP_MAX_ENTRIES ==> Within(t.(entries := t.entries + 1))
  {}

  lemma ChargeKeeps(t: Tally, offset: nat, content: Buffer)
    requires Within(t) && offset !in Offsets(t.charges) && ChargeFor(t, offset, content).Some?
    ensures var u := ChargeFor(t, offset, content).value;
            && Within(u) && u.entries == t.entries
            && u.charges == t.charges + [Charge(offset, content)] && offset in Offsets(u.charges)
  {
    hide Nodes;
    var u, c := ChargeFor(t, offset, content).value, Charge(offset, content);
    assert u.charges[..|t.charges|] == t.charges && u.charges[|t.charges|] == c;
    assert forall i :: 0 <= i < |t.charges| ==> t.charges[i].offset in Offsets(t.charges);
  }

  /** Whatever was charged before stays, so what is covered stays covered. */
  lemma {:induction false} VetAllKeeps(buf: Buffer, inflate: Inflate, t: Tally, list: seq<Entry>)
    requires Within(t) && VetAll(buf, inflate, t, list).Some?
    ensures var u := VetAll(buf, inflate, t, list).value;
            && Within(u) && u.entries == t.entries + |list| && t.charges <= u.charges
            && (forall e :: e in list ==> Covered(buf, u, e))
            && forall c :: c in u.charges ==> c in t.charges || IsReal(buf, inflate, c, list)
    decreases |list|
  {
    hide Within, VetEntry, Content, DataStart, IsLocal, IsStoredWithoutSize;
    if list == [] {
    } else {
      var e, rest, next := list[0], list[1..], VetEntry(buf, inflate, t, list[0]).value;
      VetEntryKeeps(buf, inflate, t, e);
      VetAllKeeps(buf, inflate, next, rest);
      var u := VetAll(buf, inflate, next, rest).value;
      OffsetsGrow(next.charges, u.charges);
      assert Covered(buf, u, e);
      forall x | x in list ensures Covered(buf, u, x) { assert x == e || x in rest; }
      forall c | c in u.charges ensures c in t.charges || IsReal(buf, inflate, c, list) {
        if c in next.charges && c !in t.charges {
          var x :| x in [e] && Gives(buf, inflate, x, c);
          assert x in list;
        } else if c !in next.charges {
          var x :| x in rest && Gives(buf, inflate, x, c);
          assert x in list;
        }
      }
    }
  }

  lemma OffsetsGrow(a: seq<Charge>, b: seq<Charge>)
    requires a <= b
    ensures Offsets(a) <= Offsets(b)
  {
    forall i | 0 <= i < |a| ensures a[i].offset in Offsets(b) { assert a[i] == b[i]; }
  }

  /** An accepted archive: over both enumerations together the real content of the distinct data offsets fits the
      byte budget and the node budget, there are at most ZIP_MAX_ENTRIES visits, and the data offset of every entry
      that either enumeration reaches has been charged, but for stored entries whose size only a descriptor gives. */
  lemma AcceptedIsWithinBudget(buf: Buffer, inflate: Inflate)
    requires |buf| >= 22 && Verdict(buf, inflate).Some? && Directory(buf).Some?
    ensures var t, local, central := Verdict(buf, inflate).value, LocalEntries(buf, 0), Directory(buf).value;
            && Total(t.charges) <= ZIP_MAX_UNCOMPRESSED && TotalNodes(t.charges) <= ZIP_MAX_NODES
            && |local| + |central| == t.entries <= ZIP_MAX_ENTRIES
            && (forall i, j :: 0 <= i < j < |t.charges| ==> t.charges[i].offset != t.charges[j].offset)
            && (forall e :: e in local || e in central ==> Covered(buf, t, e))
            && forall c :: c in t.charges ==> IsReal(buf, inflate, c, local + central)
  {
    hide LocalEntries, Directory, VetEntry, Covered, IsReal;
    var local, central := LocalEntries(buf, 0), Directory(buf).value;
    VetAllKeeps(buf, inflate, START, local);
    var first := VetAll(buf, inflate, START, local).value;
    VetAllKeeps(buf, inflate, first, central);
    var t := Verdict(buf, inflate).value;
    forall e | e in local ensures Covered(buf, t, e) { StaysCovered(buf, first, t, e); }
    forall c | c in t.charges ensures IsReal(buf, inflate, c, local + central) {
      RealInBoth(buf, inflate, c, local, central);
    }
  }

  lemma StaysCovered(buf: Buffer, t: Tally, u: Tally, e: Entry)
    requires Covered(buf, t, e) && t.charges <= u.charges
    ensures Covered(buf, u, e)
  {
    OffsetsGrow(t.charges, u.charges);
  }

  lemma RealInBoth(buf: Buffer, inflate: Inflate, c: Charge, a: seq<Entry>, b: seq<Entry>)
    ensures IsReal(buf, inflate, c, a) || IsReal(buf, inflate, c, b) ==> IsReal(buf, inflate, c, a + b)
  {
    assert forall e :: e in a || e in b ==> e in a + b;
  }

  // ----- whose content is charged -----

  /** An entry whose content `vet` can size up. */
  predicate IsSized(buf: Buffer, e: Entry): (r: bool)
    ensures r ==> IsLocal(buf, e.lho)
  {
    IsLocal(buf, e.lho) && !IsStoredWithoutSize(buf, e)
  }

  /** The first sized entry of the list with the data offset. */
  function FirstSized(buf: Buffer, list: seq<Entry>, offset: nat): Option<Entry> {
    if list == [] then None
    else if IsSized(buf, list[0]) && DataStart(buf, list[0].lho) == offset then Some(list[0])
    else FirstSized(buf, list[1..], offset)
  }

  lemma {:induction false} FirstSizedIs(buf: Buffer, list: seq<Entry>, offset: nat)
    ensures FirstSized(buf, list, offset).Some? ==>
              var f := FirstSized(buf, list, offset).value;
              f in list && IsSized(buf, f) && DataStart(buf, f.lho) == offset
    ensures FirstSized(buf, list, offset).None? ==>
              forall e :: e in list && IsSized(buf, e) ==> DataStart(buf, e.lho) != offset
  {
    hide IsSized;
    if list == [] {
    } else {
      FirstSizedIs(buf, list[1..], offset);
      assert forall e :: e in list <==> e == list[0] || e in list[1..];
    }
  }

  /** What the first sized entry with the offset charges. */
  predicate FirstCharges(buf: Buffer, inflate: Inflate, list: seq<Entry>, c: Charge) {
    var f := FirstSized(buf, list, c.offset);
    f.Some? && IsLocal(buf, f.value.lho) && Content(buf, inflate, f.value) == Some(c.content)
  }

  lemma ChargedOffset(charges: seq<Charge>, c: Charge)
    requires c in charges
    ensures c.offset in Offsets(charges)
  {}

  /** One visit charges the entry's own content exactly when it is sized and its offset is new. */
  lemma VetEntryCharges(buf: Buffer, inflate: Inflate, t: Tally, e: Entry)
    requires VetEntry(buf, inflate, t, e).Some?
    ensures IsLocal(buf, e.lho)
    ensures var u, d := VetEntry(buf, inflate, t, e).value, DataStart(buf, e.lho);
            if d in Offsets(t.charges) || !IsSized(buf, e) then u.charges == t.charges
            else Content(buf, inflate, e).Some? && u.charges == t.charges + [Charge(d, Content(buf, inflate, e).value)]
  {
    hide U16, U32, Nodes, HasDescriptor, Offsets;
  }

  /** The list charges, for every offset not charged before, the content of its first sized entry and no other. */
  lemma {:induction false} VetAllCharges(buf: Buffer, inflate: Inflate, t: Tally, list: seq<Entry>, c: Charge)
    requires VetAll(buf, inflate, t, list).Some?
    ensures c in VetAll(buf, inflate, t, list).value.charges
            <==> c in t.charges || (c.offset !in Offsets(t.charges) && FirstCharges(buf, inflate, list, c))
    decreases |list|
  {
    hide VetEntry, Content, DataStart, IsLocal, IsSized, Offsets;
    if list == [] {
    } else {
      var e, next := list[0], VetEntry(buf, inflate, t, list[0]).value;
      VetEntryCharges(buf, inflate, t, e);
      VetAllCharges(buf, inflate, next, list[1..], c);
      if next.charges != t.charges {
        OffsetsAdd(t.charges, next.charges[|t.charges|]);
        assert next.charges == t.charges + [next.charges[|t.charges|]];
      }
      if c in t.charges { ChargedOffset(t.charges, c); }
    }
  }

  lemma {:induction false} VetAllAppend(buf: Buffer, inflate: Inflate, t: Tally, a: seq<Entry>, b: seq<Entry>)
    ensures VetAll(buf, inflate, t, a + b)
            == var first := VetAll(buf, inflate, t, a);
               if first.None? then None else VetAll(buf, inflate, first.value, b)
    decreases |a|
  {
    hide VetEntry;
    if a == [] {
      assert a + b == b;
    } else {
      assert (a + b)[1..] == a[1..] + b;
      var next := VetEntry(buf, inflate, t, a[0]);
      if next.Some? { VetAllAppend(buf, inflate, next.value, a[1..], b); }
    }
  }

  /** The entry's own content has been charged. */
  predicate OwnCharged(buf: Buffer, inflate: Inflate, charges: seq<Charge>, e: Entry)
    requires IsLocal(buf, e.lho)
  {
    var c := Content(buf, inflate, e);
    c.Some? && Charge(DataStart(buf, e.lho), c.value) in charges
  }

  /** The first sized entry with a new offset has content, or the archive would have been refused. */
  lemma {:induction false} FirstIsCharged(buf: Buffer, inflate: Inflate, t: Tally, list: seq<Entry>, offset: nat)
    requires VetAll(buf, inflate, t, list).Some? && offset !in Offsets(t.charges) && FirstSized(buf, list, offset).Some?
    ensures IsLocal(buf, FirstSized(buf, list, offset).value.lho)
    ensures Content(buf, inflate, FirstSized(buf, list, offset).value).Some?
    decreases |list|
  {
    hide VetEntry, Content, DataStart, IsLocal, IsSized, Offsets;
    var e, next := list[0], VetEntry(buf, inflate, t, list[0]).value;
    VetEntryCharges(buf, inflate, t, e);
    if !(IsSized(buf, e) && DataStart(buf, e.lho) == offset) {
      if next.charges != t.charges { OffsetsAdd(t.charges, next.charges[|t.charges|]); }
      FirstIsCharged(buf, inflate, next, list[1..], offset);
    }
  }

  /** The own content of an entry is charged exactly when the first sized entry with its offset has the same content. */
  lemma OwnIsFirst(buf: Buffer, inflate: Inflate, all: seq<Entry>, e: Entry)
    requires VetAll(buf, inflate, START, all).Some? && e in all && IsSized(buf, e)
    ensures FirstSized(buf, all, DataStart(buf, e.lho)).Some?
    ensures IsLocal(buf, FirstSized(buf, all, DataStart(buf, e.lho)).value.lho)
    ensures OwnCharged(buf, inflate, VetAll(buf, inflate, START, all).value.charges, e)
            <==> Content(buf, inflate, e) == Content(buf, inflate, FirstSized(buf, all, DataStart(buf, e.lho)).value)
  {
    hide VetEntry, IsLocal, IsSized, Content, DataStart;
    var d := DataStart(buf, e.lho);
    FirstSizedIs(buf, all, d);
    FirstIsCharged(buf, inflate, START, all, d);
    if Content(buf, inflate, e).Some? {
      VetAllCharges(buf, inflate, START, all, Charge(d, Content(buf, inflate, e).value));
    }
  }

  /** Whose content an accepted archive has been charged for: the content of an entry that either enumeration reaches
      is charged exactly when the first sized entry with the same data offset has that same content. */
  lemma ChargedExactly(buf: Buffer, inflate: Inflate, e: Entry)
    requires |buf| >= 22 && Verdict(buf, inflate).Some? && Directory(buf).Some?
    requires (e in LocalEntries(buf, 0) || e in Directory(buf).value) && IsSized(buf, e)
    ensures var all, d := LocalEntries(buf, 0) + Directory(buf).value, DataStart(buf, e.lho);
            && FirstSized(buf, all, d).Some? && IsLocal(buf, FirstSized(buf, all, d).value.lho)
            && (OwnCharged(buf, inflate, Verdict(buf, inflate).value.charges, e)
                <==> Content(buf, inflate, e) == Content(buf, inflate, FirstSized(buf, all, d).value))
  {
    hide LocalEntries, Directory, VetEntry, Content, DataStart, IsLocal, OwnCharged;
    AllVetted(buf, inflate);
    OwnIsFirst(buf, inflate, LocalEntries(buf, 0) + Directory(buf).value, e);
  }

  lemma AllVetted(buf: Buffer, inflate: Inflate)
    requires |buf| >= 22 && Verdict(buf, inflate).Some? && Directory(buf).Some?
    ensures VetAll(buf, inflate, START, LocalEntries(buf, 0) + Directory(buf).value)
            == Some(Verdict(buf, inflate).value)
  {
    hide LocalEntries, Directory, VetEntry;
    VetAllAppend(buf, inflate, START, LocalEntries(buf, 0), Directory(buf).value);
  }

  /** Entries with one data offset are read alike: by the same method and, when stored, with the same size. */
  predicate ReadAlike(buf: Buffer, e: Entry, f: Entry)
    requires IsSized(buf, e) && IsSized(buf, f)
  {
    && U16(buf, e.lho + 8) == U16(buf, f.lho + 8)
    && (U16(buf, e.lho + 8) == 0 ==> StoredSize(buf, e) == StoredSize(buf, f))
  }

  ghost predicate AllReadAlike(buf: Buffer, all: seq<Entry>) {
    forall e, f :: e in all && f in all && IsSized(buf, e) && IsSized(buf, f) ==>
      (DataStart(buf, e.lho) == DataStart(buf, f.lho) ==> ReadAlike(buf, e, f))
  }

  ghost predicate SameContents(buf: Buffer, inflate: Inflate, all: seq<Entry>) {
    forall e, f :: e in all && f in all && IsSized(buf, e) && IsSized(buf, f) ==>
      (DataStart(buf, e.lho) == DataStart(buf, f.lho) ==> Content(buf, inflate, e) == Content(buf, inflate, f))
  }

  /** Every sized entry that either enumeration reaches has had its own real content charged exactly when entries that
      share a data offset have the same content; and they have when they are read alike. */
  lemma AllChargedExactly(buf: Buffer, inflate: Inflate)
    requires |buf| >= 22 && Verdict(buf, inflate).Some? && Directory(buf).Some?
    ensures var all, charges := LocalEntries(buf, 0) + Directory(buf).value, Verdict(buf, inflate).value.charges;
            && ((forall e :: e in all && IsSized(buf, e) ==> OwnCharged(buf, inflate, charges, e))
                <==> SameContents(buf, inflate, all))
            && (AllReadAlike(buf, all) ==> SameContents(buf, inflate, all))
  {
    hide LocalEntries, Directory, VetEntry, DataStart, IsLocal, Content, Verdict, OwnCharged, IsSized, ReadAlike;
    AllVetted(buf, inflate);
    var all, charges := LocalEntries(buf, 0) + Directory(buf).value, Verdict(buf, inflate).value.charges;
    forall e, f | e in all && f in all && IsSized(buf, e) && IsSized(buf, f)
      ensures DataStart(buf, e.lho) == DataStart(buf, f.lho) ==>
                && (OwnCharged(buf, inflate, charges, e) && OwnCharged(buf, inflate, charges, f) ==>
                      Content(buf, inflate, e) == Content(buf, inflate, f))
                && (ReadAlike(buf, e, f) ==> Content(buf, inflate, e) == Content(buf, inflate, f))
    {
      if DataStart(buf, e.lho) == DataStart(buf, f.lho) {
        OwnIsFirst(buf, inflate, all, e);
        OwnIsFirst(buf, inflate, all, f);
        AlikeContents(buf, inflate, e, f);
      }
    }
    forall e | e in all && IsSized(buf, e) && SameContents(buf, inflate, all)
      ensures OwnCharged(buf, inflate, charges, e)
    {
      OwnIsFirst(buf, inflate, all, e);
      FirstSizedIs(buf, all, DataStart(buf, e.lho));
    }
  }

  lemma AlikeContents(buf: Buffer, inflate: Inflate, e: Entry, f: Entry)
    requires IsSized(buf, e) && IsSized(buf, f) && DataStart(buf, e.lho) == DataStart(buf, f.lho)
    ensures ReadAlike(buf, e, f) ==> Content(buf, inflate, e) == Content(buf, inflate, f)
  {
    hide U16, U32, HasDescriptor, StoredSize, DataStart;
  }

  /** A stored entry of no size at 0, whose name holds the header of a deflated entry with the same data offset; the
      directory gives the latter alone. */
  ghost predicate NestsHeaders(buf: Buffer) {
    && |buf| >= 60 && IsLocal(buf, 0) && IsLocal(buf, 30) && !IsLocal(buf, 60)
    && !HasDescriptor(buf, 0) && U16(buf, 8) == 0 && U32(buf, 18) == 0 && U32(buf, 22) != NONE32
    && U16(buf, 26) == 30 && U16(buf, 28) == 0
    && U16(buf, 38) == 8 && U32(buf, 48) != NONE32 && U32(buf, 52) != NONE32 && U16(buf, 56) == 0 && U16(buf, 58) == 0
    && exists size :: Directory(buf) == Some([Entry(30, size)])
  }

  /** Such an archive is accepted with an empty charge, whatever its deflated entry inflates to. */
  lemma NestedHeaderUncharged(buf: Buffer, inflate: Inflate)
    requires NestsHeaders(buf)
    ensures Verdict(buf, inflate).Some? && Verdict(buf, inflate).value.charges == [Charge(60, [])]
    ensures forall size :: Content(buf, inflate, Entry(30, size)) == inflate(buf[60..])
  {
    hide U16, U32, Directory;
    var local, central := Entry(0, 0), Directory(buf).value;
    assert LocalEntries(buf, 60) == [];
    assert LocalEntries(buf, 0) == [local];
    assert Content(buf, inflate, local) == Some([]);
    assert Nodes([]) == 0;
    var t := Tally(ZIP_MAX_UNCOMPRESSED, 1, 0, [Charge(60, [])]);
    assert START.charges + [Charge(60, [])] == t.charges;
    assert ChargeFor(START.(entries := 1), 60, []) == Some(t);
    assert DataStart(buf, 0) == 60 && 60 !in Offsets(START.charges);
    assert VetEntry(buf, inflate, START, local) == Some(t);
    assert VetAll(buf, inflate, START, [local]) == Some(t);
    assert t.charges[0].offset in Offsets(t.charges);
    assert VetEntry(buf, inflate, t, central[0]) == Some(t.(entries := 2));
    assert VetAll(buf, inflate, t, central) == Some(t.(entries := 2));
  }

  /** An archive of that shape, whose directory stands at 60 and ends at 106. */
  const NESTED: Buffer :=
    [0x50, 0x4b, 3, 4, 0, 0, 0, 0, 0, 0, 0, 0, 0, 0, 0, 0, 0, 0, 0, 0, 0, 0, 0, 0, 0, 0, 30, 0, 0, 0]
    + [0x50, 0x4b, 3, 4, 0, 0, 0, 0, 8, 0, 0, 0, 0, 0, 0, 0, 0, 0, 0, 0, 0, 0, 0, 0, 0, 0, 0, 0, 0, 0]
    + [0x50, 0x4b, 1, 2, 0, 0, 0, 0, 0, 0, 0, 0, 0, 0, 0, 0, 0, 0, 0, 0, 0, 0, 0]
    + [0, 0, 0, 0, 0, 0, 0, 0, 0, 0, 0, 0, 0, 0, 0, 0, 0, 0, 0, 30, 0, 0, 0]
    + [0x50, 0x4b, 5, 6, 0, 0, 0, 0, 0, 0, 1, 0, 0, 0, 0, 0, 60, 0, 0, 0, 0, 0]

  lemma NestedDirectory()
    ensures Directory(NESTED) == Some([Entry(30, 0)])
  {
    var buf := NESTED;
    assert U32(buf, 106) == 0x06054b50 && U16(buf, 116) == 1 && U32(buf, 122) == 60;
    assert U32(buf, 60) == 0x02014b50 && U32(buf, 80) == 0 && U32(buf, 102) == 30;
    hide U32;
    assert FindEnd(buf, 106) == Some(106);
    assert CentralEntries(buf, 60, 1) == [Entry(30, 0)] by {
      assert CentralEntries(buf, NextCentral(buf, 60), 0) == [];
    }
  }

  lemma NestedOuter()
    ensures IsLocal(NESTED, 0) && !HasDescriptor(NESTED, 0) && U16(NESTED, 8) == 0 && U32(NESTED, 18) == 0
    ensures U32(NESTED, 22) != NONE32 && U16(NESTED, 26) == 30 && U16(NESTED, 28) == 0 && !IsLocal(NESTED, 60)
  {}

  lemma NestedInner()
    ensures IsLocal(NESTED, 30) && U16(NESTED, 38) == 8 && U32(NESTED, 48) != NONE32 && U32(NESTED, 52) != NONE32
    ensures U16(NESTED, 56) == 0 && U16(NESTED, 58) == 0
  {}

  lemma NestedHasTheShape()
    ensures NestsHeaders(NESTED)
  {
    hide Directory, U16, U32, HasDescriptor, IsLocal;
    NestedOuter();
    NestedInner();
    NestedDirectory();
  }

  // ----- the guard itself -----

  datatype Step = Refused | Unknown | Over(n: nat)

  function StepOf(buf: Buffer, p: nat): Step
    requires IsLocal(buf, p)
  {
    var s := StepOver(buf, p);
    if s.None? then Unknown else Over(s.value)
  }

  class Guard {
    const buf: Buffer
    const inflate: Inflate
    var budget: int
    var entries: nat
    var nodes: nat
    var vetted: set<nat>
    ghost var charges: seq<Charge>

    ghost function View(): Tally
      reads this
    {
      Tally(budget, entries, nodes, charges)
    }

    ghost predicate Valid()
      reads this
    {
      vetted == Offsets(charges) && nodes <= ZIP_MAX_NODES
    }

    constructor (buf: Buffer, inflate: Inflate)
      ensures this.buf == buf && this.inflate == inflate && Valid() && View() == START
    {
      this.buf, this.inflate := buf, inflate;
      budget, entries, nodes, vetted, charges := ZIP_MAX_UNCOMPRESSED, 0, 0, {}, [];
    }

    method CountMarker(content: Buffer, marker: byte)
      modifies this`nodes
      ensures old(nodes) + Count(content, marker) <= ZIP_MAX_NODES ==> nodes == old(nodes) + Count(content, marker)
      ensures old(nodes) + Count(content, marker) > ZIP_MAX_NODES ==> nodes > ZIP_MAX_NODES
    {
      var i := 0;
      while i < |content| && nodes <= ZIP_MAX_NODES
        invariant 0 <= i <= |content| && nodes == old(nodes) + Count(content[..i], marker)
      {
        assert content[..i + 1][..i] == content[..i];
        if content[i] == marker { nodes := nodes + 1; }
        i := i + 1;
      }
      assert content[..|content|] == content;
      CountPrefix(content, i, marker);
    }

    /** `countNodes` */
    method CountNodes(content: Buffer) returns (ok: bool)
      modifies this`nodes
      ensures ok <==> old(nodes) + Nodes(content) <= ZIP_MAX_NODES
      ensures ok ==> nodes == old(nodes) + Nodes(content)
    {
      CountMarker(content, 0x3c);
      if nodes > ZIP_MAX_NODES { return false; }
      CountMarker(content, 0x3d);
      ok := nodes <= ZIP_MAX_NODES;
    }

    /** `vet` */
    method Vet(e: Entry) returns (step: Step)
      requires Valid()
      modifies this
      ensures VetEntry(buf, inflate, old(View()), e).None? ==> step == Refused
      ensures VetEntry(buf, inflate, old(View()), e).Some? ==> (
        && Valid() && View() == VetEntry(buf, inflate, old(View()), e).value
        && IsLocal(buf, e.lho) && step == StepOf(buf, e.lho))
    {
      hide U32, U16, Nodes, Offsets, DataStart;
      if !IsLocal(buf, e.lho) { return Refused; }
      entries := entries + 1;
      if entries > ZIP_MAX_ENTRIES { return Refused; }
      var kind, compSize, uncomp := U16(buf, e.lho + 8), U32(buf, e.lho + 18), U32(buf, e.lho + 22);
      if compSize == NONE32 || uncomp == NONE32 { return Refused; }
      var dataStart := DataStart(buf, e.lho);
      if dataStart > |buf| { return Refused; }
      step := StepOf(buf, e.lho);
      if dataStart in vetted { return; }
      var content;
      if kind == 8 {
        var inflated := inflate(buf[dataStart..]);
        if inflated.None? || |inflated.value| > Max1(budget) { return Refused; }
        content := inflated.value;
      } else if kind == 0 {
        var storedLen := StoredSize(buf, e);
        if storedLen.None? { return Unknown; }
        if dataStart + storedLen.value > |buf| { return Refused; }
        content := buf[dataStart..dataStart + storedLen.value];
      } else {
        return Refused;
      }
      budget := budget - |content|;
      vetted := vetted + {dataStart};
      OffsetsAdd(charges, Charge(dataStart, content));
      charges := charges + [Charge(dataStart, content)];
      if budget < 0 { return Refused; }
      NodesOfNothing(content);
      if |content| > 0 {
        var ok := CountNodes(content);
        if !ok { return Refused; }
      }
    }
  }

  lemma {:induction false} CountPrefix(content: Buffer, i: nat, marker: byte)
    requires i <= |content|
    ensures Count(content[..i], marker) <= Count(content, marker)
  {
    if i < |content| {
      CountPrefix(content[..|content| - 1], i, marker);
      assert content[..|content| - 1][..i] == content[..i];
    } else {
      assert content[..i] == content;
    }
  }

  lemma NodesOfNothing(content: Buffer)
    ensures |content| == 0 ==> Nodes(content) == 0
  {}

  lemma OffsetsAdd(charges: seq<Charge>, c: Charge)
    ensures Offsets(charges + [c]) == Offsets(charges) + {c.offset}
  {
    var more := charges + [c];
    assert forall i :: 0 <= i < |charges| ==> more[i] == charges[i];
    assert more[|charges|] == c;
  }

  /** `zipWithinBudget`: both walks, which end on every buffer. */
  method WithinBudget(buf: Buffer, inflate: Inflate) returns (ok: bool)
    ensures ok <==> Verdict(buf, inflate).Some?
  {
    hide U32, U16, VetEntry, DataStart, FindEnd, StepOver;
    hide HasDescriptor, Offsets, LocalEntries, CentralEntries, NoZip64, IsLocal;
    if |buf| < 22 { return false; }
    var g := new Guard(buf, inflate);
    var p: nat, sawLocal := 0, false;
    LocalEmpty(buf, p);
    while IsLocal(buf, p)
      invariant LocalEntries(buf, p) == [] <==> !IsLocal(buf, p)
      invariant g.Valid() && g.buf == buf && g.inflate == inflate
      invariant VetAll(buf, inflate, START, LocalEntries(buf, 0))
                == VetAll(buf, inflate, g.View(), LocalEntries(buf, p))
      invariant sawLocal ==> IsLocal(buf, 0)
      invariant !sawLocal ==> p == 0
      decreases |buf| - p
    {
      LocalUnfolds(buf, p);
      var step := g.Vet(Entry(p, 0));
      if step == Refused { return false; }
      sawLocal := true;
      if step == Unknown {
        assert VetAll(buf, inflate, START, LocalEntries(buf, 0)) == Some(g.View());
        break;
      }
      p := DataStart(buf, p) + step.n;
      LocalEmpty(buf, p);
    }
    LocalEmpty(buf, 0);
    assert VetAll(buf, inflate, START, LocalEntries(buf, 0)) == Some(g.View());
    var eocd := FindEndFrom(buf);
    NoneCharged(g.charges);
    if eocd.Some? {
      var cdEntries, cdOffset := U16(buf, eocd.value + 10), U32(buf, eocd.value + 16);
      if cdEntries > ZIP_MAX_ENTRIES || cdOffset == NONE32 { return false; }
      var fine := WalkCentral(g, cdOffset, cdEntries);
      if !fine { return false; }
      NoneCharged(g.charges);
    }
    ok := sawLocal || g.vetted != {};
  }

  lemma NoneCharged(charges: seq<Charge>)
    ensures Offsets(charges) == {} <==> charges == []
  {
    if charges != [] { assert charges[0].offset in Offsets(charges); }
  }

  /** The second walk, over the central directory. */
  method WalkCentral(g: Guard, cdOffset: nat, cdEntries: nat) returns (fine: bool)
    requires g.Valid()
    modifies g
    ensures var list := CentralEntries(g.buf, cdOffset, cdEntries);
            var t := VetAll(g.buf, g.inflate, old(g.View()), list);
            && (fine <==> NoZip64(list) && t.Some?)
            && (fine ==> g.Valid() && t == Some(g.View()))
  {
    hide U32, U16, VetEntry, DataStart, NextCentral, IsLocal;
    var q: nat, seenCd: nat := cdOffset, 0;
    while seenCd < cdEntries && q + 46 <= |g.buf|
      invariant seenCd <= cdEntries && g.Valid()
      invariant VetAll(g.buf, g.inflate, old(g.View()), CentralEntries(g.buf, cdOffset, cdEntries))
                == VetAll(g.buf, g.inflate, g.View(), CentralEntries(g.buf, q, cdEntries - seenCd))
      invariant NoZip64(CentralEntries(g.buf, cdOffset, cdEntries))
                <==> NoZip64(CentralEntries(g.buf, q, cdEntries - seenCd))
    {
      if U32(g.buf, q) != 0x02014b50 { break; }
      var cdComp, lho := U32(g.buf, q + 20), U32(g.buf, q + 42);
      var rest := CentralEntries(g.buf, NextCentral(g.buf, q), cdEntries - seenCd - 1);
      NoZip64Cons(Entry(lho, cdComp), rest);
      if lho == NONE32 { return false; }
      var step := g.Vet(Entry(lho, cdComp));
      if step == Refused { return false; }
      q := NextCentral(g.buf, q);
      seenCd := seenCd + 1;
    }
    assert CentralEntries(g.buf, q, cdEntries - seenCd) == [];
    fine := true;
  }

  lemma NoZip64Cons(e: Entry, rest: seq<Entry>)
    ensures NoZip64([e] + rest) <==> e.lho != NONE32 && NoZip64(rest)
  {
    var all := [e] + rest;
    assert all[0] == e && forall i :: 0 <= i < |rest| ==> all[i + 1] == rest[i];
  }

  method FindEndFrom(buf: Buffer) returns (e: Option<nat>)
    requires |buf| >= 22
    ensures e == FindEnd(buf, |buf| - 22)
  {
    hide U32;
    var i := |buf| - 22;
    var low := if |buf| - (22 + 0xffff) > 0 then |buf| - (22 + 0xffff) else 0;
    while i >= low
      invariant low - 1 <= i <= |buf| - 22 && FindEnd(buf, |buf| - 22) == FindEnd(buf, i)
    {
      if U32(buf, i) == 0x06054b50 { return Some(i); }
      i := i - 1;
    }
    e := None;
  }

  lemma LocalUnfolds(buf: Buffer, p: nat)
    requires IsLocal(buf, p)
    ensures p < |buf|
    ensures var s := StepOver(buf, p);
            LocalEntries(buf, p)
            == [Entry(p, 0)] + if s.None? then [] else LocalEntries(buf, DataStart(buf, p) + s.value)
  {}

  lemma LocalEmpty(buf: Buffer, p: nat)
    ensures LocalEntries(buf, p) == [] <==> !IsLocal(buf, p)
  {}
}
