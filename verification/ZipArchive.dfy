/** Ordinary ZIP archives, laid out octet by octet, and what the guard of lib/Extract.js makes of them: which it accepts
    and what it charges. Their members may be stored or deflated, and may leave their sizes to a descriptor. */
module ZipArchive {
  import opened Bytes
  import opened Wrappers
  import opened ZipBudget

  /** The lengths of a member's name and of its other variable fields, whether its data is a deflate stream, whether its
      sizes stand in a descriptor behind the data, the data, and what it gives. */
  datatype Member = Member(name: nat, extra: nat, listedExtra: nat, comment: nat,
                           deflated: bool, described: bool, data: Buffer, content: Buffer)

  /** The members, where their headers stand, where the directory lists them, and where the directory's end stands. */
  datatype Archive = Archive(members: seq<Member>, at: seq<nat>, listed: seq<nat>, end: nat)

  // ----- the layout -----

  /** Two octets, the low one first, say n. */
  predicate Two(buf: Buffer, i: nat, n: int) {
    i + 2 <= |buf| && (var a: int, b: int := buf[i], buf[i + 1]; n == a + 0x100 * b)
  }

  /** Four octets, the lowest first, say n. */
  predicate Four(buf: Buffer, i: nat, n: int) {
    && i + 4 <= |buf|
    && (var a: int, b: int, c: int, d: int := buf[i], buf[i + 1], buf[i + 2], buf[i + 3];
        n == a + 0x100 * b + 0x1_0000 * c + 0x100_0000 * d)
  }

  predicate Signed(buf: Buffer, i: nat, c: byte, d: byte) { i + 4 <= |buf| && buf[i..i + 4] == [0x50, 0x4b, c, d] }

  function Start(p: nat, m: Member): nat { p + 30 + m.name + m.extra }

  /** A local header at p and the member's data; what the header says about the size of the content is ignored. */
  predicate Holds(buf: Buffer, p: nat, m: Member) {
    && Start(p, m) + |m.data| <= |buf| && Signed(buf, p, 3, 4) && !Four(buf, p + 22, 0xffff_ffff)
    && (var flags: int := buf[p + 6]; flags / 8 % 2 == if m.described then 1 else 0)
    && Two(buf, p + 8, if m.deflated then 8 else 0) && Two(buf, p + 26, m.name) && Two(buf, p + 28, m.extra)
    && (if m.described then !Four(buf, p + 18, 0xffff_ffff) else Four(buf, p + 18, |m.data|))
    && buf[Start(p, m)..Start(p, m) + |m.data|] == m.data
  }

  /** A header of the directory at q for the member whose local header is at p. */
  predicate Lists(buf: Buffer, q: nat, p: nat, m: Member) {
    && q + 46 <= |buf| && Signed(buf, q, 1, 2) && Four(buf, q + 20, |m.data|) && Four(buf, q + 42, p)
    && Two(buf, q + 28, m.name) && Two(buf, q + 30, m.listedExtra) && Two(buf, q + 32, m.comment)
  }

  /** Stored data is the content; a deflate stream inflates to it whatever follows. */
  ghost predicate Means(inflate: Inflate, m: Member) {
    if m.deflated then forall rest :: inflate(m.data + rest) == Some(m.content) else m.content == m.data
  }

  /** The next member stands behind this one: at once, or anywhere behind it when there is a descriptor. */
  predicate Follows(a: Archive, i: nat)
    requires i + 1 < |a.members| == |a.at| == |a.listed|
  {
    var m, stop := a.members[i], Start(a.at[i], a.members[i]) + |a.members[i].data|;
    && a.listed[i + 1] == a.listed[i] + 46 + m.name + m.listedExtra + m.comment
    && if m.described then a.at[i + 1] >= stop else a.at[i + 1] == stop
  }

  /** The end of the directory, which no comment behind it repeats. */
  predicate Ends(buf: Buffer, a: Archive)
    requires |a.listed| > 0
  {
    && a.end + 22 <= |buf| <= a.end + 22 + 0xffff && Signed(buf, a.end, 5, 6)
    && Two(buf, a.end + 10, |a.members|) && Four(buf, a.end + 16, a.listed[0])
    && forall j :: a.end < j <= |buf| - 22 ==> !Signed(buf, j, 5, 6)
  }

  ghost predicate IsArchive(buf: Buffer, inflate: Inflate, a: Archive) {
    var n := |a.members|;
    && |a.at| == |a.listed| == n > 0 && |buf| < 0xffff_ffff && a.at[0] == 0 && Ends(buf, a)
    && (forall i :: 0 <= i < n ==>
          Holds(buf, a.at[i], a.members[i]) && Lists(buf, a.listed[i], a.at[i], a.members[i])
          && Means(inflate, a.members[i]))
    && (forall i :: 0 <= i < n - 1 ==> Follows(a, i))
    && (a.members[n - 1].described
        || Start(a.at[n - 1], a.members[n - 1]) + |a.members[n - 1].data| == a.listed[0])
  }

  // ----- what there is to be charged -----

  function Size(ms: seq<Member>): nat {
    if ms == [] then 0 else Size(ms[..|ms| - 1]) + |ms[|ms| - 1].content|
  }

  /** The '<' and '=' of all contents. */
  function Marks(ms: seq<Member>): nat {
    if ms == [] then 0
    else
      var content := multiset(ms[|ms| - 1].content);
      Marks(ms[..|ms| - 1]) + content[0x3c] + content[0x3d]
  }

  /** A stored member without data whose size is in a descriptor, which has no size in the directory either. */
  predicate IsNothing(m: Member) { m.described && !m.deflated && m.data == [] }

  /** The contents of the first n members, each at its own offset. */
  function Charges(a: Archive, n: nat): seq<Charge>
    requires n <= |a.members| == |a.at|
  {
    if n == 0 then []
    else
      var m := a.members[n - 1];
      Charges(a, n - 1) + if IsNothing(m) then [] else [Charge(Start(a.at[n - 1], m), m.content)]
  }

  /** The members that can be reached from the front: up to the first whose size is not in its local header. */
  function Walked(ms: seq<Member>): (w: nat)
    ensures w <= |ms|
  {
    if ms == [] then 0 else if ms[0].described then 1 else 1 + Walked(ms[1..])
  }

  predicate Fits(ms: seq<Member>) { Size(ms) <= 134_217_728 && Marks(ms) <= 12_000_000 }

  lemma {:induction false} FitsPrefix(ms: seq<Member>, i: nat)
    requires i <= |ms|
    ensures Fits(ms) ==> Fits(ms[..i])
  {
    if i == |ms| {
      assert ms[..i] == ms;
    } else {
      FitsPrefix(ms[..|ms| - 1], i);
      assert ms[..|ms| - 1][..i] == ms[..i];
    }
  }

  lemma {:induction false} CountIs(content: Buffer, b: byte)
    ensures Count(content, b) == multiset(content)[b]
  {
    if content == [] {
    } else {
      var front, last := content[..|content| - 1], content[|content| - 1];
      CountIs(front, b);
      assert content == front + [last];
    }
  }

  // ----- the guard's view of the octets -----

  lemma FieldsRead(buf: Buffer, i: nat)
    ensures forall n :: Two(buf, i, n) <==> i + 2 <= |buf| && U16(buf, i) == n
    ensures forall n :: Four(buf, i, n) <==> i + 4 <= |buf| && U32(buf, i) == n
  {}

  lemma SignaturesRead(buf: Buffer, i: nat)
    requires i + 4 <= |buf|
    ensures U32(buf, i) == 0x04034b50 <==> Signed(buf, i, 3, 4)
    ensures U32(buf, i) == 0x02014b50 <==> Signed(buf, i, 1, 2)
    ensures U32(buf, i) == 0x06054b50 <==> Signed(buf, i, 5, 6)
  {
    var s := buf[i..i + 4];
    assert s == [buf[i], buf[i + 1], buf[i + 2], buf[i + 3]];
  }

  lemma LocalReads(buf: Buffer, p: nat, m: Member)
    requires Holds(buf, p, m)
    ensures IsLocal(buf, p) && DataStart(buf, p) == Start(p, m) && HasDescriptor(buf, p) == m.described
    ensures U16(buf, p + 8) == (if m.deflated then 8 else 0) && U32(buf, p + 22) != NONE32
    ensures if m.described then U32(buf, p + 18) != NONE32 else U32(buf, p + 18) == |m.data|
  {
    SignaturesRead(buf, p);
    FieldsRead(buf, p + 8);
    FieldsRead(buf, p + 18);
    FieldsRead(buf, p + 22);
    FieldsRead(buf, p + 26);
    FieldsRead(buf, p + 28);
    var low: int, high: int := buf[p + 6], buf[p + 7];
    assert U16(buf, p + 6) == low + 256 * high;
    assert (low + 256 * high) / 8 == low / 8 + 32 * high;
  }

  lemma CentralReads(buf: Buffer, q: nat, p: nat, m: Member)
    requires Lists(buf, q, p, m)
    ensures IsCentral(buf, q) && U32(buf, q + 42) == p && U32(buf, q + 20) == |m.data|
    ensures NextCentral(buf, q) == q + 46 + m.name + m.listedExtra + m.comment
  {
    SignaturesRead(buf, q);
    FieldsRead(buf, q + 20);
    FieldsRead(buf, q + 42);
    FieldsRead(buf, q + 28);
    FieldsRead(buf, q + 30);
    FieldsRead(buf, q + 32);
  }

  lemma {:induction false} EndIsFound(buf: Buffer, a: Archive, i: nat)
    requires |a.listed| > 0 && Ends(buf, a) && a.end <= i <= |buf| - 22
    ensures FindEnd(buf, i) == Some(a.end)
  {
    hide U32;
    SignaturesRead(buf, i);
    if i == a.end {
    } else {
      EndIsFound(buf, a, i - 1);
    }
  }

  lemma EndReads(buf: Buffer, a: Archive)
    requires |a.listed| > 0 && Ends(buf, a)
    ensures |buf| >= 22 && FindEnd(buf, |buf| - 22) == Some(a.end)
    ensures U16(buf, a.end + 10) == |a.members| && U32(buf, a.end + 16) == a.listed[0]
  {
    EndIsFound(buf, a, |buf| - 22);
    FieldsRead(buf, a.end + 10);
    FieldsRead(buf, a.end + 16);
  }

  // ----- one visit -----

  /** The tally when the first n members have been charged in v visits. */
  function After(a: Archive, n: nat, v: nat): Tally
    requires n <= |a.members| == |a.at|
  {
    Tally(ZIP_MAX_UNCOMPRESSED - Size(a.members[..n]), v, Marks(a.members[..n]), Charges(a, n))
  }

  lemma MemberIs(buf: Buffer, inflate: Inflate, a: Archive, i: nat)
    requires IsArchive(buf, inflate, a) && i < |a.members|
    ensures |a.members| == |a.at| == |a.listed| && |buf| < NONE32
    ensures Holds(buf, a.at[i], a.members[i]) && Means(inflate, a.members[i])
    ensures Lists(buf, a.listed[i], a.at[i], a.members[i]) && (i + 1 < |a.members| ==> Follows(a, i))
  {
    hide Ends, Holds, Means, Lists, Follows;
  }

  /** Members stand in order, so their data does as well. */
  lemma {:induction false} StartsAscend(buf: Buffer, inflate: Inflate, a: Archive, i: nat, j: nat)
    requires IsArchive(buf, inflate, a) && i < j < |a.members| == |a.at|
    ensures Start(a.at[i], a.members[i]) + |a.members[i].data| <= a.at[j]
  {
    hide IsArchive, Holds, Means, Lists;
    MemberIs(buf, inflate, a, j - 1);
    if i == j - 1 {
    } else {
      StartsAscend(buf, inflate, a, i, j - 1);
    }
  }

  /** The member is charged, and at this offset. */
  predicate ChargedAt(a: Archive, i: nat, offset: nat)
    requires i < |a.members| == |a.at|
  {
    !IsNothing(a.members[i]) && Start(a.at[i], a.members[i]) == offset
  }

  lemma {:induction false} OffsetsAre(a: Archive, n: nat, offset: nat)
    requires n <= |a.members| == |a.at|
    ensures offset in Offsets(Charges(a, n)) <==> exists i :: 0 <= i < n && ChargedAt(a, i, offset)
  {
    hide IsNothing, Start, Offsets;
    if n == 0 {
      NoneCharged([]);
    } else {
      var m := a.members[n - 1];
      OffsetsAre(a, n - 1, offset);
      assert !IsNothing(m) ==> (ChargedAt(a, n - 1, offset) <==> Start(a.at[n - 1], m) == offset);
      if IsNothing(m) {
        assert Charges(a, n) == Charges(a, n - 1);
      } else {
        OffsetsAdd(Charges(a, n - 1), Charge(Start(a.at[n - 1], m), m.content));
      }
    }
  }

  lemma MemberContent(buf: Buffer, inflate: Inflate, e: Entry, m: Member)
    requires Holds(buf, e.lho, m) && Means(inflate, m)
    requires m.described && !m.deflated ==> e.cdComp == |m.data| > 0
    ensures IsLocal(buf, e.lho) && Content(buf, inflate, e) == Some(m.content)
    ensures !m.deflated ==> StoredSize(buf, e) == Some(|m.data|)
  {
    hide U16, U32, HasDescriptor, DataStart, IsLocal;
    LocalReads(buf, e.lho, m);
    var d := Start(e.lho, m);
    if m.deflated { assert buf[d..] == m.data + buf[d + |m.data|..]; }
  }

  lemma NothingIs(buf: Buffer, inflate: Inflate, e: Entry, m: Member)
    requires Holds(buf, e.lho, m) && Means(inflate, m) && IsNothing(m) && e.cdComp == 0
    ensures IsLocal(buf, e.lho) && StoredSize(buf, e).None? && |m.content| == 0 && Nodes(m.content) == 0
  {
    LocalReads(buf, e.lho, m);
    NodesOfNothing(m.content);
  }

  lemma Grows(a: Archive, n: nat)
    requires n < |a.members| == |a.at|
    ensures Size(a.members[..n + 1]) == Size(a.members[..n]) + |a.members[n].content|
    ensures Marks(a.members[..n + 1]) == Marks(a.members[..n]) + Nodes(a.members[n].content)
  {
    assert a.members[..n + 1][..n] == a.members[..n];
    CountIs(a.members[n].content, 0x3c);
    CountIs(a.members[n].content, 0x3d);
  }

  lemma HoldsFits(buf: Buffer, p: nat, m: Member)
    requires Holds(buf, p, m)
    ensures Start(p, m) + |m.data| <= |buf|
  {}

  lemma NewOffset(buf: Buffer, inflate: Inflate, a: Archive, n: nat)
    requires IsArchive(buf, inflate, a) && n < |a.members| == |a.at|
    ensures Start(a.at[n], a.members[n]) !in Offsets(Charges(a, n))
  {
    hide Offsets, Charges, IsArchive;
    var d := Start(a.at[n], a.members[n]);
    OffsetsAre(a, n, d);
    forall i | 0 <= i < n ensures !ChargedAt(a, i, d) { StartsAscend(buf, inflate, a, i, n); }
  }

  /** A visit to the next member, with the size that the directory gives, charges it if it can be afforded. */
  lemma VisitNew(buf: Buffer, inflate: Inflate, a: Archive, n: nat, v: nat, cdComp: nat)
    requires IsArchive(buf, inflate, a) && n < |a.members| == |a.at| && Fits(a.members[..n])
    requires a.members[n].described && !a.members[n].deflated ==> cdComp == |a.members[n].data|
    ensures VetEntry(buf, inflate, After(a, n, v), Entry(a.at[n], cdComp))
            == if v + 1 <= 8192 && Fits(a.members[..n + 1]) then Some(After(a, n + 1, v + 1)) else None
  {
    hide U16, U32, HasDescriptor, DataStart, IsLocal, Content, StoredSize, Nodes, Offsets, Holds, Means;
    hide Size, Marks, IsArchive, Start;
    var t, e, m := After(a, n, v), Entry(a.at[n], cdComp), a.members[n];
    MemberIs(buf, inflate, a, n);
    LocalReads(buf, e.lho, m);
    HoldsFits(buf, e.lho, m);
    Grows(a, n);
    NewOffset(buf, inflate, a, n);
    if IsNothing(m) {
      NothingIs(buf, inflate, e, m);
      assert Charges(a, n + 1) == Charges(a, n);
      assert VetEntry(buf, inflate, t, e) == if v + 1 <= 8192 then Some(t.(entries := v + 1)) else None;
    } else {
      MemberContent(buf, inflate, e, m);
    }
  }

  /** A visit to a member that has been dealt with, or whose size is not known yet, changes nothing. */
  lemma VisitOld(buf: Buffer, inflate: Inflate, a: Archive, i: nat, n: nat, v: nat, cdComp: nat)
    requires IsArchive(buf, inflate, a) && i < |a.members| == |a.at| && n <= |a.members|
    requires var m := a.members[i];
             (i < n && cdComp == |m.data|) || (i == n && m.described && !m.deflated && cdComp == 0)
    ensures VetEntry(buf, inflate, After(a, n, v), Entry(a.at[i], cdComp))
            == if v + 1 <= 8192 then Some(After(a, n, v + 1)) else None
  {
    hide U16, U32, HasDescriptor, DataStart, IsLocal, Content, Nodes, Offsets, Holds, Size, Marks, Charges, IsArchive;
    var e, m := Entry(a.at[i], cdComp), a.members[i];
    MemberIs(buf, inflate, a, i);
    LocalReads(buf, e.lho, m);
    HoldsFits(buf, e.lho, m);
    OffsetsAre(a, n, Start(a.at[i], m));
    assert i < n && !IsNothing(m) ==> ChargedAt(a, i, Start(a.at[i], m));
  }

  // ----- both walks -----

  /** How many members the walk from the front charges: not the last reached when that is stored without a size. */
  function Reached(ms: seq<Member>): (c: nat)
    ensures c <= |ms|
  {
    if ms == [] then 0
    else if ms[0].described then if ms[0].deflated then 1 else 0
    else 1 + Reached(ms[1..])
  }

  /** What the walk over the local headers goes on to after a member. */
  lemma LocalNext(buf: Buffer, inflate: Inflate, a: Archive, i: nat)
    requires IsArchive(buf, inflate, a) && i < |a.members| == |a.at|
    ensures LocalEntries(buf, a.at[i])
            == [Entry(a.at[i], 0)]
               + if a.members[i].described || i + 1 == |a.members| then [] else LocalEntries(buf, a.at[i + 1])
  {
    hide U16, U32, HasDescriptor, DataStart, IsLocal, Holds, Lists, Means, Start, IsArchive, LocalEntries;
    MemberIs(buf, inflate, a, i);
    LocalReads(buf, a.at[i], a.members[i]);
    LocalUnfolds(buf, a.at[i]);
    if i + 1 == |a.members| {
      LastIs(buf, inflate, a);
      MemberIs(buf, inflate, a, 0);
      NoLocal(buf, a.listed[0], a.at[0], a.members[0]);
    }
  }

  lemma LastIs(buf: Buffer, inflate: Inflate, a: Archive)
    requires IsArchive(buf, inflate, a) && |a.members| == |a.at| == |a.listed| > 0
    ensures var n, m := |a.members|, a.members[|a.members| - 1];
            m.described || Start(a.at[n - 1], m) + |m.data| == a.listed[0]
  {
    hide Ends, Holds, Means, Lists, Follows, Start;
  }

  lemma NoLocal(buf: Buffer, q: nat, p: nat, m: Member)
    requires Lists(buf, q, p, m)
    ensures LocalEntries(buf, q) == []
  {
    SignaturesRead(buf, q);
  }

  /** The walk over the local headers, from the i-th member on. */
  lemma {:induction false} LocalRun(buf: Buffer, inflate: Inflate, a: Archive, i: nat)
    requires IsArchive(buf, inflate, a) && i < |a.members| == |a.at| && i <= 8192 && Fits(a.members[..i])
    ensures var w, c := i + Walked(a.members[i..]), i + Reached(a.members[i..]);
            VetAll(buf, inflate, After(a, i, i), LocalEntries(buf, a.at[i]))
            == if w <= 8192 && Fits(a.members[..c]) then Some(After(a, c, w)) else None
    decreases |a.members| - i
  {
    hide IsArchive, LocalEntries, VetEntry, Fits, After;
    var m, list, rest := a.members[i], LocalEntries(buf, a.at[i]), a.members[i..];
    LocalNext(buf, inflate, a, i);
    assert rest[1..] == a.members[i + 1..];
    if m.described && !m.deflated {
      VisitOld(buf, inflate, a, i, i, i, 0);
    } else {
      VisitNew(buf, inflate, a, i, i, 0);
      var c := i + Reached(rest);
      assert a.members[..c][..i + 1] == a.members[..i + 1];
      FitsPrefix(a.members[..c], i + 1);
      if !m.described && i + 1 < |a.members| && i + 1 <= 8192 && Fits(a.members[..i + 1]) {
        LocalRun(buf, inflate, a, i + 1);
        assert list[1..] == LocalEntries(buf, a.at[i + 1]);
      }
    }
  }

  lemma CentralNext(buf: Buffer, inflate: Inflate, a: Archive, i: nat)
    requires IsArchive(buf, inflate, a) && i < |a.members| == |a.at| == |a.listed|
    ensures var e, left := Entry(a.at[i], |a.members[i].data|), |a.members| - i;
            && e.lho != NONE32
            && CentralEntries(buf, a.listed[i], left)
               == [e] + if left == 1 then [] else CentralEntries(buf, a.listed[i + 1], left - 1)
  {
    hide U16, U32, IsCentral, NextCentral, Holds, Lists, Means, Start, IsArchive;
    MemberIs(buf, inflate, a, i);
    CentralReads(buf, a.listed[i], a.at[i], a.members[i]);
    assert a.at[i] < |buf| by { HeaderFits(buf, a.at[i], a.members[i]); }
  }

  lemma HeaderFits(buf: Buffer, p: nat, m: Member)
    requires Holds(buf, p, m)
    ensures p < |buf|
  {}

  lemma {:induction false} NoneZip64(buf: Buffer, inflate: Inflate, a: Archive, i: nat)
    requires IsArchive(buf, inflate, a) && i < |a.members| == |a.at| == |a.listed|
    ensures NoZip64(CentralEntries(buf, a.listed[i], |a.members| - i))
    decreases |a.members| - i
  {
    hide IsArchive, CentralEntries, NoZip64;
    CentralNext(buf, inflate, a, i);
    var list := CentralEntries(buf, a.listed[i], |a.members| - i);
    NoZip64Cons(list[0], list[1..]);
    if i + 1 == |a.members| {
      assert NoZip64([]) by { NothingZip64(); }
    } else {
      NoneZip64(buf, inflate, a, i + 1);
    }
  }

  lemma NothingZip64()
    ensures NoZip64([])
  {}

  /** The walk over the directory, from its i-th header on, when c members have been charged. */
  lemma {:induction false} CentralRun(buf: Buffer, inflate: Inflate, a: Archive, i: nat, c: nat, v: nat)
    requires IsArchive(buf, inflate, a) && i < |a.members| == |a.at| == |a.listed|
    requires i <= c <= |a.members| && v <= 8192 && Fits(a.members[..c])
    ensures var n := |a.members|;
            VetAll(buf, inflate, After(a, c, v), CentralEntries(buf, a.listed[i], n - i))
            == if v + n - i <= 8192 && Fits(a.members) then Some(After(a, n, v + n - i)) else None
    decreases |a.members| - i
  {
    hide IsArchive, CentralEntries, VetEntry, Fits, After;
    var n, size, next := |a.members|, |a.members[i].data|, if i < c then c else c + 1;
    CentralNext(buf, inflate, a, i);
    if i < c { VisitOld(buf, inflate, a, i, c, v, size); } else { VisitNew(buf, inflate, a, c, v, size); }
    FitsPrefix(a.members, next);
    assert a.members[..n] == a.members;
    if i + 1 < n && v + 1 <= 8192 && Fits(a.members[..next]) {
      CentralRun(buf, inflate, a, i + 1, next, v + 1);
    }
  }

  /** An ordinary archive is accepted exactly when its contents come to no more than 128 MiB, hold no more than
      12 000 000 '<' and '=', and the headers of both walks are no more than 8192; and it is charged for the contents of
      its members, in order. Whatever a local header declares as the size of a content plays no part. */
  lemma OrdinaryExactly(buf: Buffer, inflate: Inflate, a: Archive)
    requires IsArchive(buf, inflate, a)
    ensures Verdict(buf, inflate).Some? <==> Fits(a.members) && Walked(a.members) + |a.members| <= 8192
    ensures Verdict(buf, inflate).Some? ==>
              |a.members| == |a.at| && Verdict(buf, inflate).value.charges == Charges(a, |a.members|)
  {
    hide LocalEntries, CentralEntries, NoZip64, Fits, Charges, FindEnd, IsArchive, VetAll, U16, U32, Walked, Reached;
    hide Directory, Follows, Lists, Holds, Means, DataStart, HasDescriptor;
    EndIs(buf, inflate, a);
    MemberIs(buf, inflate, a, 0);
    var n, ms := |a.members|, a.members;
    assert ms[0..] == ms && ms[..0] == [] && ms[..n] == ms;
    NothingFits();
    AtStart(a);
    LocalRun(buf, inflate, a, 0);
    LocalNext(buf, inflate, a, 0);
    NoneZip64(buf, inflate, a, 0);
    assert n <= 8192 ==> Directory(buf) == Some(CentralEntries(buf, a.listed[0], n)) by { DirectoryIs(buf, a); }
    assert n > 8192 ==> Directory(buf).None? by { DirectoryIs(buf, a); }
    FitsPrefix(ms, Reached(ms));
    if Walked(ms) <= 8192 && Fits(ms[..Reached(ms)]) {
      CentralRun(buf, inflate, a, 0, Reached(ms), Walked(ms));
    }
  }

  lemma EndIs(buf: Buffer, inflate: Inflate, a: Archive)
    requires IsArchive(buf, inflate, a)
    ensures |a.members| > 0 && a.at[0] == 0 && |buf| >= 22 && FindEnd(buf, |buf| - 22) == Some(a.end)
    ensures a.listed[0] < NONE32 && U16(buf, a.end + 10) == |a.members| && U32(buf, a.end + 16) == a.listed[0]
  {
    hide Holds, Means, Follows, Signed;
    EndReads(buf, a);
    assert Lists(buf, a.listed[0], a.at[0], a.members[0]);
  }

  lemma DirectoryIs(buf: Buffer, a: Archive)
    requires |a.listed| > 0 && |buf| >= 22 && FindEnd(buf, |buf| - 22) == Some(a.end) && a.listed[0] < NONE32
    requires a.end + 20 <= |buf| && U16(buf, a.end + 10) == |a.members| && U32(buf, a.end + 16) == a.listed[0]
    ensures Directory(buf)
            == var list := CentralEntries(buf, a.listed[0], |a.members|);
               if |a.members| <= 8192 && NoZip64(list) then Some(list) else None
  {
    hide U16, U32, FindEnd, CentralEntries, NoZip64;
  }

  lemma NothingFits()
    ensures Fits([])
  {}

  lemma AtStart(a: Archive)
    requires |a.members| == |a.at|
    ensures After(a, 0, 0) == START
  {}

  /** The smallest such archive with a content: one member of one octet, '<', stored under a name of one octet. */
  const SMALL: Buffer :=
    [0x50, 0x4b, 3, 4, 0, 0, 0, 0, 0, 0, 0, 0, 0, 0, 0, 0, 0, 0, 1, 0, 0, 0, 1, 0, 0, 0, 1, 0, 0, 0, 0x61, 0x3c]
    + [0x50, 0x4b, 1, 2, 0, 0, 0, 0, 0, 0, 0, 0, 0, 0, 0, 0, 0, 0, 0, 0, 1, 0, 0, 0]
    + [1, 0, 0, 0, 1, 0, 0, 0, 0, 0, 0, 0, 0, 0, 0, 0, 0, 0, 0, 0, 0, 0, 0x61]
    + [0x50, 0x4b, 5, 6, 0, 0, 0, 0, 0, 0, 1, 0, 0, 0, 0, 0, 32, 0, 0, 0, 0, 0]

  const LONE: Member := Member(1, 0, 0, 0, false, false, [0x3c], [0x3c])

  lemma SmallHolds()
    ensures Holds(SMALL, 0, LONE)
  {
    assert SMALL[0..4] == [0x50, 0x4b, 3, 4] && SMALL[31..32] == [0x3c];
  }

  lemma SmallLists()
    ensures Lists(SMALL, 32, 0, LONE)
  {
    assert SMALL[32] == 0x50 && SMALL[33] == 0x4b && SMALL[34] == 1 && SMALL[35] == 2;
  }

  lemma SmallEnds()
    ensures Ends(SMALL, Archive([LONE], [0], [32], 79))
  {
    assert SMALL[79..83] == [0x50, 0x4b, 5, 6];
  }

  lemma SmallIsArchive(inflate: Inflate)
    ensures IsArchive(SMALL, inflate, Archive([LONE], [0], [32], 79))
  {
    hide Holds, Lists, Ends;
    SmallHolds();
    SmallLists();
    SmallEnds();
  }
}
