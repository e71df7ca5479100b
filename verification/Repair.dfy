/** Reading, decoding and repairing a folder of shard files: `readShard` of lib/Disperse.js, and `readShards`,
    `decode` and `repair` of lib/DisperseProcess.js. A file is its contents, or None when it cannot be read. */
module Repair {
  import Arithmetic
  import opened Bytes
  import opened Wrappers
  import opened ShardFrame
  import opened GaloisTables
  import opened Disperse
  import Sets

  const MAX_ARCHIVE_BYTES: nat := 0x8000_0000
  const ARCH: nat := MAX_ARCHIVE_BYTES + 256 * HEADER_V2
  const NULL_READ_COST: nat := 0x10_0000

  type File = Option<Buffer>

  // ----- reading one file -----

  /** `readShard`: the header and exactly the payload that it declares. */
  function ReadShard(file: File): (r: Option<Buffer>)
    ensures r.Some? ==> file.Some? && r.value <= file.value && |r.value| <= HEADER_V2 + MAX_ARCHIVE_BYTES
  {
    if file.None? || |file.value| < PRE then None
    else
      var f := file.value;
      if f[..4] != MAGIC || !VersionSupported(f[4]) then None
      else
        var size := HeaderSizeFor(f[4]) + FromBigEndian(f[16..20]);
        if FromBigEndian(f[16..20]) > MAX_ARCHIVE_BYTES || |f| < size then None else Some(f[..size])
  }

  /** What is read of a file, and when: the magic, a version of 1 or 2, no more than an archive declared, and all of it
      there. */
  lemma ReadExactly(f: Buffer)
    ensures ReadShard(Some(f)).Some?
            <==> && |f| >= 20 && f[..4] == [0x56, 0x44, 0x53, 0x48] && (f[4] == 1 || f[4] == 2)
                 && FromBigEndian(f[16..20]) <= 0x8000_0000
                 && |f| >= (if f[4] == 1 then 52 else 68) + FromBigEndian(f[16..20])
    ensures ReadShard(Some(f)).Some? ==>
              ReadShard(Some(f)).value == f[..(if f[4] == 1 then 52 else 68) + FromBigEndian(f[16..20])]
  {
    hide FromBigEndian;
  }

  /** Cutting the padding off loses nothing: what is read parses exactly as the whole file does, and a file that
      parses is read, unless it declares more than an archive. */
  lemma ReadingKeepsShards(sha: Digest, f: Buffer)
    ensures ReadShard(Some(f)).Some? ==> Unframe(sha, ReadShard(Some(f)).value) == Unframe(sha, f)
    ensures Unframe(sha, f).Some? && Unframe(sha, f).value.f.shardLen <= MAX_ARCHIVE_BYTES ==> ReadShard(Some(f)).Some?
  {
    hide FromBigEndian, BigEndian;
    var r := ReadShard(Some(f));
    if r.Some? {
      var b, hs := r.value, HeaderSizeFor(f[4]);
      assert b[..4] == f[..4] && b[8..16] == f[8..16] && b[16..20] == f[16..20];
      assert b[hs..hs + FromBigEndian(f[16..20])] == f[hs..hs + FromBigEndian(f[16..20])];
      assert b[4..PRE + ID_LEN] == f[4..PRE + ID_LEN] && b[PRE..PRE + ID_LEN] == f[PRE..PRE + ID_LEN];
      assert b[PRE..hs] == f[PRE..hs] && hs == HEADER_V2 ==> b[PRE + ID_LEN..hs] == f[PRE + ID_LEN..hs];
    }
  }

  /** A file that holds a shard of a dispersal, with anything after it, reads as that very shard. */
  lemma ShardFileReads(sha: Digest, archive: Buffer, n: nat, k: nat, framing: Framing, s: nat, f: Buffer)
    requires IsDigest(sha) && ValidParameters(|archive|, n, k) && framing.Valid() && s < n
    requires |archive| <= MAX_ARCHIVE_BYTES && FramedShard(sha, archive, n, k, framing, s) <= f
    ensures ReadShard(Some(f)) == Some(FramedShard(sha, archive, n, k, framing, s))
  {
    hide FromBigEndian, BigEndian, FrameOf, ShardLen, Payload, Radix, Unframe;
    HeldShardReads(sha, archive, n, k, framing, s, f);
    PayloadLength(archive, k, s);
    ShardLenBound(|archive|, k);
    ArchiveLengthFits(|archive|, k);
    ReadingKeepsShards(sha, f);
    var whole := FramedShard(sha, archive, n, k, framing, s);
    FrameSize(sha, IdentityOf(archive, n, k, framing, s), framing.Id(), Payload(archive, k, s));
    assert whole == f[..|whole|];
    DeclaredLength(sha, f);
  }

  lemma ShardLenBound(len: nat, k: nat)
    requires k >= 1
    ensures ShardLen(len, k) <= if len == 0 then 1 else len
  {
    var a := len + k - 1;
    assert a / k * k <= a;
    if len > 0 { AtMost(len, k, a / k); } else { assert a / k == 0; }
  }

  lemma AtMost(len: nat, k: nat, up: nat)
    requires k >= 1 && len >= 1 && up * k <= len + k - 1
    ensures up <= len
  {
    if up > len { Exceeds(len, k, up - len - 1); }
  }

  lemma Exceeds(len: nat, k: nat, d: nat)
    requires k >= 1 && len >= 1
    ensures (d + len + 1) * k >= len + k
  {
    assert (d + len) * k >= d + len;
    assert (d + len + 1) * k == (d + len) * k + k;
  }

  lemma FrameSize(sha: Digest, f: Identity, id: Buffer, y: Buffer)
    requires IsDigest(sha) && WellFormed(f, id, y)
    ensures |FrameOf(sha, f, id, y)| == HeaderSizeFor(f.ver) + |y|
    ensures FrameOf(sha, f, id, y)[4] == f.ver
  {}

  lemma DeclaredLength(sha: Digest, f: Buffer)
    requires Unframe(sha, f).Some?
    ensures |f| >= PRE && Unframe(sha, f).value.f.shardLen == FromBigEndian(f[16..20])
    ensures Unframe(sha, f).value.f.ver == f[4] && |f| >= HeaderSizeFor(f[4]) + FromBigEndian(f[16..20])
  {
    hide FromBigEndian;
  }

  // ----- the reading budgets -----

  /** The buffers read from the files. */
  function ReadAll(files: seq<File>): seq<Buffer> {
    if files == [] then []
    else
      var bufs, b := ReadAll(files[..|files| - 1]), ReadShard(files[|files| - 1]);
      if b.Some? then bufs + [b.value] else bufs
  }

  predicate IsGood(sha: Digest, b: Buffer) {
    Unframe(sha, b).Some? && Unframe(sha, b).value.good
  }

  /** What unreadable files and bad shards cost. */
  function JunkRead(sha: Digest, files: seq<File>): nat {
    if files == [] then 0
    else
      var b := ReadShard(files[|files| - 1]);
      JunkRead(sha, files[..|files| - 1])
      + if b.None? then NULL_READ_COST else if IsGood(sha, b.value) then 0 else |b.value|
  }

  /** A good shard is kept unless its group already holds its index. */
  predicate IsKept(sha: Digest, before: seq<Buffer>, b: Buffer) {
    IsGood(sha, b) && var p := Unframe(sha, b).value; p.f.idx !in Members(GoodShards(sha, before), KeyOf(p))
  }

  function KeptBytes(sha: Digest, files: seq<File>): nat {
    if files == [] then 0
    else
      var front, b := files[..|files| - 1], ReadShard(files[|files| - 1]);
      KeptBytes(sha, front) + if b.Some? && IsKept(sha, ReadAll(front), b.value) then |b.value| else 0
  }

  predicate Exhausted(sha: Digest, files: seq<File>) {
    JunkRead(sha, files) >= 4 * ARCH || KeptBytes(sha, files) >= 2 * ARCH
  }

  /** How many of the files are read, from the i-th on: up to the first point where a budget is exhausted. */
  ghost function Stop(sha: Digest, files: seq<File>, i: nat): (stop: nat)
    requires i <= |files|
    ensures i <= stop <= |files| && forall j :: i <= j < stop ==> !Exhausted(sha, files[..j])
    ensures stop < |files| ==> Exhausted(sha, files[..stop])
    decreases |files| - i
  {
    if i == |files| || Exhausted(sha, files[..i]) then i else Stop(sha, files, i + 1)
  }

  /** The buffers that are actually read before a budget runs out. */
  ghost function Read(sha: Digest, files: seq<File>): seq<Buffer> {
    ReadAll(files[..Stop(sha, files, 0)])
  }

  // ----- the kept group -----

  /** The buffers kept for one key, in the order they were read. */
  function Kept(sha: Digest, bufs: seq<Buffer>, key: Key): seq<Buffer> {
    if bufs == [] then []
    else
      var front, b := bufs[..|bufs| - 1], bufs[|bufs| - 1];
      var g := Kept(sha, front, key);
      if IsKept(sha, front, b) && KeyOf(Unframe(sha, b).value) == key then g + [b] else g
  }

  lemma NoGoodShards(sha: Digest)
    ensures GoodShards(sha, []) == []
  {}

  /** Keeping one buffer per index preserves the group and drops every other. */
  lemma {:induction false} KeptIsGroup(sha: Digest, bufs: seq<Buffer>, key: Key)
    ensures Members(GoodShards(sha, Kept(sha, bufs, key)), key) == Members(GoodShards(sha, bufs), key)
    ensures |Kept(sha, bufs, key)| == |Members(GoodShards(sha, bufs), key)|
    ensures forall p :: p in GoodShards(sha, Kept(sha, bufs, key)) ==> KeyOf(p) == key
  {
    hide Unframe, KeyOf, Members, IsKept, GoodShards;
    if bufs != [] {
      var front, b := bufs[..|bufs| - 1], bufs[|bufs| - 1];
      KeptIsGroup(sha, front, key);
      var g := Kept(sha, front, key);
      AppendGood(sha, front, b);
      AppendGood(sha, g, b);
      assert bufs == front + [b];
      KeptMeans(sha, front, b);
      if IsGood(sha, b) {
        var p := Unframe(sha, b).value;
        MembersAppend(GoodShards(sha, front), p, key);
        MembersAppend(GoodShards(sha, g), p, key);
      }
    } else {
      NoMembers();
      NoGoodShards(sha);
    }
  }

  lemma AppendGood(sha: Digest, front: seq<Buffer>, b: Buffer)
    ensures GoodShards(sha, front + [b])
            == if IsGood(sha, b) then GoodShards(sha, front) + [Unframe(sha, b).value] else GoodShards(sha, front)
  {
    hide Unframe;
    assert (front + [b])[..|front|] == front;
  }

  lemma MembersAppend(parsed: seq<Shard>, p: Shard, key: Key)
    ensures Members(parsed + [p], key)
            == (var g := Members(parsed, key); if KeyOf(p) == key && p.f.idx !in g then g[p.f.idx := p] else g)
    ensures |Members(parsed + [p], key)|
            == |Members(parsed, key)| + if KeyOf(p) == key && p.f.idx !in Members(parsed, key) then 1 else 0
    ensures Members(parsed + [p], key).Keys == Members(parsed, key).Keys + NewIndex(p, key)
  {
    hide KeyOf;
    assert (parsed + [p])[..|parsed|] == parsed;
  }

  lemma KeptMeans(sha: Digest, front: seq<Buffer>, b: Buffer)
    ensures IsKept(sha, front, b) <==> (
      IsGood(sha, b) && Unframe(sha, b).value.f.idx !in Members(GoodShards(sha, front), KeyOf(Unframe(sha, b).value)))
  {}

  lemma {:induction false} KeptAreRead(sha: Digest, bufs: seq<Buffer>, key: Key)
    ensures forall b :: b in Kept(sha, bufs, key) ==> b in bufs
  {
    hide Unframe, KeyOf, IsKept;
    if bufs == [] {
    } else {
      KeptAreRead(sha, bufs[..|bufs| - 1], key);
    }
  }

  /** A group under construction: a map from index to buffer, whose values come out in the order of insertion. */
  datatype OrderedGroup = OrderedGroup(indices: set<int>, bufs: seq<Buffer>)

  ghost predicate KeptAt(sha: Digest, read: seq<Buffer>, groups: map<Key, OrderedGroup>, key: Key) {
    && Kept(sha, read, key) == (if key in groups then groups[key].bufs else [])
    && Members(GoodShards(sha, read), key).Keys == if key in groups then groups[key].indices else {}
  }

  ghost predicate KeptSoFar(sha: Digest, read: seq<Buffer>, keys: seq<Key>, groups: map<Key, OrderedGroup>) {
    && keys == KeysOf(GoodShards(sha, read))
    && (forall key :: key in groups <==> key in keys)
    && forall key: Key :: KeptAt(sha, read, groups, key)
  }

  lemma KeptSoFarBad(sha: Digest, read: seq<Buffer>, b: Buffer, keys: seq<Key>, groups: map<Key, OrderedGroup>)
    requires KeptSoFar(sha, read, keys, groups) && !IsGood(sha, b)
    ensures KeptSoFar(sha, read + [b], keys, groups) && !IsKept(sha, read, b)
  {
    hide Unframe, KeyOf, Members, GoodShards, KeysOf, Kept;
    AppendGood(sha, read, b);
    forall key: Key ensures KeptAt(sha, read + [b], groups, key) {
      assert KeptAt(sha, read, groups, key);
      KeptAppend(sha, read, b, key);
    }
  }

  lemma KeptSoFarGood(sha: Digest, read: seq<Buffer>, b: Buffer, p: Shard, keys: seq<Key>,
                      groups: map<Key, OrderedGroup>,
                      g: OrderedGroup, g': OrderedGroup)
    requires KeptSoFar(sha, read, keys, groups) && Unframe(sha, b) == Some(p) && p.good
    requires g == if KeyOf(p) in groups then groups[KeyOf(p)] else OrderedGroup({}, [])
    requires g' == if p.f.idx in g.indices then g else OrderedGroup(g.indices + {p.f.idx}, g.bufs + [b])
    ensures IsKept(sha, read, b) <==> p.f.idx !in g.indices
    ensures KeptSoFar(sha, read + [b], if KeyOf(p) in groups then keys else keys + [KeyOf(p)], groups[KeyOf(p) := g'])
  {
    hide Unframe, KeyOf, Members, IsKept, GoodShards, KeysOf, Kept, KeptAt;
    AppendGood(sha, read, b);
    KeysAppend(GoodShards(sha, read), p);
    KeptAtStep(sha, read, b, p, groups, g, g', KeyOf(p));
    var next := groups[KeyOf(p) := g'];
    forall key: Key ensures KeptAt(sha, read + [b], next, key) {
      KeptAtStep(sha, read, b, p, groups, g, g', key);
    }
  }

  lemma KeptAtStep(sha: Digest, read: seq<Buffer>, b: Buffer, p: Shard, groups: map<Key, OrderedGroup>,
                   g: OrderedGroup, g': OrderedGroup, key: Key)
    requires KeptAt(sha, read, groups, key) && KeptAt(sha, read, groups, KeyOf(p))
    requires Unframe(sha, b) == Some(p) && p.good
    requires g == if KeyOf(p) in groups then groups[KeyOf(p)] else OrderedGroup({}, [])
    requires g' == if p.f.idx in g.indices then g else OrderedGroup(g.indices + {p.f.idx}, g.bufs + [b])
    ensures IsKept(sha, read, b) <==> p.f.idx !in g.indices
    ensures KeptAt(sha, read + [b], groups[KeyOf(p) := g'], key)
  {
    hide Unframe, KeyOf, Members, IsKept, GoodShards, KeysOf, Kept;
    AppendGood(sha, read, b);
    KeptMeans(sha, read, b);
    KeptAppend(sha, read, b, key);
    MembersAppend(GoodShards(sha, read), p, key);
  }

  ghost function KeptNext(sha: Digest, read: seq<Buffer>, b: Buffer, key: Key): seq<Buffer> {
    Kept(sha, read, key) + if IsKept(sha, read, b) && KeyOf(Unframe(sha, b).value) == key then [b] else []
  }

  ghost function NewIndex(p: Shard, key: Key): set<int> {
    if KeyOf(p) == key then {p.f.idx as int} else {}
  }

  lemma KeptAppend(sha: Digest, read: seq<Buffer>, b: Buffer, key: Key)
    ensures Kept(sha, read + [b], key) == KeptNext(sha, read, b, key)
  {
    hide Unframe, KeyOf, IsKept;
    assert (read + [b])[..|read|] == read;
  }

  lemma KeysAppend(parsed: seq<Shard>, p: Shard)
    ensures KeysOf(parsed + [p]) == if KeyOf(p) in KeysOf(parsed) then KeysOf(parsed) else KeysOf(parsed) + [KeyOf(p)]
  {
    assert (parsed + [p])[..|parsed|] == parsed;
  }

  /** What `readShards` returns for the files it read: the kept shards of the first of the largest groups. */
  ghost predicate IsBest(sha: Digest, read: seq<Buffer>, best: seq<Buffer>) {
    if GoodShards(sha, read) == [] then best == []
    else exists key :: IsFirstLargest(GoodShards(sha, read), key) && best == Kept(sha, read, key)
  }

  /** `readShards`. What it retains stays within one shard of twice an archive, whatever the files hold. */
  method ReadShards(sha: Digest, files: seq<File>) returns (best: seq<Buffer>)
    ensures IsBest(sha, Read(sha, files), best)
    ensures KeptBytes(sha, files[..Stop(sha, files, 0)]) < 2 * ARCH + HEADER_V2 + MAX_ARCHIVE_BYTES
  {
    hide Unframe, KeyOf, IsKept, GoodShards, Kept, ReadShard, KeptSoFar, Members;
    var keys: seq<Key>, groups: map<Key, OrderedGroup> := [], map[];
    var junkRead, keptBytes := 0, 0;
    var i := 0;
    KeptSoFarEmpty(sha);
    while i < |files|
      invariant i <= |files| && Stop(sha, files, i) == Stop(sha, files, 0)
      invariant junkRead == JunkRead(sha, files[..i]) && keptBytes == KeptBytes(sha, files[..i])
      invariant keptBytes < 2 * ARCH + HEADER_V2 + MAX_ARCHIVE_BYTES
      invariant KeptSoFar(sha, ReadAll(files[..i]), keys, groups)
    {
      if junkRead >= 4 * ARCH || keptBytes >= 2 * ARCH { break; }
      var b := ReadShard(files[i]);
      ghost var read := ReadAll(files[..i]);
      assert files[..i + 1][..i] == files[..i];
      i := i + 1;
      if b.None? {
        junkRead := junkRead + NULL_READ_COST;
      } else {
        var info := Unframe(sha, b.value);
        if info.None? || !info.value.good {
          KeptSoFarBad(sha, read, b.value, keys, groups);
          junkRead := junkRead + |b.value|;
        } else {
          var p := info.value;
          var key := KeyOf(p);
          var g := if key in groups then groups[key] else OrderedGroup({}, []);
          var g' := if p.f.idx in g.indices then g else OrderedGroup(g.indices + {p.f.idx}, g.bufs + [b.value]);
          KeptSoFarGood(sha, read, b.value, p, keys, groups, g, g');
          if key !in groups { keys := keys + [key]; }
          if p.f.idx !in g.indices { keptBytes := keptBytes + |b.value|; }
          groups := groups[key := g'];
        }
      }
    }
    assert i == Stop(sha, files, 0);
    best := LargestKept(sha, ReadAll(files[..i]), keys, groups);
  }

  method LargestKept(sha: Digest, ghost read: seq<Buffer>, keys: seq<Key>, groups: map<Key, OrderedGroup>)
    returns (best: seq<Buffer>)
    requires KeptSoFar(sha, read, keys, groups)
    ensures IsBest(sha, read, best)
  {
    hide Members, GoodShards, Kept, KeysOf, KeptAt;
    KeptSizes(sha, read, keys, groups);
    best := [];
    ghost var at := 0;
    for i := 0 to |keys|
      invariant at <= i && (i == 0 ==> best == []) && (i > 0 ==> at < i && best == groups[keys[at]].bufs)
      invariant i > 0 ==> best == Kept(sha, read, keys[at])
      invariant forall j :: 0 <= j < at ==> |groups[keys[j]].bufs| < |best|
      invariant forall j :: 0 <= j < i ==> |groups[keys[j]].bufs| <= |best|
    {
      if |groups[keys[i]].bufs| > |best| {
        best, at := groups[keys[i]].bufs, i;
        KeptAtIs(sha, read, groups, keys[i]);
      }
    }
    if keys != [] {
      assert IsFirstLargest(GoodShards(sha, read), keys[at]);
    }
  }

  lemma KeptAtIs(sha: Digest, read: seq<Buffer>, groups: map<Key, OrderedGroup>, key: Key)
    requires KeptAt(sha, read, groups, key) && key in groups
    ensures groups[key].bufs == Kept(sha, read, key)
  {}

  lemma KeptSoFarEmpty(sha: Digest)
    ensures KeptSoFar(sha, [], [], map[])
  {}

  /** Every group met is non-empty, and as large as the members of its key. */
  lemma KeptSizes(sha: Digest, read: seq<Buffer>, keys: seq<Key>, groups: map<Key, OrderedGroup>)
    requires KeptSoFar(sha, read, keys, groups)
    ensures keys == [] <==> GoodShards(sha, read) == []
    ensures forall key :: key in keys ==>
      key in groups && |groups[key].bufs| == |Members(GoodShards(sha, read), key)| > 0
    ensures forall key :: key !in keys ==> |Members(GoodShards(sha, read), key)| == 0
  {
    hide Members, GoodShards, Kept;
    var parsed := GoodShards(sha, read);
    forall key | key !in keys ensures |Members(parsed, key)| == 0 {
      assert KeptAt(sha, read, groups, key);
    }
    forall key | key in keys ensures |groups[key].bufs| == |Members(parsed, key)| > 0 {
      assert KeptAt(sha, read, groups, key);
      KeptIsGroup(sha, read, key);
      KeysAppear(parsed, key);
    }
  }

  lemma {:induction false} KeysAppear(parsed: seq<Shard>, key: Key)
    requires key in KeysOf(parsed)
    ensures exists p :: p in parsed && KeyOf(p) == key && p.f.idx in Members(parsed, key)
  {
    hide KeyOf;
    var n := |parsed| - 1;
    if key in KeysOf(parsed[..n]) {
      KeysAppear(parsed[..n], key);
      var p :| p in parsed[..n] && KeyOf(p) == key && p.f.idx in Members(parsed[..n], key);
      assert p in parsed;
    } else {
      assert parsed[n] in parsed;
    }
  }

  // ----- what is kept of a winning folder -----

  /** What is kept of a winning set of files is the dispersal's group, and it still wins. */
  lemma KeptWins(sha: Digest, read: seq<Buffer>, best: seq<Buffer>, archive: Buffer, n: nat, k: nat, framing: Framing)
    requires IsDigest(sha) && Winning(sha, read, archive, n, k, framing) && IsBest(sha, read, best)
    ensures best == Kept(sha, read, KeyFor(archive, n, k, framing))
    ensures Winning(sha, best, archive, n, k, framing)
    ensures Held(sha, best, archive, n, k, framing) == Held(sha, read, archive, n, k, framing)
  {
    hide Unframe, Members, Kept, KeyFor, Held, Payload, KeyOf, ShardLen, Radix, KeysOf;
    WinningHasMembers(sha, read, archive, n, k, framing);
    var key :| IsFirstLargest(GoodShards(sha, read), key) && best == Kept(sha, read, key);
    WinningIsLargest(sha, read, archive, n, k, framing, key);
    KeptIsGroup(sha, read, key);
    KeptGenuine(sha, read, archive, n, k, framing);
    MembersAreHeld(sha, read, archive, n, k, framing);
    MembersAreHeld(sha, best, archive, n, k, framing);
    OneKey(GoodShards(sha, best), key);
  }

  lemma KeptGenuine(sha: Digest, read: seq<Buffer>, archive: Buffer, n: nat, k: nat, framing: Framing)
    requires 1 <= k <= n <= 255 && Genuine(sha, read, archive, n, k, framing)
    ensures Genuine(sha, Kept(sha, read, KeyFor(archive, n, k, framing)), archive, n, k, framing)
  {
    hide Unframe, Kept, KeyFor, Payload, KeyOf, GoodShards;
    var best := Kept(sha, read, KeyFor(archive, n, k, framing));
    KeptAreRead(sha, read, KeyFor(archive, n, k, framing));
    forall p | p in GoodShards(sha, best) ensures p in GoodShards(sha, read) {
      GoodShardsAre(sha, best, p);
      GoodShardsAre(sha, read, p);
    }
  }

  /** What is kept consists of shards of the dispersal only. */
  lemma KeptAreShards(sha: Digest, read: seq<Buffer>, archive: Buffer, n: nat, k: nat, framing: Framing)
    requires IsDigest(sha) && Winning(sha, read, archive, n, k, framing)
    ensures forall b :: b in Kept(sha, read, KeyFor(archive, n, k, framing)) ==>
              exists s: nat :: s < n && FramedShard(sha, archive, n, k, framing, s) <= b
  {
    hide Unframe, Members, Kept, KeyFor, Held, FramedShard, Payload, KeyOf, GoodShards, ShardLen, Radix;
    var key := KeyFor(archive, n, k, framing);
    var best := Kept(sha, read, key);
    KeptIsGroup(sha, read, key);
    KeptGenuine(sha, read, archive, n, k, framing);
    forall b | b in best ensures exists s: nat :: s < n && FramedShard(sha, archive, n, k, framing, s) <= b {
      KeptAreGood(sha, read, key, b);
      var p := Unframe(sha, b).value;
      GoodShardsAre(sha, best, p);
      GenuineIsHeld(sha, archive, n, k, framing, p, b);
    }
  }

  lemma {:induction false} KeptAreGood(sha: Digest, bufs: seq<Buffer>, key: Key, b: Buffer)
    requires b in Kept(sha, bufs, key)
    ensures IsGood(sha, b)
  {
    hide Unframe, KeyOf;
    if b in Kept(sha, bufs[..|bufs| - 1], key) { KeptAreGood(sha, bufs[..|bufs| - 1], key, b); }
  }

  // ----- the budgets are enough -----

  /** The file holds a shard of the dispersal, with anything after it. */
  ghost predicate HoldsShard(sha: Digest, file: File, archive: Buffer, n: nat, k: nat, framing: Framing)
    requires 1 <= k <= n <= 255
  {
    file.Some? && exists s: nat :: s < n && FramedShard(sha, archive, n, k, framing, s) <= file.value
  }

  /** Whatever parses as a good shard in the folder is a shard of the dispersal; the other files may hold anything. */
  ghost predicate OneDispersal(sha: Digest, files: seq<File>, archive: Buffer, n: nat, k: nat, framing: Framing)
    requires 1 <= k <= n <= 255
  {
    forall i :: 0 <= i < |files| && ReadShard(files[i]).Some? && IsGood(sha, ReadShard(files[i]).value) ==>
      HoldsShard(sha, files[i], archive, n, k, framing)
  }

  ghost function ShardSize(archive: Buffer, k: nat, framing: Framing): nat
    requires k >= 1
  {
    HeaderSizeFor(framing.Version()) + ShardLen(|archive|, k)
  }

  /** All shards are of the dispersal. */
  ghost predicate AllOf(parsed: seq<Shard>, archive: Buffer, n: nat, k: nat, framing: Framing)
    requires 1 <= k <= n <= 255
  {
    forall p :: p in parsed ==> KeyOf(p) == KeyFor(archive, n, k, framing) && p.y == Payload(archive, k, p.f.idx)
  }

  /** A file of the dispersal costs the size of a shard, if anything. */
  lemma HeldFileReads(sha: Digest, file: File, archive: Buffer, n: nat, k: nat, framing: Framing)
    requires IsDigest(sha) && ValidParameters(|archive|, n, k) && framing.Valid() && |archive| <= MAX_ARCHIVE_BYTES
    requires HoldsShard(sha, file, archive, n, k, framing)
    ensures ReadShard(file).Some? && |ReadShard(file).value| == ShardSize(archive, k, framing)
    ensures var p := Unframe(sha, ReadShard(file).value);
            p.Some? && p.value.good && AllOf([p.value], archive, n, k, framing)
  {
    hide Unframe, ReadShard, FrameOf, ShardLen, Payload, Radix;
    var s: nat :| s < n && FramedShard(sha, archive, n, k, framing, s) <= file.value;
    ShardFileReads(sha, archive, n, k, framing, s, file.value);
    HeldShardReads(sha, archive, n, k, framing, s, FramedShard(sha, archive, n, k, framing, s));
    PayloadLength(archive, k, s);
    ArchiveLengthFits(|archive|, k);
    FrameSize(sha, IdentityOf(archive, n, k, framing, s), framing.Id(), Payload(archive, k, s));
  }

  /** What is retained of such a folder: one shard's size for every index that was met. */
  lemma {:induction false} KeptCost(sha: Digest, files: seq<File>, archive: Buffer, n: nat, k: nat, framing: Framing)
    requires IsDigest(sha) && ValidParameters(|archive|, n, k) && framing.Valid() && |archive| <= MAX_ARCHIVE_BYTES
    requires OneDispersal(sha, files, archive, n, k, framing)
    ensures var good := GoodShards(sha, ReadAll(files));
            && AllOf(good, archive, n, k, framing)
            && KeptBytes(sha, files) == |Members(good, KeyFor(archive, n, k, framing))| * ShardSize(archive, k, framing)
  {
    hide Unframe, ReadShard, KeyOf, KeyFor, Payload, Members, GoodShards, ShardSize, HoldsShard, IsGood, IsKept, AllOf;
    if files == [] {
      NoMembers();
      NoGoodShards(sha);
      NoneOf(archive, n, k, framing);
    } else {
      var front, b := files[..|files| - 1], ReadShard(files[|files| - 1]);
      KeptCost(sha, front, archive, n, k, framing);
      if b.Some? {
        AppendGood(sha, ReadAll(front), b.value);
        KeptMeans(sha, ReadAll(front), b.value);
        if IsGood(sha, b.value) {
          HeldFileReads(sha, files[|files| - 1], archive, n, k, framing);
          GoodCost(sha, ReadAll(front), b.value, archive, n, k, framing);
        }
      }
    }
  }

  lemma NoneOf(archive: Buffer, n: nat, k: nat, framing: Framing)
    requires 1 <= k <= n <= 255
    ensures AllOf([], archive, n, k, framing)
  {}

  /** One more good shard. */
  lemma GoodCost(sha: Digest, read: seq<Buffer>, b: Buffer, archive: Buffer, n: nat, k: nat, framing: Framing)
    requires 1 <= k <= n <= 255 && IsGood(sha, b) && |b| == ShardSize(archive, k, framing)
    requires AllOf(GoodShards(sha, read), archive, n, k, framing)
    requires AllOf([Unframe(sha, b).value], archive, n, k, framing)
    ensures var good, key := GoodShards(sha, read + [b]), KeyFor(archive, n, k, framing);
            && AllOf(good, archive, n, k, framing)
            && |Members(good, key)| * |b|
               == |Members(GoodShards(sha, read), key)| * |b| + if IsKept(sha, read, b) then |b| else 0
  {
    hide Unframe, KeyOf, KeyFor, Payload, Members, GoodShards, ShardSize;
    var good, p, key := GoodShards(sha, read), Unframe(sha, b).value, KeyFor(archive, n, k, framing);
    AppendGood(sha, read, b);
    KeptMeans(sha, read, b);
    assert p in [p];
    MembersAppend(good, p, key);
    OneMore(|Members(good, key)|, |b|);
  }

  lemma OneMore(c: nat, size: nat)
    ensures (c + 1) * size == c * size + size
  {}

  lemma {:induction false} JunkGrows(sha: Digest, files: seq<File>, i: nat)
    requires i <= |files|
    ensures JunkRead(sha, files[..i]) <= JunkRead(sha, files)
    decreases |files|
  {
    hide ReadShard, IsGood;
    if i == |files| {
      assert files[..i] == files;
    } else {
      var front := files[..|files| - 1];
      assert front[..i] == files[..i];
      JunkGrows(sha, front, i);
    }
  }

  lemma {:induction false} KeptBytesGrow(sha: Digest, files: seq<File>, i: nat)
    requires i <= |files|
    ensures KeptBytes(sha, files[..i]) <= KeptBytes(sha, files)
    decreases |files|
  {
    hide ReadShard, IsKept, ReadAll;
    if i == |files| {
      assert files[..i] == files;
    } else {
      var front := files[..|files| - 1];
      assert front[..i] == files[..i];
      KeptBytesGrow(sha, front, i);
    }
  }

  /** A folder that keeps within both budgets is read in full, whatever dispersals it holds. */
  lemma WithinBudgets(sha: Digest, files: seq<File>)
    requires !Exhausted(sha, files)
    ensures Read(sha, files) == ReadAll(files)
  {
    hide JunkRead, KeptBytes;
    var stop := Stop(sha, files, 0);
    JunkGrows(sha, files, stop);
    KeptBytesGrow(sha, files, stop);
    assert files[..|files|] == files;
  }

  lemma Scales(c: nat, k: nat, size: nat)
    ensures c <= k ==> c * size <= k * size
  {
    assert c <= k ==> (k - c) * size == k * size - c * size;
  }

  lemma PayloadsFit(len: nat, k: nat)
    requires k >= 1
    ensures k * ShardLen(len, k) <= len + k
  {
    var start := Arithmetic.AlignedDown(len + k - 1, k);
  }

  lemma SumTimes(k: nat, a: nat, b: nat)
    ensures k * (a + b) == k * a + k * b
  {}

  /** k shards of an archive are retained before the budget of two archives is spent. */
  lemma ShardsFit(len: nat, k: nat, header: nat)
    requires 1 <= k <= 255 && len <= MAX_ARCHIVE_BYTES && header <= HEADER_V2
    ensures k * (header + ShardLen(len, k)) < 2 * ARCH
  {
    PayloadsFit(len, k);
    hide ShardLen;
    Scales(k, 255, header);
    SumTimes(k, header, ShardLen(len, k));
  }

  lemma {:induction false} ReadAllGrows(files: seq<File>, i: nat)
    requires i <= |files|
    ensures ReadAll(files[..i]) <= ReadAll(files)
    decreases |files|
  {
    hide ReadShard;
    if i == |files| {
      assert files[..i] == files;
    } else {
      var front := files[..|files| - 1];
      assert front[..i] == files[..i];
      ReadAllGrows(front, i);
    }
  }

  lemma HeldGrows(sha: Digest, few: seq<Buffer>, more: seq<Buffer>, archive: Buffer, n: nat, k: nat, framing: Framing)
    requires 1 <= k <= n <= 255 && few <= more
    ensures |Held(sha, few, archive, n, k, framing)| <= |Held(sha, more, archive, n, k, framing)|
  {
    hide FramedShard;
    assert forall b :: b in few ==> b in more;
    Sets.SubsetSize(Held(sha, few, archive, n, k, framing), Held(sha, more, archive, n, k, framing));
  }

  /** A folder with the good shards of one dispersal only wins exactly when k of them are there, and what is retained
      shows how many are. */
  lemma OneDispersalWins(sha: Digest, files: seq<File>, archive: Buffer, n: nat, k: nat, framing: Framing)
    requires IsDigest(sha) && ValidParameters(|archive|, n, k) && framing.Valid() && |archive| <= MAX_ARCHIVE_BYTES
    requires OneDispersal(sha, files, archive, n, k, framing)
    ensures var held := Held(sha, ReadAll(files), archive, n, k, framing);
            && KeptBytes(sha, files) == |held| * ShardSize(archive, k, framing)
            && (Winning(sha, ReadAll(files), archive, n, k, framing) <==> |held| >= k)
  {
    hide Unframe, ReadShard, KeyOf, KeyFor, Payload, Members, GoodShards, Held, KeptBytes, ReadAll, ShardSize;
    var key, good := KeyFor(archive, n, k, framing), GoodShards(sha, ReadAll(files));
    KeptCost(sha, files, archive, n, k, framing);
    MembersAreHeld(sha, ReadAll(files), archive, n, k, framing);
    OneKey(good, key);
    assert |Members(good, key)| == |Members(good, key).Keys|;
  }

  /** The first i files hold k different shards, and the junk before the last of them leaves the budget open. */
  ghost predicate EnoughBy(sha: Digest, files: seq<File>, archive: Buffer, n: nat, k: nat, framing: Framing, i: nat)
    requires 1 <= k <= n <= 255 && 0 < i <= |files|
  {
    JunkRead(sha, files[..i - 1]) < 4 * ARCH && |Held(sha, ReadAll(files[..i]), archive, n, k, framing)| >= k
  }

  lemma AllIsEnough(sha: Digest, files: seq<File>, archive: Buffer, n: nat, k: nat, framing: Framing)
    requires 1 <= k <= n <= 255
    requires JunkRead(sha, files) < 4 * ARCH && |Held(sha, ReadAll(files), archive, n, k, framing)| >= k
    ensures files != [] && EnoughBy(sha, files, archive, n, k, framing, |files|)
  {
    hide Held, ReadAll, JunkRead;
    NothingHeld(sha, archive, n, k, framing);
    assert files[..|files|] == files;
    if files != [] { JunkGrows(sha, files, |files| - 1); }
  }

  lemma NothingHeld(sha: Digest, archive: Buffer, n: nat, k: nat, framing: Framing)
    requires 1 <= k <= n <= 255
    ensures |Held(sha, ReadAll([]), archive, n, k, framing)| == 0
  {
    assert Held(sha, ReadAll([]), archive, n, k, framing) == {};
  }

  lemma WinsByStop(sha: Digest, files: seq<File>, archive: Buffer, n: nat, k: nat, framing: Framing)
    requires 1 <= k <= n <= 255 && Winning(sha, Read(sha, files), archive, n, k, framing)
    ensures var i := Stop(sha, files, 0); 0 < i && EnoughBy(sha, files, archive, n, k, framing, i)
  {
    hide Held, JunkRead, ReadAll;
    var stop := Stop(sha, files, 0);
    NothingHeld(sha, archive, n, k, framing);
    assert files[..0] == [];
    assert stop > 0 ==> !Exhausted(sha, files[..stop - 1]);
  }

  lemma EnoughIsRead(sha: Digest, files: seq<File>, archive: Buffer, n: nat, k: nat, framing: Framing, i: nat)
    requires IsDigest(sha) && ValidParameters(|archive|, n, k) && framing.Valid() && |archive| <= MAX_ARCHIVE_BYTES
    requires OneDispersal(sha, files, archive, n, k, framing)
    requires 0 < i <= |files| && EnoughBy(sha, files, archive, n, k, framing, i)
    ensures Winning(sha, Read(sha, files), archive, n, k, framing)
  {
    hide Held, JunkRead, KeptBytes, ReadAll, Winning, HoldsShard, ReadShard, IsGood;
    var stop := Stop(sha, files, 0);
    var read := files[..stop];
    OneDispersalWins(sha, read, archive, n, k, framing);
    if i <= stop {
      assert read[..i] == files[..i];
      ReadAllGrows(read, i);
      HeldGrows(sha, ReadAll(files[..i]), ReadAll(read), archive, n, k, framing);
    } else {
      assert files[..i - 1][..stop] == read;
      JunkGrows(sha, files[..i - 1], stop);
      ShardsFit(|archive|, k, HeaderSizeFor(framing.Version()));
      Scales(|Held(sha, ReadAll(read), archive, n, k, framing)|, k, ShardSize(archive, k, framing));
    }
  }

  /** When the budgets starve a folder of the shards that it needs, all good shards in it being of one dispersal: what
      is read wins exactly when k different ones stand before files that are no good shards have cost four archives. So
      it wins in any order when there are k and the junk costs less. */
  lemma BudgetsSuffice(sha: Digest, files: seq<File>, archive: Buffer, n: nat, k: nat, framing: Framing)
    requires IsDigest(sha) && ValidParameters(|archive|, n, k) && framing.Valid() && |archive| <= MAX_ARCHIVE_BYTES
    requires OneDispersal(sha, files, archive, n, k, framing)
    ensures Winning(sha, Read(sha, files), archive, n, k, framing)
            <==> exists i :: 0 < i <= |files| && EnoughBy(sha, files, archive, n, k, framing, i)
    ensures JunkRead(sha, files) < 4 * ARCH && |Held(sha, ReadAll(files), archive, n, k, framing)| >= k ==>
              Winning(sha, Read(sha, files), archive, n, k, framing)
  {
    hide Held, JunkRead, ReadAll, Winning, EnoughBy, OneDispersal;
    if Winning(sha, Read(sha, files), archive, n, k, framing) {
      WinsByStop(sha, files, archive, n, k, framing);
    }
    if i :| 0 < i <= |files| && EnoughBy(sha, files, archive, n, k, framing, i) {
      EnoughIsRead(sha, files, archive, n, k, framing, i);
    }
    if JunkRead(sha, files) < 4 * ARCH && |Held(sha, ReadAll(files), archive, n, k, framing)| >= k {
      AllIsEnough(sha, files, archive, n, k, framing);
      EnoughIsRead(sha, files, archive, n, k, framing, |files|);
    }
  }

  lemma {:induction false} UnreadableFiles(sha: Digest, count: nat)
    ensures var files: seq<File> := seq(count, i => None);
            ReadAll(files) == [] && JunkRead(sha, files) == count * NULL_READ_COST
  {
    if count == 0 {
    } else {
      UnreadableFiles(sha, count - 1);
      var files: seq<File>, fewer: seq<File> := seq(count, i => None), seq(count - 1, i => None);
      assert files[..count - 1] == fewer;
    }
  }

  /** Such a starved folder: behind 8193 files that cannot be read nothing is read, whatever is there. */
  lemma JunkStarves(sha: Digest, rest: seq<File>)
    ensures Read(sha, seq(8193, i => None) + rest) == []
  {
    var junk: seq<File> := seq(8193, i => None);
    var files := junk + rest;
    var stop := Stop(sha, files, 0);
    UnreadableFiles(sha, 8193);
    assert files[..8193] == junk;
    assert stop <= 8193 by { assert Exhausted(sha, files[..8193]); }
    ReadAllGrows(junk, stop);
    assert files[..stop] == junk[..stop];
  }

  /** A folder of nothing but shards of the dispersal costs no junk. */
  lemma {:induction false} ShardsAreNoJunk(sha: Digest, files: seq<File>, archive: Buffer, n: nat, k: nat,
                                           framing: Framing)
    requires IsDigest(sha) && ValidParameters(|archive|, n, k) && framing.Valid() && |archive| <= MAX_ARCHIVE_BYTES
    requires forall i :: 0 <= i < |files| ==> HoldsShard(sha, files[i], archive, n, k, framing)
    ensures OneDispersal(sha, files, archive, n, k, framing) && JunkRead(sha, files) == 0
  {
    hide ReadShard, Unframe, HoldsShard;
    if files == [] {
    } else {
      ShardsAreNoJunk(sha, files[..|files| - 1], archive, n, k, framing);
      HeldFileReads(sha, files[|files| - 1], archive, n, k, framing);
    }
  }

  // ----- decode and repair -----

  /** How decoding fails on what has been read: there is no good shard, or the first largest group lacks some. Shards
      of a newer version are not told from unreadable ones here. */
  ghost predicate FailsAs(sha: Digest, read: seq<Buffer>, r: Result<Buffer, DecodeError>) {
    && (r == Err(NoReadable) <==> GoodShards(sha, read) == [])
    && (r.Err? && r != Err(NoReadable) ==> exists key: Key :: (
          && IsFirstLargest(GoodShards(sha, read), key) && |Members(GoodShards(sha, read), key)| < key.k
          && r.error == NotEnough(|Members(GoodShards(sha, read), key)|, key.k)))
    && (r.Ok? ==> exists key: Key ::
          IsFirstLargest(GoodShards(sha, read), key) && |Members(GoodShards(sha, read), key)| >= key.k)
  }

  lemma KeptFails(sha: Digest, read: seq<Buffer>, bufs: seq<Buffer>, r: Result<Buffer, DecodeError>)
    requires IsBest(sha, read, bufs)
    requires r == Err(NewerVersion) <==> GoodShards(sha, bufs) == [] && exists b :: b in bufs && IsNewer(b)
    requires r == Err(NoReadable) <==> GoodShards(sha, bufs) == [] && forall b :: b in bufs ==> !IsNewer(b)
    requires r.Ok? ==>
      exists key :: IsFirstLargest(GoodShards(sha, bufs), key) && |Members(GoodShards(sha, bufs), key)| >= key.k
    requires r.Err? && r.error.NotEnough? ==> exists key: Key :: (
      && IsFirstLargest(GoodShards(sha, bufs), key)
      && r.error == NotEnough(|Members(GoodShards(sha, bufs), key)|, key.k)
      && r.error.have < r.error.need)
    ensures FailsAs(sha, read, r)
  {
    hide Unframe, Members, Kept, KeyOf, KeysOf, GoodShards, IsNewer;
    NoGoodShards(sha);
    if GoodShards(sha, read) != [] {
      var key :| IsFirstLargest(GoodShards(sha, read), key) && bufs == Kept(sha, read, key);
      KeptIsGroup(sha, read, key);
      NoMembers();
      OneKey(GoodShards(sha, bufs), key);
      assert forall other: Key :: IsFirstLargest(GoodShards(sha, bufs), other) ==> other == key;
    }
  }

  lemma WinningParameters(sha: Digest, bufs: seq<Buffer>, archive: Buffer, n: nat, k: nat, framing: Framing)
    requires Winning(sha, bufs, archive, n, k, framing)
    ensures 1 <= k <= n <= 255
  {}

  /** The steps that `decode` and `repair` share: the kept shards, and what they decode to. */
  method ReadAndDecode(t: Tables, sha: Digest, files: seq<File>, ghost archive: Buffer, ghost n: nat, ghost k: nat,
                       ghost framing: Framing)
    returns (bufs: seq<Buffer>, r: Result<Buffer, DecodeError>)
    requires t.Valid() && IsDigest(sha)
    ensures Winning(sha, Read(sha, files), archive, n, k, framing)
            ==> Winning(sha, bufs, archive, n, k, framing) && r == Ok(archive)
    ensures FailsAs(sha, Read(sha, files), r)
  {
    hide Tables.Valid, Winning, GoodShards, IsFirstLargest, IsBest, Held, KeyFor, Kept, Read;
    bufs := ReadShards(sha, files);
    if Winning(sha, Read(sha, files), archive, n, k, framing) {
      WinningParameters(sha, Read(sha, files), archive, n, k, framing);
      KeptWins(sha, Read(sha, files), bufs, archive, n, k, framing);
    }
    r := DecodeShards(t, sha, bufs, archive, n, k, framing);
    KeptFails(sha, Read(sha, files), bufs, r);
  }

  /** `decode`: the archive, from whatever is in the folder. */
  method Decode(t: Tables, sha: Digest, files: seq<File>, ghost archive: Buffer, ghost n: nat, ghost k: nat,
                ghost framing: Framing)
    returns (r: Result<Buffer, DecodeError>)
    requires t.Valid() && IsDigest(sha)
    ensures Winning(sha, Read(sha, files), archive, n, k, framing) ==> r == Ok(archive)
    ensures FailsAs(sha, Read(sha, files), r)
  {
    hide Tables.Valid, Winning, Read, FailsAs;
    var bufs;
    bufs, r := ReadAndDecode(t, sha, files, archive, n, k, framing);
  }

  datatype Target = Target(path: string, idx: nat)
  datatype RepairError = DecodeFailed(d: DecodeError) | EncodeFailed(e: EncodeError)

  /** The files written for the targets: shard number idx, at its path. */
  function Rebuilt(targets: seq<Target>, shards: seq<Buffer>): seq<(string, Buffer)> {
    if targets == [] then []
    else
      var t := targets[|targets| - 1];
      Rebuilt(targets[..|targets| - 1], shards) + if t.idx < |shards| then [(t.path, shards[t.idx])] else []
  }

  /** `repair`: every target inside the geometry gets the shard of the original dispersal, byte for byte. `n0` and
      `k0` are the parent's idea of the geometry, which is not used when a group was found. */
  method Repair(t: Tables, sha: Digest, files: seq<File>, targets: seq<Target>, n0: int, k0: int, randomId: Buffer,
                ghost archive: Buffer, ghost n: nat, ghost k: nat, ghost framing: Framing)
    returns (r: Result<seq<(string, Buffer)>, RepairError>)
    requires t.Valid() && IsDigest(sha) && |randomId| == ID_LEN
    ensures Winning(sha, Read(sha, files), archive, n, k, framing)
            ==> r == Ok(Rebuilt(targets, Dispersal(sha, archive, n, k, framing)))
    ensures r.Ok? ==> exists shards :: r.value == Rebuilt(targets, shards)
    ensures r.Err? && r.error.DecodeFailed? ==> FailsAs(sha, Read(sha, files), Err(r.error.d))
    ensures GoodShards(sha, Read(sha, files)) == [] ==> r == Err(DecodeFailed(NoReadable))
  {
    hide Tables.Valid, Winning, GoodShards, IsFirstLargest, Dispersal, ChosenFraming, ValidParameters, Read, Rebuilt;
    var bufs, bytes := ReadAndDecode(t, sha, files, archive, n, k, framing);
    if bytes.Err? { return Err(DecodeFailed(bytes.error)); }
    var grp := DominantGroup(sha, bufs);
    if Winning(sha, bufs, archive, n, k, framing) {
      DominantKey(sha, bufs, grp, randomId, archive, n, k, framing);
    }
    var id := if grp.Some? then grp.value.id else None;
    var version := if grp.Some? && grp.value.id.None? then 1 else 2;
    var useK: int := if grp.Some? then grp.value.k else k0;
    var useN: int := if grp.Some? then grp.value.k as int + grp.value.m as int else n0;
    var shards := EncodeShards(t, sha, bytes.value, useN, useK, id, version, randomId);
    if shards.Err? { return Err(EncodeFailed(shards.error)); }
    var written := WriteTargets(targets, shards.value);
    r := Ok(written);
  }

  lemma DominantKey(sha: Digest, bufs: seq<Buffer>, grp: Option<Key>, randomId: Buffer, archive: Buffer, n: nat,
                    k: nat, framing: Framing)
    requires IsDigest(sha) && Winning(sha, bufs, archive, n, k, framing)
    requires grp.None? <==> GoodShards(sha, bufs) == []
    requires grp.Some? ==> IsFirstLargest(GoodShards(sha, bufs), grp.value)
    requires |randomId| == ID_LEN
    ensures ValidParameters(|archive|, n, k) && grp.Some? && grp.value.k as int == k && grp.value.m as int == n - k
    ensures ChosenFraming(grp.value.id, if grp.value.id.None? then 1 else 2, randomId) == framing
  {
    hide Members, KeysOf, GoodShards, ValidParameters;
    WinningHasMembers(sha, bufs, archive, n, k, framing);
    WinningIsLargest(sha, bufs, archive, n, k, framing, grp.value);
  }

  method WriteTargets(targets: seq<Target>, shards: seq<Buffer>) returns (written: seq<(string, Buffer)>)
    ensures written == Rebuilt(targets, shards)
  {
    written := [];
    for i := 0 to |targets|
      invariant written == Rebuilt(targets[..i], shards)
    {
      assert targets[..i + 1][..i] == targets[..i];
      if targets[i].idx >= |shards| { continue; }
      written := written + [(targets[i].path, shards[targets[i].idx])];
    }
    assert targets[..|targets|] == targets;
  }

  // ----- repair rejoins -----

  function Contents(written: seq<(string, Buffer)>): (bufs: seq<Buffer>)
    ensures |bufs| == |written|
  {
    seq(|written|, i requires 0 <= i < |written| => written[i].1)
  }

  lemma {:induction false} RebuiltContents(targets: seq<Target>, shards: seq<Buffer>, b: Buffer)
    ensures b in Contents(Rebuilt(targets, shards))
            <==> exists t :: t in targets && t.idx < |shards| && shards[t.idx] == b
  {
    if targets == [] {
    } else {
      var front, t := targets[..|targets| - 1], targets[|targets| - 1];
      RebuiltContents(front, shards, b);
      assert forall x :: x in targets <==> x in front || x == t;
      assert Contents(Rebuilt(targets, shards))
             == Contents(Rebuilt(front, shards)) + if t.idx < |shards| then [shards[t.idx]] else [];
    }
  }

  /** Survivors and rebuilt shards are one group: when the targets cover what was lost, all n indices are there, and
      every selection of them with k different indices decodes to the archive. */
  lemma RepairRejoins(sha: Digest, read: seq<Buffer>, survivors: seq<Buffer>, targets: seq<Target>,
                      archive: Buffer, n: nat, k: nat, framing: Framing, chosen: seq<Buffer>)
    requires IsDigest(sha) && Winning(sha, read, archive, n, k, framing) && IsBest(sha, read, survivors)
    requires forall s: nat :: s < n && s !in Held(sha, survivors, archive, n, k, framing) ==>
      exists t :: t in targets && t.idx == s
    ensures var all := survivors + Contents(Rebuilt(targets, Dispersal(sha, archive, n, k, framing)));
            && (forall s: nat :: s < n ==> s in Held(sha, all, archive, n, k, framing))
            && ((forall b :: b in chosen ==> b in all) && |Held(sha, chosen, archive, n, k, framing)| >= k
                ==> Winning(sha, chosen, archive, n, k, framing))
  {
    hide FramedShard, ShardLen, Radix, GoodShards, Members, Genuine, KeyFor, IsBest, Kept;
    KeptWins(sha, read, survivors, archive, n, k, framing);
    KeptAreShards(sha, read, archive, n, k, framing);
    var shards := Dispersal(sha, archive, n, k, framing);
    var rebuilt := Contents(Rebuilt(targets, shards));
    var all := survivors + rebuilt;
    forall s: nat | s < n ensures s in Held(sha, all, archive, n, k, framing) {
      if s in Held(sha, survivors, archive, n, k, framing) {
        var b :| b in survivors && FramedShard(sha, archive, n, k, framing, s) <= b;
        assert b in all;
      } else {
        RebuiltContents(targets, shards, shards[s]);
        assert shards[s] in all;
      }
    }
    forall b | b in all ensures exists s: nat :: s < n && FramedShard(sha, archive, n, k, framing, s) <= b {
      if b !in survivors {
        RebuiltContents(targets, shards, b);
      }
    }
    if (forall b :: b in chosen ==> b in all) && |Held(sha, chosen, archive, n, k, framing)| >= k {
      ShardsAloneWin(sha, chosen, archive, n, k, framing);
    }
  }
}
