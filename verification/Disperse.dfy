/** Inter-node dispersal, lib/Disperse.js: an archive becomes n framed shards, and any k of them, in any order
    and among any junk, give it back. */
module Disperse {
  import Arithmetic
  import opened Bytes
  import opened Wrappers
  import opened ShardFrame
  import opened GaloisField
  import opened GaloisTables
  import opened LinearAlgebra
  import RS = ReedSolomon
  import Sets

  // ----- slicing -----

  /** max(1, ceil(len / k)) */
  function ShardLen(len: nat, k: nat): (s: nat)
    requires k >= 1
    ensures s >= 1 && k * s >= len
  {
    var up := (len + k - 1) / k;
    Ceiling(len, k);
    if up < 1 then 1 else up
  }

  lemma Ceiling(len: nat, k: nat)
    requires k >= 1
    ensures k * ((len + k - 1) / k) >= len
  {}

  function Min(a: nat, b: nat): nat { if a < b then a else b }

  /** Data shard i: its slice of the archive, zero-padded. */
  function Slice(archive: Buffer, i: nat, len: nat): (s: Buffer)
    ensures |s| == len
  {
    seq(len, b requires 0 <= b < len => if i * len + b < |archive| then archive[i * len + b] else 0)
  }

  function Slices(archive: Buffer, k: nat): (data: seq<Buffer>)
    requires k >= 1
    ensures |data| == k && RS.EqualLengths(data, ShardLen(|archive|, k))
  {
    seq(k, i requires 0 <= i < k => Slice(archive, i, ShardLen(|archive|, k)))
  }

  function Concat(bufs: seq<Buffer>): Buffer {
    if bufs == [] then [] else Concat(bufs[..|bufs| - 1]) + bufs[|bufs| - 1]
  }

  lemma {:induction false} ConcatAt(bufs: seq<Buffer>, len: nat, i: nat, b: nat)
    requires RS.EqualLengths(bufs, len) && i < |bufs| && b < len
    ensures |Concat(bufs)| == |bufs| * len && i * len + b < |bufs| * len && Concat(bufs)[i * len + b] == bufs[i][b]
    decreases |bufs|
  {
    var front := bufs[..|bufs| - 1];
    ConcatLength(bufs, len);
    ConcatLength(front, len);
    Arithmetic.Distribute(|bufs|, i, len);
    Arithmetic.Multiple(|bufs| - i, len);
    Arithmetic.Distribute(|bufs|, 1, len);
    if i == |bufs| - 1 {
    } else {
      ConcatAt(front, len, i, b);
    }
  }

  lemma {:induction false} ConcatLength(bufs: seq<Buffer>, len: nat)
    requires RS.EqualLengths(bufs, len)
    ensures |Concat(bufs)| == |bufs| * len
  {
    if bufs == [] {
    } else {
      ConcatLength(bufs[..|bufs| - 1], len);
      assert |bufs| * len == (|bufs| - 1) * len + len;
    }
  }

  lemma Position(j: nat, len: nat, k: nat)
    requires len >= 1 && j < k * len
    ensures j / len < k && j == j / len * len + j % len && j % len < len
  {
    var q := j / len;
    assert q >= k ==> q * len >= k * len;
  }

  /** The data shards laid end to end and cut to the archive's length are the archive. */
  lemma SlicesConcat(archive: Buffer, k: nat)
    requires k >= 1
    ensures |Concat(Slices(archive, k))| >= |archive| && Concat(Slices(archive, k))[..|archive|] == archive
  {
    hide Concat, ShardLen;
    var data, len := Slices(archive, k), ShardLen(|archive|, k);
    ConcatLength(data, len);
    forall j | 0 <= j < |archive| ensures Concat(data)[j] == archive[j] {
      Position(j, len, k);
      ConcatAt(data, len, j / len, j % len);
    }
  }

  // ----- what a dispersal consists of -----

  /** Version 1 or 2 framing, the latter with the id of the dispersal. */
  datatype Framing = V1 | V2(id: Buffer) {
    predicate Valid() { V2? ==> |id| == ID_LEN }
    function Version(): byte { if V1? then 1 else 2 }
    function Id(): Buffer { if V1? then [] else id }
  }

  predicate ValidParameters(len: nat, n: int, k: int) {
    1 <= k <= n <= 255 && ShardLen(len, k) < Radix(4)
  }

  /** Shard s of the data, computed byte by byte from the encoding matrix. */
  ghost function ShardOf(data: seq<Buffer>, s: nat, len: nat): (y: Buffer)
    requires RS.EqualLengths(data, len)
    ensures |y| == len
  {
    seq(len, b requires 0 <= b < len => Value(Dot(EncodeRow(RS.Point, |data|, s), RS.Column(data, b), |data|)))
  }

  lemma ShardOfIsShard(data: seq<Buffer>, s: nat, len: nat, y: Buffer)
    requires |data| > 0 && RS.EqualLengths(data, len)
    ensures RS.IsShard(data, s, y) <==> y == ShardOf(data, s, len)
  {
    hide Value, Of, Dot, EncodeRow;
    var z := ShardOf(data, s, len);
    forall b | 0 <= b < len ensures Of(z[b]) == Dot(EncodeRow(RS.Point, |data|, s), RS.Column(data, b), |data|) {
      OfValue(Dot(EncodeRow(RS.Point, |data|, s), RS.Column(data, b), |data|));
    }
    assert RS.IsShard(data, s, z);
    if RS.IsShard(data, s, y) { RS.ShardUnique(data, s, y, z); }
  }

  /** The payload of shard s of an archive dispersed k of n. */
  ghost function Payload(archive: Buffer, k: nat, s: nat): Buffer
    requires k >= 1
  {
    ShardOf(Slices(archive, k), s, ShardLen(|archive|, k))
  }

  ghost function IdentityOf(archive: Buffer, n: nat, k: nat, framing: Framing, s: nat): Identity
    requires 1 <= k <= n <= 255 && s < n
  {
    Identity(framing.Version(), k, n - k, s, |archive|, ShardLen(|archive|, k))
  }

  ghost function FramedShard(sha: Digest, archive: Buffer, n: nat, k: nat, framing: Framing, s: nat): Buffer
    requires 1 <= k <= n <= 255 && s < n
  {
    FrameOf(sha, IdentityOf(archive, n, k, framing, s), framing.Id(), Payload(archive, k, s))
  }

  /** All n shards of a dispersal, as files or buffers. */
  ghost function Dispersal(sha: Digest, archive: Buffer, n: nat, k: nat, framing: Framing): (shards: seq<Buffer>)
    requires 1 <= k <= n <= 255
    ensures |shards| == n
  {
    seq(n, s requires 0 <= s < n => FramedShard(sha, archive, n, k, framing, s))
  }

  // ----- encoding -----

  datatype EncodeError = InvalidParameters | PayloadTooLong

  /** `encodeShards`. `id` and `version` are its options; `randomId` is the random id it draws when no usable one
      is given. */
  method EncodeShards(t: Tables, sha: Digest, archive: Buffer, n: int, k: int, id: Option<Buffer>, version: nat,
                      randomId: Buffer)
    returns (r: Result<seq<Buffer>, EncodeError>)
    requires t.Valid() && IsDigest(sha) && |randomId| == ID_LEN
    ensures r == Err(InvalidParameters) <==> !(1 <= k <= n <= 255)
    ensures r.Ok? <==> ValidParameters(|archive|, n, k)
    ensures r.Ok? ==> r.value == Dispersal(sha, archive, n, k, ChosenFraming(id, version, randomId))
    ensures r.Ok? ==> forall s: nat :: s < n ==>
      (var p := Unframe(sha, r.value[s]);
       && p.Some? && p.value.good && p.value.f.idx == s
       && (version == 1 ==> p.value.f.ver == 1 && p.value.id == None)
       && (version != 1 ==>
             && p.value.f.ver == 2
             && p.value.id == Some(if id.Some? && |id.value| == 16 then id.value else randomId)))
  {
    hide Tables.Valid, Radix, ShardLen, FrameOf, Unframe;
    if k < 1 || n < k || n > 255 { return Err(InvalidParameters); }
    var m := n - k;
    var len := ShardLen(|archive|, k);
    if len >= Radix(4) { return Err(PayloadTooLong); }
    var data := CutSlices(archive, k, len);
    var all := data;
    if m > 0 {
      var parity := RS.Encode(t, k, m, data, len);
      all := data + parity;
    }
    var framing := ChosenFraming(id, version, randomId);
    ArchiveLengthFits(|archive|, k);
    var shards: seq<Buffer> := [];
    for s := 0 to n
      invariant |shards| == s && forall i :: 0 <= i < s ==> shards[i] == FramedShard(sha, archive, n, k, framing, i)
    {
      assert RS.IsShard(data, s, all[s]) by {
        if s < k { RS.DataShardIsItself(data, s, all[s]); } else { assert all[s] == all[k..][s - k]; }
      }
      ShardOfIsShard(data, s, len, all[s]);
      var framed;
      if framing.V1? {
        framed := FrameV1(sha, k, m, s, |archive|, all[s]);
      } else {
        framed := Frame(sha, k, m, s, |archive|, all[s], framing.id);
      }
      shards := shards + [framed];
    }
    r := Ok(shards);
    forall s: nat | s < n ensures ReadsAs(sha, shards[s], s, framing) {
      FramedReads(sha, archive, n, k, framing, s);
    }
  }

  /** The buffer reads as a good shard of this index and framing. */
  predicate ReadsAs(sha: Digest, buf: Buffer, s: nat, framing: Framing) {
    var p := Unframe(sha, buf);
    && p.Some? && p.value.good && p.value.f.idx == s && p.value.f.ver == framing.Version()
    && p.value.id == if framing.V1? then None else Some(framing.id)
  }

  lemma FramedReads(sha: Digest, archive: Buffer, n: nat, k: nat, framing: Framing, s: nat)
    requires IsDigest(sha) && ValidParameters(|archive|, n, k) && framing.Valid() && s < n
    ensures ReadsAs(sha, FramedShard(sha, archive, n, k, framing, s), s, framing)
  {
    hide Unframe, FrameOf, Radix, ShardLen, Payload;
    ArchiveLengthFits(|archive|, k);
    PayloadLength(archive, k, s);
    var whole := FramedShard(sha, archive, n, k, framing, s);
    UnframeInvertsFrame(sha, IdentityOf(archive, n, k, framing, s), framing.Id(), Payload(archive, k, s), []);
    assert whole + [] == whole;
  }

  function ChosenFraming(id: Option<Buffer>, version: nat, randomId: Buffer): (f: Framing)
    requires |randomId| == ID_LEN
    ensures f.Valid()
  {
    if version == 1 then V1 else if id.Some? && |id.value| == ID_LEN then V2(id.value) else V2(randomId)
  }

  lemma ArchiveLengthFits(len: nat, k: nat)
    requires 1 <= k <= 255 && ShardLen(len, k) < Radix(4)
    ensures len < Radix(8)
  {
    assert Radix(8) == 256 * 256 * 256 * 256 * Radix(4);
    assert k * ShardLen(len, k) <= 255 * ShardLen(len, k);
  }

  method CutSlices(archive: Buffer, k: nat, len: nat) returns (data: seq<Buffer>)
    requires k >= 1 && len == ShardLen(|archive|, k)
    ensures data == Slices(archive, k)
  {
    hide ShardLen;
    data := [];
    for i := 0 to k
      invariant |data| == i && forall j :: 0 <= j < i ==> data[j] == Slice(archive, j, len)
    {
      var start, end := Min(i * len, |archive|), Min((i + 1) * len, |archive|);
      assert (i + 1) * len == i * len + len;
      var s := seq(len, b => 0);
      if start < end { s := archive[start..end] + s[end - start..]; }
      assert s == Slice(archive, i, len);
      data := data + [s];
    }
  }

  // ----- grouping -----

  /** What the shards of one dispersal have in common. */
  datatype Key = Key(id: Option<Buffer>, k: byte, m: byte, origLen: nat, shardLen: nat)

  function KeyOf(p: Shard): Key {
    Key(p.id, p.f.k, p.f.m, p.f.origLen, p.f.shardLen)
  }

  type Group = map<int, Shard>

  /** The good shards with the given key, by index; the first shard of an index wins. */
  function Members(parsed: seq<Shard>, key: Key): Group {
    if parsed == [] then map[]
    else
      var g, p := Members(parsed[..|parsed| - 1], key), parsed[|parsed| - 1];
      if KeyOf(p) == key && p.f.idx !in g then g[p.f.idx := p] else g
  }

  lemma {:induction false} MembersAreParsed(parsed: seq<Shard>, key: Key, i: int)
    requires i in Members(parsed, key)
    ensures var p := Members(parsed, key)[i]; p in parsed && KeyOf(p) == key && p.f.idx == i
  {
    var front := parsed[..|parsed| - 1];
    if i in Members(front, key) { MembersAreParsed(front, key, i); }
  }

  lemma {:induction false} ParsedAreMembers(parsed: seq<Shard>, p: Shard)
    requires p in parsed
    ensures p.f.idx in Members(parsed, KeyOf(p))
  {
    var front := parsed[..|parsed| - 1];
    if p in front { ParsedAreMembers(front, p); }
  }

  function GoodShards(sha: Digest, bufs: seq<Buffer>): seq<Shard> {
    if bufs == [] then []
    else
      var good, p := GoodShards(sha, bufs[..|bufs| - 1]), Unframe(sha, bufs[|bufs| - 1]);
      if p.Some? && p.value.good then good + [p.value] else good
  }

  lemma {:induction false} GoodShardsAre(sha: Digest, bufs: seq<Buffer>, p: Shard)
    ensures p in GoodShards(sha, bufs) <==> p.good && exists b :: b in bufs && Unframe(sha, b) == Some(p)
  {
    hide Unframe;
    if bufs == [] {
    } else {
      var front, last := bufs[..|bufs| - 1], bufs[|bufs| - 1];
      GoodShardsAre(sha, front, p);
      if p.good && exists b :: b in bufs && Unframe(sha, b) == Some(p) {
        var b :| b in bufs && Unframe(sha, b) == Some(p);
        assert b in front || b == last;
      }
    }
  }

  method ParseGoodShards(sha: Digest, bufs: seq<Buffer>) returns (parsed: seq<Shard>)
    ensures parsed == GoodShards(sha, bufs)
  {
    hide Unframe;
    parsed := [];
    for i := 0 to |bufs|
      invariant parsed == GoodShards(sha, bufs[..i])
    {
      assert bufs[..i + 1][..i] == bufs[..i];
      var p := Unframe(sha, bufs[i]);
      if p.Some? && p.value.good { parsed := parsed + [p.value]; }
    }
    assert bufs[..|bufs|] == bufs;
  }

  /** The different keys of the shards, in order of first appearance. */
  function KeysOf(parsed: seq<Shard>): seq<Key> {
    if parsed == [] then []
    else
      var keys, key := KeysOf(parsed[..|parsed| - 1]), KeyOf(parsed[|parsed| - 1]);
      if key in keys then keys else keys + [key]
  }

  /** The key has a member, and no key has more. */
  ghost predicate IsLargest(parsed: seq<Shard>, key: Key) {
    && |Members(parsed, key)| > 0
    && forall other: Key :: |Members(parsed, other)| <= |Members(parsed, key)|
  }

  /** The first to appear of the largest groups. */
  ghost predicate IsFirstLargest(parsed: seq<Shard>, key: Key) {
    && IsLargest(parsed, key)
    && exists i :: 0 <= i < |KeysOf(parsed)| && KeysOf(parsed)[i] == key
        && forall j :: 0 <= j < i ==> |Members(parsed, KeysOf(parsed)[j])| < |Members(parsed, key)|
  }

  /** The groups under construction. */
  ghost predicate Grouped(parsed: seq<Shard>, keys: seq<Key>, groups: map<Key, Group>) {
    && keys == KeysOf(parsed)
    && (forall key :: key in groups <==> key in keys)
    && (forall key: Key :: Members(parsed, key) == if key in groups then groups[key] else map[])
    && (forall key :: key in groups ==> |groups[key]| > 0)
  }

  lemma GroupedStep(parsed: seq<Shard>, p: Shard, keys: seq<Key>, groups: map<Key, Group>, g: Group)
    requires Grouped(parsed, keys, groups)
    requires g == if KeyOf(p) in groups then groups[KeyOf(p)] else map[]
    ensures Grouped(parsed + [p], if KeyOf(p) in groups then keys else keys + [KeyOf(p)],
                    groups[KeyOf(p) := if p.f.idx in g then g else g[p.f.idx := p]])
  {
    assert (parsed + [p])[..|parsed|] == parsed;
    assert p.f.idx in if p.f.idx in g then g else g[p.f.idx := p];
  }

  method GroupShards(parsed: seq<Shard>) returns (keys: seq<Key>, groups: map<Key, Group>)
    ensures Grouped(parsed, keys, groups) && (keys == [] <==> parsed == [])
  {
    keys, groups := [], map[];
    for i := 0 to |parsed|
      invariant Grouped(parsed[..i], keys, groups) && (keys == [] <==> i == 0)
    {
      hide Grouped, Members;
      assert parsed[..i + 1] == parsed[..i] + [parsed[i]];
      var p := parsed[i];
      var key := KeyOf(p);
      var g: Group := if key in groups then groups[key] else map[];
      GroupedStep(parsed[..i], p, keys, groups, g);
      if key !in groups { keys := keys + [key]; }
      groups := groups[key := if p.f.idx in g then g else g[p.f.idx := p]];
    }
    assert parsed[..|parsed|] == parsed;
  }

  /** `largestGroup`: the first of the groups that no other group exceeds. */
  method LargestGroup(parsed: seq<Shard>) returns (best: Option<Key>, group: Group)
    ensures best.None? <==> parsed == []
    ensures best.Some? ==> IsFirstLargest(parsed, best.value) && group == Members(parsed, best.value)
  {
    hide Members, KeysOf;
    var keys, groups := GroupShards(parsed);
    best, group := None, map[];
    ghost var at := 0;
    assert forall j :: 0 <= j < |keys| ==> keys[j] in groups;
    for i := 0 to |keys|
      invariant at <= |keys|
      invariant best.None? <==> i == 0
      invariant best.Some? ==> at < i && best.value == keys[at] && best.value in groups && group == groups[best.value]
      invariant forall j :: 0 <= j < at ==> |groups[keys[j]]| < |group|
      invariant forall j :: 0 <= j < i ==> |groups[keys[j]]| <= |group|
    {
      if best.None? || |groups[keys[i]]| > |group| {
        best, group, at := Some(keys[i]), groups[keys[i]], i;
      }
    }
  }

  // ----- decoding -----

  datatype DecodeError = NewerVersion | NoReadable | NotEnough(have: nat, need: nat)

  /** The version of a shard that a newer build wrote, or 0. */
  /** A shard, by its magic, of a version beyond 2. */
  predicate IsNewer(b: Buffer) { |b| >= 5 && b[..4] == [0x56, 0x44, 0x53, 0x48] && b[4] > 2 }

  lemma NewerIs(b: Buffer)
    ensures IsNewer(b) <==> NewerShardVersion(b) > 0
  {}

  function NewerShardVersion(buf: Buffer): nat {
    if |buf| < 5 || buf[..4] != MAGIC then 0 else if buf[4] > VERSION then buf[4] else 0
  }

  /** The slots of a group's geometry, filled with the payloads of its members. */
  function SlotsOf(group: Group, n: nat): (slots: seq<Option<Buffer>>)
    ensures |slots| == n
  {
    seq(n, s requires 0 <= s < n => if s in group then Some(group[s].y) else None)
  }

  /** Every member of the group carries the payload of its index in a dispersal of the data. */
  ghost predicate GroupAgrees(group: Group, data: seq<Buffer>, len: nat) {
    RS.EqualLengths(data, len) && forall i :: i in group ==> i >= 0 && group[i].y == ShardOf(data, i, len)
  }

  lemma GroupGeometry(sha: Digest, bufs: seq<Buffer>, key: Key, i: int)
    requires i in Members(GoodShards(sha, bufs), key)
    ensures 1 <= key.k && key.k as int + key.m as int <= 256 && 0 <= i < key.k as int + key.m as int
    ensures |Members(GoodShards(sha, bufs), key)[i].y| == key.shardLen
  {
    var parsed := GoodShards(sha, bufs);
    MembersAreParsed(parsed, key, i);
    GoodShardsAre(sha, bufs, Members(parsed, key)[i]);
  }

  lemma SlotsCount(group: Group, n: nat)
    requires forall i :: i in group ==> 0 <= i < n
    ensures RS.Present(SlotsOf(group, n)) == |group|
  {
    RS.PresentIs(SlotsOf(group, n), group.Keys);
  }

  lemma SlotsAgree(group: Group, data: seq<Buffer>, n: nat, len: nat)
    requires |data| > 0 && GroupAgrees(group, data, len)
    ensures RS.Agrees(data, SlotsOf(group, n), len)
  {
    hide ShardOf, RS.IsShard;
    forall s | 0 <= s < n && SlotsOf(group, n)[s].Some?
      ensures |SlotsOf(group, n)[s].value| == len && RS.IsShard(data, s, SlotsOf(group, n)[s].value)
    {
      ShardOfIsShard(data, s, len, group[s].y);
    }
  }

  /** The part of `decodeShards` after the group is chosen. `data` is whatever data the group may come from. */
  method RebuildGroup(t: Tables, group: Group, key: Key, ghost data: seq<Buffer>)
    returns (r: Result<Buffer, DecodeError>)
    requires t.Valid() && 1 <= key.k && key.k as int + key.m as int <= 256
    requires forall i :: i in group ==> 0 <= i < key.k as int + key.m as int && |group[i].y| == key.shardLen
    ensures |group| < key.k <==> r.Err?
    ensures r.Err? ==> r.error == NotEnough(|group|, key.k)
    ensures r.Ok? && |data| == key.k && GroupAgrees(group, data, key.shardLen)
            ==> r.value == Concat(data)[..Min(key.origLen, |Concat(data)|)]
  {
    hide Tables.Valid, RS.IsShard, ShardOf, GroupAgrees;
    var k: nat, m: nat, len := key.k, key.m, key.shardLen;
    var slots := SlotsOf(group, k + m);
    SlotsCount(group, k + m);
    var have := |group|;
    if have < k { return Err(NotEnough(have, k)); }
    if |data| == k && GroupAgrees(group, data, len) { SlotsAgree(group, data, k + m, len); }
    if m > 0 {
      var filled := RS.Reconstruct(t, k, m, slots, true, data, len);
      slots := filled.value;
    } else {
      RS.AllPresent(slots);
      if |data| == k && GroupAgrees(group, data, len) {
        forall s | 0 <= s < k ensures slots[s] == Some(data[s]) { RS.DataShardIsItself(data, s, slots[s].value); }
      }
    }
    var all := RS.DataSlots(slots, k);
    if |data| == k && GroupAgrees(group, data, len) { assert all == data; }
    var bytes := Concat(all);
    r := Ok(bytes[..Min(key.origLen, |bytes|)]);
  }

  method DecodeShards(t: Tables, sha: Digest, bufs: seq<Buffer>, ghost archive: Buffer, ghost n: nat, ghost k: nat,
                      ghost framing: Framing)
    returns (r: Result<Buffer, DecodeError>)
    requires t.Valid() && IsDigest(sha)
    ensures r == Err(NewerVersion) <==> GoodShards(sha, bufs) == [] && exists b :: b in bufs && IsNewer(b)
    ensures r == Err(NoReadable) <==> GoodShards(sha, bufs) == [] && forall b :: b in bufs ==> !IsNewer(b)
    ensures r.Ok? ==>
      exists key :: IsFirstLargest(GoodShards(sha, bufs), key) && |Members(GoodShards(sha, bufs), key)| >= key.k
    ensures r.Err? && r.error.NotEnough? ==> exists key: Key :: (
      && IsFirstLargest(GoodShards(sha, bufs), key)
      && r.error == NotEnough(|Members(GoodShards(sha, bufs), key)|, key.k)
      && r.error.have < r.error.need)
    ensures Winning(sha, bufs, archive, n, k, framing) ==> r == Ok(archive)
  {
    hide Tables.Valid, Unframe, Members, GroupAgrees, Payload, Radix, KeysOf, IsNewer;
    var parsed := ParseGoodShards(sha, bufs);
    if parsed == [] {
      WinningHasMembers(sha, bufs, archive, n, k, framing);
      forall b ensures IsNewer(b) <==> NewerShardVersion(b) > 0 { NewerIs(b); }
      if exists b :: b in bufs && NewerShardVersion(b) > 0 { return Err(NewerVersion); }
      return Err(NoReadable);
    }
    var best, group := LargestGroup(parsed);
    var key := best.value;
    ghost var i := SomeMember(group);
    GroupGeometry(sha, bufs, key, i);
    forall i | i in group ensures 0 <= i < key.k as int + key.m as int && |group[i].y| == key.shardLen {
      GroupGeometry(sha, bufs, key, i);
    }
    ghost var data := [];
    if Winning(sha, bufs, archive, n, k, framing) {
      data := Slices(archive, k);
      WinningIsLargest(sha, bufs, archive, n, k, framing, key);
    }
    r := RebuildGroup(t, group, key, data);
    if Winning(sha, bufs, archive, n, k, framing) { SlicesConcat(archive, k); }
  }

  /** `dominantGroup`: the common fields of the group that `decodeShards` rebuilds from. */
  method DominantGroup(sha: Digest, bufs: seq<Buffer>) returns (r: Option<Key>)
    ensures r.None? <==> GoodShards(sha, bufs) == []
    ensures r.Some? ==> IsFirstLargest(GoodShards(sha, bufs), r.value)
  {
    hide Unframe, Members, KeysOf;
    var parsed := ParseGoodShards(sha, bufs);
    var group;
    r, group := LargestGroup(parsed);
  }

  // ----- who comes first -----

  /** The i-th shard is in the key's group: it has the key, and no shard before it has the key and its index. */
  predicate JoinsGroup(parsed: seq<Shard>, key: Key, i: nat)
    requires i < |parsed|
  {
    && KeyOf(parsed[i]) == key
    && forall j :: 0 <= j < i ==> KeyOf(parsed[j]) != key || parsed[j].f.idx != parsed[i].f.idx
  }

  /** Of the shards of a key with one index the first is in the group, and no other. */
  lemma {:induction false} FirstOfIndex(parsed: seq<Shard>, key: Key, idx: int)
    ensures idx in Members(parsed, key)
            <==> exists i :: 0 <= i < |parsed| && JoinsGroup(parsed, key, i) && parsed[i].f.idx == idx
    ensures forall i :: 0 <= i < |parsed| && JoinsGroup(parsed, key, i) && parsed[i].f.idx == idx ==>
              idx in Members(parsed, key) && Members(parsed, key)[idx] == parsed[i]
  {
    hide KeyOf;
    if parsed == [] {
    } else {
      var front, last: nat := parsed[..|parsed| - 1], |parsed| - 1;
      FirstOfIndex(front, key, idx);
      assert forall i: nat :: i < last ==> (JoinsGroup(front, key, i) <==> JoinsGroup(parsed, key, i));
      if parsed[last].f.idx == idx && KeyOf(parsed[last]) == key && idx in Members(front, key) {
        assert !JoinsGroup(parsed, key, last);
      }
      if parsed[last].f.idx == idx && KeyOf(parsed[last]) == key && idx !in Members(front, key) {
        assert JoinsGroup(parsed, key, last) by { NoneBefore(front, key, idx); }
      }
    }
  }

  lemma {:induction false} NoneBefore(parsed: seq<Shard>, key: Key, idx: int)
    requires idx !in Members(parsed, key)
    ensures forall j :: 0 <= j < |parsed| ==> KeyOf(parsed[j]) != key || parsed[j].f.idx != idx
  {
    hide KeyOf;
    if parsed == [] {
    } else {
      NoneBefore(parsed[..|parsed| - 1], key, idx);
    }
  }

  /** The i-th shard is the first of its key. */
  predicate IsFirstOf(parsed: seq<Shard>, key: Key, i: nat) {
    i < |parsed| && KeyOf(parsed[i]) == key && forall j :: 0 <= j < i ==> KeyOf(parsed[j]) != key
  }

  /** Both keys are listed, a before b. */
  predicate Before(keys: seq<Key>, a: Key, b: Key) {
    exists y :: 0 <= y < |keys| && keys[y] == b && a in keys[..y]
  }

  lemma {:induction false} KeysInOrder(parsed: seq<Shard>, a: Key, b: Key, i: nat, j: nat)
    requires IsFirstOf(parsed, a, i) && IsFirstOf(parsed, b, j) && i < j
    ensures Before(KeysOf(parsed), a, b)
  {
    hide KeyOf, Before;
    var front, last := parsed[..|parsed| - 1], |parsed| - 1;
    var keys := KeysOf(front);
    if j == last {
      KeysAre(front, a);
      KeysAre(front, b);
      assert KeyOf(front[i]) == a;
      assert KeysOf(parsed) == keys + [b];
      hide KeysOf;
      BeforeLast(keys, a, b);
    } else {
      KeysInOrder(front, a, b, i, j);
      assert KeysOf(parsed) == keys || KeysOf(parsed) == keys + [KeyOf(parsed[last])];
      hide KeysOf;
      BeforeGrows(keys, a, b, KeyOf(parsed[last]));
    }
  }

  lemma BeforeLast(keys: seq<Key>, a: Key, b: Key)
    requires a in keys
    ensures Before(keys + [b], a, b)
  {
    var all := keys + [b];
    assert all[|keys|] == b && all[..|keys|] == keys;
  }

  lemma BeforeGrows(keys: seq<Key>, a: Key, b: Key, c: Key)
    requires Before(keys, a, b)
    ensures Before(keys + [c], a, b)
  {
    var all := keys + [c];
    var y :| 0 <= y < |keys| && keys[y] == b && a in keys[..y];
    assert all[y] == b && all[..y] == keys[..y];
  }

  lemma {:induction false} KeysAre(parsed: seq<Shard>, key: Key)
    ensures key in KeysOf(parsed) <==> exists i :: 0 <= i < |parsed| && KeyOf(parsed[i]) == key
  {
    hide KeyOf;
    if parsed == [] {
    } else {
      var front := parsed[..|parsed| - 1];
      KeysAre(front, key);
      assert forall i :: 0 <= i < |front| ==> front[i] == parsed[i];
    }
  }

  lemma {:induction false} KeysDistinct(parsed: seq<Shard>)
    ensures forall x, y :: 0 <= x < y < |KeysOf(parsed)| ==> KeysOf(parsed)[x] != KeysOf(parsed)[y]
  {
    hide KeyOf;
    if parsed == [] {
    } else {
      KeysDistinct(parsed[..|parsed| - 1]);
    }
  }

  /** Of two largest groups the one whose first shard comes earlier wins. */
  lemma TieGoesToTheEarlier(parsed: seq<Shard>, a: Key, b: Key, i: nat, j: nat)
    requires IsFirstOf(parsed, a, i) && IsFirstOf(parsed, b, j) && i < j && IsFirstLargest(parsed, b)
    ensures |Members(parsed, a)| < |Members(parsed, b)|
  {
    hide KeyOf, Members, IsLargest;
    KeysInOrder(parsed, a, b, i, j);
    KeysDistinct(parsed);
    var keys := KeysOf(parsed);
    var y :| 0 <= y < |keys| && keys[y] == b && a in keys[..y];
    var x :| 0 <= x < y && keys[x] == a;
  }

  lemma {:induction false} GoodShardsAppend(sha: Digest, a: seq<Buffer>, b: seq<Buffer>)
    ensures GoodShards(sha, a + b) == GoodShards(sha, a) + GoodShards(sha, b)
  {
    hide Unframe;
    if b == [] {
      assert a + b == a;
    } else {
      var front := b[..|b| - 1];
      GoodShardsAppend(sha, a, front);
      assert (a + b)[..|a + b| - 1] == a + front && (a + b)[|a + b| - 1] == b[|b| - 1];
    }
  }

  // ----- when a dispersal wins -----

  ghost function KeyFor(archive: Buffer, n: nat, k: nat, framing: Framing): Key
    requires 1 <= k <= n <= 255
  {
    Key(if framing.V1? then None else Some(framing.id), k, n - k, |archive|, ShardLen(|archive|, k))
  }

  /** The indices of the dispersal's shards that are among the buffers, possibly with bytes appended. */
  ghost function Held(sha: Digest, bufs: seq<Buffer>, archive: Buffer, n: nat, k: nat, framing: Framing): set<int>
    requires 1 <= k <= n <= 255
  {
    set s: int | 0 <= s < n && exists b :: b in bufs && FramedShard(sha, archive, n, k, framing, s) <= b
  }

  /** No good shard among the buffers carries the dispersal's key without being one of its shards: what the hash
      and the random id are for. */
  ghost predicate Genuine(sha: Digest, bufs: seq<Buffer>, archive: Buffer, n: nat, k: nat, framing: Framing)
    requires 1 <= k <= n <= 255
  {
    forall p :: p in GoodShards(sha, bufs) && KeyOf(p) == KeyFor(archive, n, k, framing) ==>
      p.y == Payload(archive, k, p.f.idx)
  }

  /** At least k different shards of the dispersal are there, no forged ones, and every other group is smaller. */
  ghost predicate Winning(sha: Digest, bufs: seq<Buffer>, archive: Buffer, n: nat, k: nat, framing: Framing) {
    && ValidParameters(|archive|, n, k) && framing.Valid()
    && |Held(sha, bufs, archive, n, k, framing)| >= k
    && Genuine(sha, bufs, archive, n, k, framing)
    && forall key: Key :: key != KeyFor(archive, n, k, framing) ==>
         |Members(GoodShards(sha, bufs), key)| < |Members(GoodShards(sha, bufs), KeyFor(archive, n, k, framing))|
  }

  /** A held shard reads back as good, with the dispersal's key and its own index and payload. */
  lemma HeldShardReads(sha: Digest, archive: Buffer, n: nat, k: nat, framing: Framing, s: nat, buf: Buffer)
    requires IsDigest(sha) && ValidParameters(|archive|, n, k) && framing.Valid() && s < n
    requires FramedShard(sha, archive, n, k, framing, s) <= buf
    ensures Unframe(sha, buf).Some?
    ensures var p := Unframe(sha, buf).value;
            p.good && KeyOf(p) == KeyFor(archive, n, k, framing) && p.f.idx == s && p.y == Payload(archive, k, s)
  {
    hide Unframe, FrameOf, Radix, ShardLen, Payload;
    ArchiveLengthFits(|archive|, k);
    PayloadLength(archive, k, s);
    var f, whole := IdentityOf(archive, n, k, framing, s), FramedShard(sha, archive, n, k, framing, s);
    UnframeInvertsFrame(sha, f, framing.Id(), Payload(archive, k, s), buf[|whole|..]);
    assert buf == whole + buf[|whole|..];
  }

  lemma PayloadLength(archive: Buffer, k: nat, s: nat)
    requires k >= 1
    ensures |Payload(archive, k, s)| == ShardLen(|archive|, k)
  {}

  lemma HeldAreMembers(sha: Digest, bufs: seq<Buffer>, archive: Buffer, n: nat, k: nat, framing: Framing)
    requires IsDigest(sha) && ValidParameters(|archive|, n, k) && framing.Valid()
    ensures var key := KeyFor(archive, n, k, framing);
            Held(sha, bufs, archive, n, k, framing) <= Members(GoodShards(sha, bufs), key).Keys
  {
    hide Unframe, FramedShard, Members, Payload, KeyFor, ShardLen, Radix;
    forall s | s in Held(sha, bufs, archive, n, k, framing)
      ensures s in Members(GoodShards(sha, bufs), KeyFor(archive, n, k, framing))
    {
      var b :| b in bufs && FramedShard(sha, archive, n, k, framing, s) <= b;
      HeldShardReads(sha, archive, n, k, framing, s, b);
      var p := Unframe(sha, b).value;
      GoodShardsAre(sha, bufs, p);
      ParsedAreMembers(GoodShards(sha, bufs), p);
    }
  }

  lemma SomeMember(g: Group) returns (i: int)
    requires |g| > 0
    ensures i in g
  {
    assert (forall j :: j !in g) ==> g == map[];
    i :| i in g;
  }

  lemma NoMembers()
    ensures forall key :: Members([], key) == map[]
  {}

  lemma WinningHasMembers(sha: Digest, bufs: seq<Buffer>, archive: Buffer, n: nat, k: nat, framing: Framing)
    requires IsDigest(sha)
    ensures Winning(sha, bufs, archive, n, k, framing) ==>
      |Members(GoodShards(sha, bufs), KeyFor(archive, n, k, framing))| >= k
    ensures Winning(sha, bufs, archive, n, k, framing) ==> GoodShards(sha, bufs) != []
  {
    NoMembers();
    hide Members, Held, KeyFor, Genuine;
    if Winning(sha, bufs, archive, n, k, framing) {
      HeldAreMembers(sha, bufs, archive, n, k, framing);
      var g := Members(GoodShards(sha, bufs), KeyFor(archive, n, k, framing));
      Sets.SubsetSize(Held(sha, bufs, archive, n, k, framing), g.Keys);
    }
  }

  /** The largest group of a winning list is that of the dispersal, and all its members are genuine. */
  lemma WinningIsLargest(sha: Digest, bufs: seq<Buffer>, archive: Buffer, n: nat, k: nat, framing: Framing, key: Key)
    requires IsDigest(sha) && Winning(sha, bufs, archive, n, k, framing) && IsLargest(GoodShards(sha, bufs), key)
    ensures key == KeyFor(archive, n, k, framing) && |Members(GoodShards(sha, bufs), key)| >= k
    ensures GroupAgrees(Members(GoodShards(sha, bufs), key), Slices(archive, k), ShardLen(|archive|, k))
  {
    hide Members, Unframe, ShardLen, Radix, ShardOf;
    WinningHasMembers(sha, bufs, archive, n, k, framing);
    var parsed := GoodShards(sha, bufs);
    var g := Members(parsed, key);
    assert |Members(parsed, KeyFor(archive, n, k, framing))| <= |g|;
    forall i | i in g ensures i >= 0 && g[i].y == Payload(archive, k, i) {
      MembersAreParsed(parsed, key, i);
    }
  }

  /** A good shard with the dispersal's key and the payload of its index is that shard of the dispersal. */
  lemma GenuineIsHeld(sha: Digest, archive: Buffer, n: nat, k: nat, framing: Framing, p: Shard, buf: Buffer)
    requires IsDigest(sha) && ValidParameters(|archive|, n, k) && framing.Valid()
    requires Unframe(sha, buf) == Some(p) && p.good
    requires KeyOf(p) == KeyFor(archive, n, k, framing) && p.y == Payload(archive, k, p.f.idx)
    ensures p.f.idx < n && FramedShard(sha, archive, n, k, framing, p.f.idx) <= buf
  {
    hide Unframe, FrameOf, Radix, ShardLen, Payload;
    GoodBufferIsFrame(sha, buf, p);
    assert p.f == IdentityOf(archive, n, k, framing, p.f.idx);
  }

  /** Without forgeries the group of a dispersal is exactly the shards held. */
  lemma MembersAreHeld(sha: Digest, bufs: seq<Buffer>, archive: Buffer, n: nat, k: nat, framing: Framing)
    requires IsDigest(sha) && ValidParameters(|archive|, n, k) && framing.Valid()
    requires Genuine(sha, bufs, archive, n, k, framing)
    ensures var key := KeyFor(archive, n, k, framing);
            Members(GoodShards(sha, bufs), key).Keys == Held(sha, bufs, archive, n, k, framing)
  {
    hide Unframe, FramedShard, Members, Payload, KeyFor, ShardLen, Radix;
    HeldAreMembers(sha, bufs, archive, n, k, framing);
    var parsed, key := GoodShards(sha, bufs), KeyFor(archive, n, k, framing);
    forall s | s in Members(parsed, key) ensures s in Held(sha, bufs, archive, n, k, framing) {
      MembersAreParsed(parsed, key, s);
      var p := Members(parsed, key)[s];
      GoodShardsAre(sha, bufs, p);
      var b :| b in bufs && Unframe(sha, b) == Some(p);
      GenuineIsHeld(sha, archive, n, k, framing, p, b);
    }
  }

  /** Any k different shards of a dispersal, in any order and repeated at will, win when nothing else is there. */
  lemma ShardsAloneWin(sha: Digest, bufs: seq<Buffer>, archive: Buffer, n: nat, k: nat, framing: Framing)
    requires IsDigest(sha) && ValidParameters(|archive|, n, k) && framing.Valid()
    requires forall b :: b in bufs ==> exists s: nat :: s < n && FramedShard(sha, archive, n, k, framing, s) <= b
    requires |Held(sha, bufs, archive, n, k, framing)| >= k
    ensures Winning(sha, bufs, archive, n, k, framing)
  {
    hide Unframe, FramedShard, Members, Payload, KeyFor, ShardLen, Radix, Held;
    var parsed, key := GoodShards(sha, bufs), KeyFor(archive, n, k, framing);
    forall p | p in parsed ensures KeyOf(p) == key && p.y == Payload(archive, k, p.f.idx) {
      GoodShardsAre(sha, bufs, p);
      var b :| b in bufs && Unframe(sha, b) == Some(p);
      var s: nat :| s < n && FramedShard(sha, archive, n, k, framing, s) <= b;
      HeldShardReads(sha, archive, n, k, framing, s, b);
    }
    MembersAreHeld(sha, bufs, archive, n, k, framing);
    OneKey(parsed, key);
  }

  lemma OneKey(parsed: seq<Shard>, key: Key)
    requires forall p :: p in parsed ==> KeyOf(p) == key
    ensures forall other: Key :: other != key ==> |Members(parsed, other)| == 0
  {
    hide Members, KeyOf;
    forall other: Key | other != key ensures |Members(parsed, other)| == 0 {
      assert (forall i :: i !in Members(parsed, other)) ==> Members(parsed, other) == map[];
      if i :| i in Members(parsed, other) {
        MembersAreParsed(parsed, other, i);
        assert false;
      }
    }
  }

  /** The buffer holds a shard of the dispersal. */
  ghost predicate IsOf(sha: Digest, b: Buffer, archive: Buffer, n: nat, k: nat, framing: Framing)
    requires 1 <= k <= n <= 255
  {
    exists s: nat :: s < n && FramedShard(sha, archive, n, k, framing, s) <= b
  }

  /** Two dispersals under different ids are never mixed, even of archives of the same length in the same geometry: the
      one with more shards there, k at least, wins, whatever the order. */
  lemma DispersalsNeverMix(sha: Digest, bufs: seq<Buffer>, archive: Buffer, other: Buffer, n: nat, k: nat,
                           framing: Framing, otherFraming: Framing)
    requires IsDigest(sha) && ValidParameters(|archive|, n, k) && |other| == |archive|
    requires framing.Valid() && otherFraming.Valid() && framing != otherFraming
    requires forall b :: b in bufs ==>
               IsOf(sha, b, archive, n, k, framing) || IsOf(sha, b, other, n, k, otherFraming)
    requires |Held(sha, bufs, archive, n, k, framing)| >= k
    requires |Held(sha, bufs, archive, n, k, framing)| > |Held(sha, bufs, other, n, k, otherFraming)|
    ensures Winning(sha, bufs, archive, n, k, framing)
  {
    hide Unframe, FramedShard, Members, Payload, ShardLen, Radix, Held, KeyOf;
    var parsed := GoodShards(sha, bufs);
    var key, foreign := KeyFor(archive, n, k, framing), KeyFor(other, n, k, otherFraming);
    assert key != foreign;
    forall p | p in parsed
      ensures || (KeyOf(p) == key && p.y == Payload(archive, k, p.f.idx))
              || (KeyOf(p) == foreign && p.y == Payload(other, k, p.f.idx))
    {
      GoodShardsAre(sha, bufs, p);
      var b :| b in bufs && Unframe(sha, b) == Some(p);
      if IsOf(sha, b, archive, n, k, framing) {
        var s: nat :| s < n && FramedShard(sha, archive, n, k, framing, s) <= b;
        HeldShardReads(sha, archive, n, k, framing, s, b);
      } else {
        var s: nat :| s < n && FramedShard(sha, other, n, k, otherFraming, s) <= b;
        HeldShardReads(sha, other, n, k, otherFraming, s, b);
      }
    }
    MembersAreHeld(sha, bufs, archive, n, k, framing);
    MembersAreHeld(sha, bufs, other, n, k, otherFraming);
    assert |Members(parsed, key)| == |Members(parsed, key).Keys|;
    assert |Members(parsed, foreign)| == |Members(parsed, foreign).Keys|;
    forall third: Key | third != key && third != foreign ensures |Members(parsed, third)| == 0 {
      NoneOfKey(parsed, third);
    }
  }

  lemma NoneOfKey(parsed: seq<Shard>, key: Key)
    requires forall p :: p in parsed ==> KeyOf(p) != key
    ensures |Members(parsed, key)| == 0
  {
    hide Members, KeyOf;
    assert (forall i :: i !in Members(parsed, key)) ==> Members(parsed, key) == map[];
    if i :| i in Members(parsed, key) {
      MembersAreParsed(parsed, key, i);
      assert false;
    }
  }
}
