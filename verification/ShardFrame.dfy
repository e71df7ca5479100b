/** The self-describing shard format of lib/Disperse.js: `frame`, `frameV1` and `unframe`. */
module ShardFrame {
  import opened Bytes
  import opened Wrappers

  /** SHA-256, of which only the digest length is known. */
  type Digest = Buffer -> Buffer

  ghost predicate IsDigest(sha: Digest) {
    forall b: Buffer :: |sha(b)| == 32
  }

  const MAGIC: Buffer := [0x56, 0x44, 0x53, 0x48] // "VDSH"
  const VERSION: nat := 2
  const PRE: nat := 20
  const ID_LEN: nat := 16
  const HEADER_V1: nat := 52
  const HEADER_V2: nat := 68

  predicate VersionSupported(ver: nat) { 1 <= ver <= VERSION }
  function HeaderSizeFor(ver: nat): nat { if ver >= 2 then HEADER_V2 else HEADER_V1 }

  /** The identity fields that all versions share, after the magic. */
  datatype Identity = Identity(ver: byte, k: byte, m: byte, idx: byte, origLen: nat, shardLen: nat) {
    predicate Fits() { origLen < Radix(8) && shardLen < Radix(4) }

    function Bytes(): (b: Buffer)
      ensures |b| == 16
    {
      [ver, k, m, idx] + BigEndian(origLen, 8) + BigEndian(shardLen, 4)
    }
  }

  /** The frame of a payload: version 2 carries a dispersal id and hashes identity, id and payload;
      version 1 has no id and hashes the payload. */
  function FrameOf(sha: Digest, f: Identity, id: Buffer, y: Buffer): Buffer {
    if f.ver >= 2 then MAGIC + f.Bytes() + id + sha(f.Bytes() + id + y) + y
    else MAGIC + f.Bytes() + sha(y) + y
  }

  datatype Shard = Shard(f: Identity, id: Option<Buffer>, y: Buffer, good: bool)

  /** `unframe`, with its refusals in order. */
  function Unframe(sha: Digest, buf: Buffer): Option<Shard> {
    if |buf| < HEADER_V1 then None
    else if buf[..4] != MAGIC then None
    else if !VersionSupported(buf[4]) then None
    else
      var ver := buf[4];
      var hs := HeaderSizeFor(ver);
      if |buf| < hs then None
      else
        var k, m, idx := buf[5], buf[6], buf[7];
        if k < 1 || k as int + m as int > 256 || idx as int >= k as int + m as int then None
        else
          var origLen, shardLen := FromBigEndian(buf[8..16]), FromBigEndian(buf[16..20]);
          if |buf| < hs + shardLen then None
          else
            var y := buf[hs..hs + shardLen];
            var f := Identity(ver, k, m, idx, origLen, shardLen);
            if ver >= 2 then
              Some(Shard(f, Some(buf[PRE..PRE + ID_LEN]), y, sha(buf[4..PRE + ID_LEN] + y) == buf[PRE + ID_LEN..hs]))
            else
              Some(Shard(f, None, y, sha(y) == buf[PRE..hs]))
  }

  /** What a frame's writer must guarantee for a reader to accept it. */
  ghost predicate WellFormed(f: Identity, id: Buffer, y: Buffer) {
    && VersionSupported(f.ver) && f.Fits() && f.shardLen == |y|
    && 1 <= f.k && f.k as int + f.m as int <= 256 && f.idx as int < f.k as int + f.m as int
    && (f.ver >= 2 ==> |id| == ID_LEN)
  }

  lemma IdentityRoundTrip(f: Identity)
    requires f.Fits()
    ensures FromBigEndian(f.Bytes()[4..12]) == f.origLen && FromBigEndian(f.Bytes()[12..16]) == f.shardLen
  {
    BigEndianRoundTrip(f.origLen, 8);
    BigEndianRoundTrip(f.shardLen, 4);
    assert f.Bytes()[4..12] == BigEndian(f.origLen, 8);
    assert f.Bytes()[12..16] == BigEndian(f.shardLen, 4);
  }

  /** Where the parts of a frame are. */
  lemma FrameParts(sha: Digest, f: Identity, id: Buffer, y: Buffer, padding: Buffer)
    requires IsDigest(sha) && WellFormed(f, id, y)
    ensures var buf := FrameOf(sha, f, id, y) + padding;
            && |buf| >= HeaderSizeFor(f.ver) + |y| && buf[..4] == MAGIC && buf[4..20] == f.Bytes()
            && (f.ver >= 2 ==> buf[20..36] == id && buf[36..68] == sha(f.Bytes() + id + y) && buf[68..68 + |y|] == y)
            && (f.ver < 2 ==> buf[20..52] == sha(y) && buf[52..52 + |y|] == y)
  {
    hide BigEndian, FromBigEndian, Radix;
    var b, buf := f.Bytes(), FrameOf(sha, f, id, y) + padding;
    hide Identity.Bytes;
    if f.ver >= 2 {
      assert buf == MAGIC + b + id + sha(b + id + y) + y + padding;
    } else {
      assert buf == MAGIC + b + sha(y) + y + padding;
    }
  }

  /** Reading a frame back, with anything appended to it, gives exactly the fields written. */
  lemma UnframeInvertsFrame(sha: Digest, f: Identity, id: Buffer, y: Buffer, padding: Buffer)
    requires IsDigest(sha) && WellFormed(f, id, y)
    ensures Unframe(sha, FrameOf(sha, f, id, y) + padding)
            == Some(Shard(f, if f.ver >= 2 then Some(id) else None, y, true))
  {
    hide BigEndian, FromBigEndian, Radix, FrameOf;
    IdentityRoundTrip(f);
    FrameParts(sha, f, id, y, padding);
    var b, buf := f.Bytes(), FrameOf(sha, f, id, y) + padding;
    IdentityPart(buf);
    assert f.ver >= 2 ==> buf[4..36] == b + id;
  }

  lemma IdentityPart(buf: Buffer)
    requires |buf| >= PRE + ID_LEN
    ensures buf[4..20][..4] == [buf[4], buf[5], buf[6], buf[7]]
    ensures buf[4..20][4..12] == buf[8..16] && buf[4..20][12..16] == buf[16..20]
    ensures buf[4..36] == buf[4..20] + buf[20..36]
  {}

  /** Conversely, every buffer accepted as good is the frame of the fields read from it, plus ignored bytes. */
  lemma GoodBufferIsFrame(sha: Digest, buf: Buffer, p: Shard)
    requires IsDigest(sha) && Unframe(sha, buf) == Some(p) && p.good
    ensures var id := if p.id.Some? then p.id.value else [];
            WellFormed(p.f, id, p.y) && (p.id.Some? <==> p.f.ver >= 2) && FrameOf(sha, p.f, id, p.y) <= buf
  {
    hide BigEndian, FromBigEndian, Radix;
    FromBigEndianRoundTrip(buf[8..16]);
    FromBigEndianRoundTrip(buf[16..20]);
    var b := p.f.Bytes();
    assert b == buf[4..20];
    if p.f.ver >= 2 {
      var id := p.id.value;
      assert buf[4..36] == b + id;
      assert FrameOf(sha, p.f, id, p.y) == buf[..68 + |p.y|];
    } else {
      assert FrameOf(sha, p.f, [], p.y) == buf[..52 + |p.y|];
    }
  }

  // ----- the layout -----

  /** Which octets of a frame hold what. */
  lemma FrameLayout(sha: Digest, f: Identity, id: Buffer, y: Buffer)
    requires IsDigest(sha) && WellFormed(f, id, y)
    ensures var b := FrameOf(sha, f, id, y);
            && |b| == (if f.ver == 1 then 52 else 68) + |y|
            && b[..4] == [0x56, 0x44, 0x53, 0x48] && b[4] == f.ver && b[5] == f.k && b[6] == f.m && b[7] == f.idx
            && FromBigEndian(b[8..16]) == f.origLen
            && (var h: int, i: int, j: int, l: int := b[16], b[17], b[18], b[19];
                ((h * 256 + i) * 256 + j) * 256 + l == |y|)
            && (f.ver == 1 ==> b[20..52] == sha(y) && b[52..] == y)
            && (f.ver == 2 ==> b[20..36] == id && b[36..68] == sha(b[4..36] + b[68..]) && b[68..] == y)
  {
    hide BigEndian, FromBigEndian, Radix, Identity.Bytes;
    var b := FrameOf(sha, f, id, y);
    FrameParts(sha, f, id, y, []);
    assert b + [] == b;
    IdentityRoundTrip(f);
    IdentityStarts(f);
    hide FrameOf;
    LayoutSlices(b);
    FourOctets(b[16..20]);
    if f.ver >= 2 { assert b[4..36] == f.Bytes() + id; }
  }

  lemma IdentityStarts(f: Identity)
    ensures f.Bytes()[..4] == [f.ver, f.k, f.m, f.idx]
  {}

  lemma LayoutSlices(b: Buffer)
    requires |b| >= 52
    ensures b[4..20][..4] == [b[4], b[5], b[6], b[7]] && b[4..20][4..12] == b[8..16] && b[4..20][12..16] == b[16..20]
    ensures b[16..20] == [b[16], b[17], b[18], b[19]]
    ensures |b| >= 68 ==> b[4..36] == b[4..20] + b[20..36]
  {}

  /** What the hash of version 2 is for: two good shards with the same hash are the same shard, in every field, in the
      id and in the payload, or they are a collision of the digest. */
  lemma HashBinds(sha: Digest, a: Buffer, b: Buffer)
    requires IsDigest(sha) && IsGoodTwo(sha, a) && IsGoodTwo(sha, b) && a[36..68] == b[36..68]
    ensures var p, q := Unframe(sha, a).value, Unframe(sha, b).value;
            p == q || (a[4..36] + p.y != b[4..36] + q.y && sha(a[4..36] + p.y) == sha(b[4..36] + q.y))
  {
    hide FromBigEndian;
    var p, q := Unframe(sha, a).value, Unframe(sha, b).value;
    if a[4..36] + p.y != b[4..36] + q.y { return; }
    assert (a[4..36] + p.y)[..32] == a[4..36] && (b[4..36] + q.y)[..32] == b[4..36];
    assert (a[4..36] + p.y)[32..] == p.y && (b[4..36] + q.y)[32..] == q.y;
    GoodSlices(a);
    GoodSlices(b);
  }

  predicate IsGoodTwo(sha: Digest, buf: Buffer) {
    Unframe(sha, buf).Some? && Unframe(sha, buf).value.good && Unframe(sha, buf).value.f.ver == 2
  }

  lemma GoodSlices(b: Buffer)
    requires |b| >= 68
    ensures b[4] == b[4..36][0] && b[5] == b[4..36][1] && b[6] == b[4..36][2] && b[7] == b[4..36][3]
    ensures b[8..16] == b[4..36][4..12] && b[16..20] == b[4..36][12..16] && b[20..36] == b[4..36][16..32]
  {}

  // ----- the writers, which fill a header buffer in place -----

  method CopyInto(head: array<byte>, bytes: Buffer, at: nat)
    requires at + |bytes| <= head.Length
    modifies head
    ensures head[..] == old(head[..at]) + bytes + old(head[at + |bytes|..])
  {
    forall i | 0 <= i < |bytes| {
      head[at + i] := bytes[i];
    }
  }

  method Frame(sha: Digest, k: byte, m: byte, idx: byte, origLen: nat, y: Buffer, id: Buffer) returns (buf: Buffer)
    requires IsDigest(sha) && |id| == ID_LEN && origLen < Radix(8) && |y| < Radix(4)
    ensures buf == FrameOf(sha, Identity(2, k, m, idx, origLen, |y|), id, y)
  {
    hide BigEndian, Radix;
    ghost var f := Identity(2, k, m, idx, origLen, |y|);
    var head := new byte[HEADER_V2](i => 0);
    CopyInto(head, MAGIC, 0);
    CopyInto(head, [2, k, m, idx], 4);
    CopyInto(head, BigEndian(origLen, 8), 8);
    CopyInto(head, BigEndian(|y|, 4), 16);
    CopyInto(head, id, PRE);
    assert head[4..36] == f.Bytes() + id;
    CopyInto(head, sha(head[4..PRE + ID_LEN] + y), PRE + ID_LEN);
    buf := head[..] + y;
    assert head[..] == MAGIC + f.Bytes() + id + sha(f.Bytes() + id + y);
  }

  method FrameV1(sha: Digest, k: byte, m: byte, idx: byte, origLen: nat, y: Buffer) returns (buf: Buffer)
    requires IsDigest(sha) && origLen < Radix(8) && |y| < Radix(4)
    ensures buf == FrameOf(sha, Identity(1, k, m, idx, origLen, |y|), [], y)
  {
    hide BigEndian, Radix;
    ghost var f := Identity(1, k, m, idx, origLen, |y|);
    var head := new byte[HEADER_V1](i => 0);
    CopyInto(head, MAGIC, 0);
    CopyInto(head, [1, k, m, idx], 4);
    CopyInto(head, BigEndian(origLen, 8), 8);
    CopyInto(head, BigEndian(|y|, 4), 16);
    assert head[..20] == MAGIC + f.Bytes();
    CopyInto(head, sha(y), PRE);
    buf := head[..] + y;
    assert head[..] == MAGIC + f.Bytes() + sha(y);
  }
}
