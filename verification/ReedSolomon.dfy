/** The Reed-Solomon erasure codec of lib/ReedSolomon.js (`codec`): `encode` computes the parity shards, and
    `reconstruct` gives all shards back from any k of the k + m. */
module ReedSolomon {
  import opened Bytes
  import opened GaloisField
  import opened GaloisTables
  import opened LinearAlgebra
  import opened Elimination
  import opened Wrappers

  /** Shard s stands for the field element with the same binary digits. */
  ghost function Point(s: nat): Elem {
    if s < 256 then Of(s) else ZERO
  }

  ghost predicate EqualLengths(bufs: seq<Buffer>, len: nat) {
    forall i :: 0 <= i < |bufs| ==> |bufs[i]| == len
  }

  /** The bytes at position b of every buffer. */
  ghost function Column(bufs: seq<Buffer>, b: nat): (v: Vec)
    requires forall i :: 0 <= i < |bufs| ==> b < |bufs[i]|
    ensures |v| == |bufs|
  {
    seq(|bufs|, i requires 0 <= i < |bufs| => Of(bufs[i][b]))
  }

  /** `y` holds, at every byte position, the product of `row` with the bytes of the buffers. */
  ghost predicate Combines(row: Vec, bufs: seq<Buffer>, y: Buffer) {
    && |row| == |bufs| && EqualLengths(bufs, |y|)
    && forall b :: 0 <= b < |y| ==> Of(y[b]) == Dot(row, Column(bufs, b), |row|)
  }

  /** `y` is shard number s of the data shards. */
  ghost predicate IsShard(data: seq<Buffer>, s: nat, y: Buffer) {
    Combines(EncodeRow(Point, |data|, s), data, y)
  }

  lemma PointsAreDistinct()
    ensures DistinctPoints(Point, 256)
  {
    hide Of, Value;
    forall i: nat, j: nat | i < j < 256 ensures Point(i) != Point(j) {
      assert Value(Of(i)) == i && Value(Of(j)) == j;
    }
  }

  /** The code is systematic: shard s < k is data shard s. */
  lemma DataShardIsItself(data: seq<Buffer>, s: nat, y: Buffer)
    requires s < |data|
    ensures IsShard(data, s, y) <==> EqualLengths(data, |y|) && y == data[s]
  {
    hide Of, Value, Dot, Mul, Add;
    var k := |data|;
    assert EncodeRow(Point, k, s) == Unit(k, s);
    if EqualLengths(data, |y|) {
      forall b | 0 <= b < |y| ensures Dot(EncodeRow(Point, k, s), Column(data, b), k) == Of(data[s][b]) {
        DotUnit(k, s, Column(data, b));
      }
      if IsShard(data, s, y) {
        forall b | 0 <= b < |y| ensures y[b] == data[s][b] {
          assert Value(Of(y[b])) == y[b] && Value(Of(data[s][b])) == data[s][b];
        }
      }
    }
  }

  /** A shard is determined by its number. */
  lemma ShardUnique(data: seq<Buffer>, s: nat, y: Buffer, y': Buffer)
    requires |data| > 0 && IsShard(data, s, y) && IsShard(data, s, y')
    ensures y == y'
  {
    hide Of, Value, Dot;
    assert |y| == |data[0]| == |y'|;
    forall b | 0 <= b < |y| ensures y[b] == y'[b] {
      assert Value(Of(y[b])) == y[b] && Value(Of(y'[b])) == y'[b];
    }
  }

  // ----- any k shards determine the data -----

  ghost function Below(n: nat): (s: set<nat>)
    ensures |s| == n && forall v: nat :: v in s <==> v < n
  {
    if n == 0 then {} else Below(n - 1) + {n - 1}
  }

  ghost predicate Increasing(s: seq<nat>) {
    forall i, j :: 0 <= i < j < |s| ==> s[i] < s[j]
  }

  ghost function Members(s: seq<nat>): (m: set<nat>)
    ensures forall x :: x in m <==> x in s
  {
    set x | x in s
  }

  lemma {:induction false} MembersCount(s: seq<nat>)
    requires Increasing(s)
    ensures |Members(s)| == |s|
  {
    if s == [] {
      assert Members(s) == {};
    } else {
      var front, last := s[..|s| - 1], s[|s| - 1];
      MembersCount(front);
      assert Members(s) == Members(front) + {last};
      assert last !in front;
    }
  }

  ghost function EncodeRows(k: nat, have: seq<nat>): (a: Matrix)
    ensures Shape(a, |have|, k)
  {
    seq(|have|, i requires 0 <= i < |have| => EncodeRow(Point, k, have[i]))
  }

  /** Any k different rows of the encoding matrix send only the zero vector to zero. */
  lemma SurvivorsDetermine(k: nat, have: seq<nat>, v: Vec)
    requires |have| == k == |v| && Increasing(have) && k <= 256 && forall s :: s in have ==> s < 256
    requires Kills(EncodeRows(k, have), v)
    ensures AllZero(v)
  {
    hide Dot, Of, EncodeRow, AllZero;
    var h, low := Members(have), Below(k);
    var unknowns, rows := low - h, h - low;
    MembersCount(have);
    assert |low - h| == |low| - |low * h|;
    assert |h - low| == |h| - |low * h|;
    forall x | x in h ensures Dot(EncodeRow(Point, k, x), v, k) == ZERO {
      var i :| 0 <= i < |have| && have[i] == x;
      assert EncodeRows(k, have)[i] == EncodeRow(Point, k, x);
    }
    forall j | 0 <= j < k && j !in unknowns ensures v[j] == ZERO {
      assert j in h;
      EncodeRowUnit(k, j);
      DotUnit(k, j, v);
    }
    PointsAreDistinct();
    CauchyKernel(Point, k, v, unknowns, rows, 256);
  }

  lemma EncodeRowUnit(k: nat, s: nat)
    requires s < k
    ensures EncodeRow(Point, k, s) == Unit(k, s)
  {}

  // ----- the codec -----

  /** Add c times the bytes of d to the bytes of o: one lookup in the multiplication table per byte. */
  method AddMultiple(t: Tables, o: array<byte>, c: Elem, d: Buffer)
    requires t.Valid() && o.Length == |d|
    modifies o
    ensures forall b :: 0 <= b < |d| ==> Of(o[b]) == Add(Of(old(o[b])), Mul(c, Of(d[b])))
  {
    hide Of, Value, Mul, Add, Xor;
    if c == ZERO {
      forall b | 0 <= b < |d| ensures Of(o[b]) == Add(Of(o[b]), Mul(c, Of(d[b]))) {
        MulZero(Of(d[b]));
        MulZero(Of(o[b]));
      }
      return;
    }
    var mrow := t.mul[Value(c)];
    for b := 0 to |d|
      invariant forall i :: 0 <= i < b ==> Of(o[i]) == Add(Of(old(o[i])), Mul(c, Of(d[i])))
      invariant forall i :: b <= i < |d| ==> o[i] == old(o[i])
    {
      TableProduct(t, c, d[b]);
      o[b] := Xor(o[b], mrow[d[b]]);
    }
  }

  /** The combination of the buffers with the given coefficients: the inner loops of `encode` and `reconstruct`. */
  method Combine(t: Tables, row: Vec, bufs: seq<Buffer>, len: nat) returns (y: Buffer)
    requires t.Valid() && |row| == |bufs| && EqualLengths(bufs, len)
    ensures |y| == len && Combines(row, bufs, y)
  {
    hide Of, Value, Mul, Add, Xor, Tables.Valid;
    var o := new byte[len](i => 0);
    ZeroByte();
    for j := 0 to |row|
      invariant forall b :: 0 <= b < len ==> Of(o[b]) == Dot(row, Column(bufs, b), j)
    {
      AddMultiple(t, o, row[j], bufs[j]);
    }
    y := o[..];
  }

  lemma ZeroByte()
    ensures Of(0) == ZERO
  {
    hide Of, Value;
    Literals();
    OfIs(0, ZERO);
  }

  lemma TableProduct(t: Tables, c: Elem, x: byte)
    requires t.Valid()
    ensures MulRow(Value(c), t.mul[Value(c)]) && Of(t.mul[Value(c)][x]) == Mul(c, Of(x))
  {
    hide Of, Value, Mul;
    OfValue(c);
  }

  /** `encodeRow`: an identity row for a data shard, a Cauchy row for a parity shard. */
  method MakeRow(t: Tables, k: nat, s: nat) returns (row: Vec)
    requires t.Valid() && k <= 256 && s < 256
    ensures row == EncodeRow(Point, k, s)
  {
    hide Of, Value, Add, Xor, Inv;
    row := [];
    for j := 0 to k
      invariant |row| == j && forall i :: 0 <= i < j ==> row[i] == Entry(Point, k, s, i)
    {
      if s < k {
        row := row + [if j == s then ONE else ZERO];
      } else {
        PointsAreDistinct();
        Distinct(Point, 256, s, j);
        assert Of(Xor(s, j)) == Add(Of(s), Of(j));
        row := row + [t.GfInv(Of(Xor(s, j)))];
      }
    }
  }

  method Encode(t: Tables, k: nat, m: nat, data: seq<Buffer>, len: nat) returns (parity: seq<Buffer>)
    requires t.Valid() && 1 <= k && k + m <= 256
    requires |data| == k && EqualLengths(data, len)
    ensures |parity| == m && EqualLengths(parity, len)
    ensures forall i :: 0 <= i < m ==> IsShard(data, k + i, parity[i])
  {
    hide Tables.Valid, EncodeRow, Combines;
    parity := [];
    for i := 0 to m
      invariant |parity| == i && EqualLengths(parity, len)
      invariant forall j :: 0 <= j < i ==> IsShard(data, k + j, parity[j])
    {
      var row := MakeRow(t, k, k + i);
      var y := Combine(t, row, data, len);
      parity := parity + [y];
    }
  }

  /** A set of slots that agree with the shards of some data: what is there is the right shard. */
  ghost predicate Agrees(data: seq<Buffer>, slots: seq<Option<Buffer>>, len: nat) {
    && EqualLengths(data, len)
    && forall s :: 0 <= s < |slots| && slots[s].Some? ==> |slots[s].value| == len && IsShard(data, s, slots[s].value)
  }

  ghost predicate SlotLengths(slots: seq<Option<Buffer>>, len: nat) {
    forall s :: 0 <= s < |slots| && slots[s].Some? ==> |slots[s].value| == len
  }

  function Present(slots: seq<Option<Buffer>>): (n: nat)
    ensures n <= |slots|
  {
    if slots == [] then 0 else Present(slots[..|slots| - 1]) + (if slots[|slots| - 1].Some? then 1 else 0)
  }

  /** The slot is one of the first k that are filled. */
  predicate IsUsed(slots: seq<Option<Buffer>>, k: nat, s: nat)
    requires s < |slots|
  {
    slots[s].Some? && Present(slots[..s]) < k
  }

  /** The first k occupied slots, or all of them if there are fewer. */
  method FirstPresent(slots: seq<Option<Buffer>>, k: nat) returns (have: seq<nat>)
    ensures |have| == if Present(slots) < k then Present(slots) else k
    ensures Increasing(have) && forall s: nat :: s in have <==> s < |slots| && IsUsed(slots, k, s)
    ensures forall s :: 0 <= s < |slots| && slots[s].Some? && s !in have ==>
      |have| == k && forall h :: h in have ==> h < s
  {
    have := [];
    var s := 0;
    while s < |slots| && |have| < k
      invariant s <= |slots| && |have| <= k && Increasing(have)
      invariant forall h :: h in have ==> h < s && IsUsed(slots, k, h)
      invariant forall i :: 0 <= i < s && slots[i].Some? ==> i in have
      invariant |have| == Present(slots[..s])
    {
      assert slots[..s + 1][..s] == slots[..s];
      if slots[s].Some? {
        assert forall i :: 0 <= i < |have| ==> have[i] in have;
        have := have + [s];
      }
      s := s + 1;
    }
    assert slots[..|slots|] == slots;
    PresentGrows(slots, s);
    forall i | s <= i < |slots| ensures Present(slots[..i]) >= |have| {
      assert slots[..i][..s] == slots[..s];
      PresentGrows(slots[..i], s);
    }
  }

  lemma {:induction false} PresentGrows(slots: seq<Option<Buffer>>, i: nat)
    requires i <= |slots|
    ensures Present(slots[..i]) <= Present(slots)
    decreases |slots|
  {
    if i < |slots| {
      var front := slots[..|slots| - 1];
      assert front[..i] == slots[..i];
      PresentGrows(front, i);
    } else {
      assert slots[..i] == slots;
    }
  }

  lemma {:induction false} IncreasingBound(have: seq<nat>, i: nat)
    requires Increasing(have) && i < |have|
    ensures have[i] >= i
  {
    if i == 0 {
    } else {
      IncreasingBound(have, i - 1);
    }
  }

  /** The surviving bytes at one position are the image of the data bytes, so the inverse gives them back. */
  lemma InverseSolves(data: seq<Buffer>, have: seq<nat>, survivors: seq<Buffer>, inv: Matrix, s: nat, y: Buffer)
    requires |data| == |have| == |survivors| && s < |data|
    requires Shape(inv, |data|, |data|) && LeftInverse(inv, EncodeRows(|data|, have), |data|)
    requires forall i :: 0 <= i < |have| ==> IsShard(data, have[i], survivors[i])
    requires EqualLengths(data, |y|) && Combines(inv[s], survivors, y)
    ensures y == data[s]
  {
    hide Of, Value, Dot, LeftInverse, EncodeRow;
    var k := |data|;
    forall b | 0 <= b < |y| ensures y[b] == data[s][b] {
      var d := Column(data, b);
      assert Column(survivors, b) == Apply(EncodeRows(k, have), d) by {
        forall i | 0 <= i < k ensures Of(survivors[i][b]) == Dot(EncodeRow(Point, k, have[i]), d, k) {
          assert IsShard(data, have[i], survivors[i]);
        }
      }
      AtRow(inv, EncodeRows(k, have), d, s);
      assert Value(Of(y[b])) == y[b] && Value(Of(data[s][b])) == data[s][b];
    }
  }

  lemma AtRow(inv: Matrix, a: Matrix, d: Vec, r: nat)
    requires Shape(inv, |d|, |d|) && Shape(a, |d|, |d|) && LeftInverse(inv, a, |d|) && r < |d|
    ensures Dot(inv[r], Apply(a, d), |d|) == d[r]
  {}

  /** Two of the shards that are used differ in length. */
  predicate Uneven(slots: seq<Option<Buffer>>, k: nat) {
    exists s, u :: 0 <= s < |slots| && 0 <= u < |slots| && IsUsed(slots, k, s) && IsUsed(slots, k, u)
      && |slots[s].value| != |slots[u].value|
  }

  datatype Failure = TooMuchLoss | UnequalLengths

  /** What `reconstruct` promises of its result, when the slots agree with the shards of some data. */
  ghost predicate Recovered(data: seq<Buffer>, slots: seq<Option<Buffer>>, dataOnly: bool,
                            r: Result<seq<Option<Buffer>>, Failure>)
  {
    && r.Ok? && |r.value| == |slots|
    && (forall s :: 0 <= s < |slots| && slots[s].Some? ==> r.value[s] == slots[s])
    && (forall s :: 0 <= s < |slots| && s < |data| ==> r.value[s] == Some(data[s]))
    && (!dataOnly ==> forall s :: |data| <= s < |slots| ==> r.value[s].Some? && IsShard(data, s, r.value[s].value))
  }

  /** `reconstruct`, on slots that are the surviving (Some) and lost (None) shards; `data` and `len` are whatever
      data the survivors may be shards of. With `dataOnly` lost parity is not rebuilt. */
  method Reconstruct(t: Tables, k: nat, m: nat, slots: seq<Option<Buffer>>, dataOnly: bool, ghost data: seq<Buffer>,
                     ghost len: nat)
    returns (r: Result<seq<Option<Buffer>>, Failure>)
    requires t.Valid() && 1 <= k && k + m <= 256 && |slots| == k + m
    ensures r == Err(TooMuchLoss) <==> Present(slots) < k
    ensures r == Err(UnequalLengths) <==> Present(slots) >= k && Uneven(slots, k)
    ensures Present(slots) >= k && SlotLengths(slots, len) ==> (
      r.Ok? && |r.value| == k + m && forall s :: 0 <= s < k ==> r.value[s].Some? && |r.value[s].value| == len)
    ensures Present(slots) >= k && |data| == k && Agrees(data, slots, len) ==> Recovered(data, slots, dataOnly, r)
    ensures r.Ok? && dataOnly ==> |r.value| == k + m && forall s :: k <= s < k + m ==> r.value[s] == slots[s]
  {
    hide Tables.Valid, Combines, Present, EncodeRow, LeftInverse;
    var have := FirstPresent(slots, k);
    if |have| < k { return Err(TooMuchLoss); }
    assert have[0] in have;
    var len0 := |slots[have[0]].value|;
    var survivors: seq<Buffer> := [];
    for i := 0 to k
      invariant |survivors| == i
      invariant forall j :: 0 <= j < i ==>
        have[j] in have && survivors[j] == slots[have[j]].value && |survivors[j]| == len0
    {
      assert have[i] in have;
      if |slots[have[i]].value| != len0 {
        assert IsUsed(slots, k, have[i]) && IsUsed(slots, k, have[0]);
        return Err(UnequalLengths);
      }
      survivors := survivors + [slots[have[i]].value];
    }
    var full := RecoverData(t, k, m, slots, have, survivors, len0, data);
    if |data| == k && Agrees(data, slots, len) { assert DataSlots(full, k) == data; }
    if !dataOnly {
      full := RecoverParity(t, k, m, full, len0);
    }
    r := Ok(full);
  }

  method RecoverData(t: Tables, k: nat, m: nat, slots: seq<Option<Buffer>>, have: seq<nat>, survivors: seq<Buffer>,
                     len: nat, ghost data: seq<Buffer>)
    returns (full: seq<Option<Buffer>>)
    requires t.Valid() && 1 <= k && k + m <= 256 && |slots| == k + m
    requires |have| == |survivors| == k && Increasing(have) && EqualLengths(survivors, len)
    requires forall s :: s in have ==> s < k + m && slots[s].Some?
    requires forall i :: 0 <= i < k ==> have[i] in have && slots[have[i]] == Some(survivors[i])
    requires forall s :: 0 <= s < |slots| && slots[s].Some? && s !in have ==> forall h :: h in have ==> h < s
    ensures |full| == k + m && forall s :: k <= s < k + m ==> full[s] == slots[s]
    ensures forall s :: 0 <= s < k ==> full[s].Some? && |full[s].value| == len
    ensures forall s :: 0 <= s < k && slots[s].Some? ==> full[s] == slots[s]
    ensures |data| == k && Agrees(data, slots, len) ==> forall s :: 0 <= s < k ==> full[s] == Some(data[s])
  {
    hide Tables.Valid, Combines, EncodeRow, LeftInverse, Kills, AllZero, Dot;
    var rows: Matrix := [];
    for i := 0 to k
      invariant |rows| == i && forall j :: 0 <= j < i ==> rows[j] == EncodeRow(Point, k, have[j])
    {
      assert have[i] in have;
      var row := MakeRow(t, k, have[i]);
      rows := rows + [row];
    }
    assert rows == EncodeRows(k, have);
    var inv := MatInvert(t, rows);
    if inv.None? {
      ghost var v: Vec :| |v| == k && !AllZero(v) && Kills(rows, v);
      SurvivorsDetermine(k, have, v);
      assert false;
    }
    full := slots;
    for s := 0 to k
      invariant |full| == k + m && forall i :: s <= i < k + m ==> full[i] == slots[i]
      invariant forall i :: 0 <= i < s ==> full[i].Some? && |full[i].value| == len
      invariant forall i :: 0 <= i < s && slots[i].Some? ==> full[i] == slots[i]
      invariant |data| == k && Agrees(data, slots, len) ==> forall i :: 0 <= i < s ==> full[i] == Some(data[i])
    {
      if slots[s].None? {
        var y := Combine(t, inv.value[s], survivors, len);
        if |data| == k && Agrees(data, slots, len) {
          forall i | 0 <= i < k ensures IsShard(data, have[i], survivors[i]) { assert have[i] in have; }
          InverseSolves(data, have, survivors, inv.value, s, y);
        }
        full := full[s := Some(y)];
      } else {
        PresentDataIsUsed(slots, have, s);
        if |data| == k && Agrees(data, slots, len) { DataShardIsItself(data, s, slots[s].value); }
      }
    }
  }

  /** Surviving data shards come first, so they are among the k that are used. */
  lemma PresentDataIsUsed(slots: seq<Option<Buffer>>, have: seq<nat>, s: nat)
    requires Increasing(have) && s < |have| <= |slots| && slots[s].Some?
    requires s !in have ==> forall h :: h in have ==> h < s
    ensures exists i :: 0 <= i < |have| && have[i] == s
  {
    assert have[|have| - 1] in have;
    IncreasingBound(have, |have| - 1);
  }

  function DataSlots(slots: seq<Option<Buffer>>, k: nat): (data: seq<Buffer>)
    requires k <= |slots| && forall s :: 0 <= s < k ==> slots[s].Some?
    ensures |data| == k
  {
    seq(k, s requires 0 <= s < k => slots[s].value)
  }

  method RecoverParity(t: Tables, k: nat, m: nat, slots: seq<Option<Buffer>>, len: nat)
    returns (full: seq<Option<Buffer>>)
    requires t.Valid() && 1 <= k && k + m <= 256 && |slots| == k + m
    requires forall s :: 0 <= s < k ==> slots[s].Some? && |slots[s].value| == len
    ensures |full| == k + m && forall s :: 0 <= s < k ==> full[s] == slots[s]
    ensures forall s :: k <= s < k + m ==> full[s].Some?
    ensures forall s :: k <= s < k + m && slots[s].Some? ==> full[s] == slots[s]
    ensures forall s :: k <= s < k + m && slots[s].None? ==> IsShard(DataSlots(slots, k), s, full[s].value)
  {
    hide Tables.Valid, Combines, EncodeRow;
    var data := DataSlots(slots, k);
    full := slots;
    for s := k to k + m
      invariant |full| == k + m && forall i :: 0 <= i < k || s <= i < k + m ==> full[i] == slots[i]
      invariant forall i :: k <= i < s ==>
        full[i].Some? && (if slots[i].Some? then full[i] == slots[i] else IsShard(data, i, full[i].value))
    {
      if slots[s].None? {
        var row := MakeRow(t, k, s);
        var y := Combine(t, row, data, len);
        full := full[s := Some(y)];
      }
    }
  }

  // ----- counting occupied slots -----

  lemma {:induction false} PresentIs(slots: seq<Option<Buffer>>, indices: set<int>)
    requires forall s :: s in indices <==> 0 <= s < |slots| && slots[s].Some?
    ensures Present(slots) == |indices|
  {
    if slots == [] {
      assert forall s :: s !in indices;
    } else {
      var n := |slots| - 1;
      PresentIs(slots[..n], indices - {n});
    }
  }

  lemma {:induction false} AllPresent(slots: seq<Option<Buffer>>)
    requires Present(slots) == |slots|
    ensures forall s :: 0 <= s < |slots| ==> slots[s].Some?
  {
    if slots == [] {
    } else {
      AllPresent(slots[..|slots| - 1]);
    }
  }
}
