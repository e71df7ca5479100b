/** Vectors and matrices over GF(2^8), and why any k rows of the encoding matrix [ I ; Cauchy ] have a
    trivial kernel (lib/ReedSolomon.js, `cauchy` and `encodeRow`). */
module LinearAlgebra {
  import opened Bytes
  import opened GaloisField

  type Vec = seq<Elem>
  type Matrix = seq<Vec>

  /** The sum of the first n products. */
  ghost function Dot(u: Vec, v: Vec, n: nat): Elem
    requires n <= |u| && n <= |v|
  {
    if n == 0 then ZERO else Add(Dot(u, v, n - 1), Mul(u[n - 1], v[n - 1]))
  }

  ghost predicate AllZero(v: Vec) {
    forall j :: 0 <= j < |v| ==> v[j] == ZERO
  }

  lemma {:induction false} DotScaled(u: Vec, w: Vec, c: Elem, v: Vec, n: nat)
    requires n <= |u| && n <= |v| && |w| == |u|
    requires forall j :: 0 <= j < n ==> w[j] == Mul(u[j], c)
    ensures Dot(w, v, n) == Mul(c, Dot(u, v, n))
  {
    hide Add, Mul;
    if n == 0 {
      MulZero(c);
    } else {
      DotScaled(u, w, c, v, n - 1);
      MulComm(u[n - 1], c);
      MulAssoc(c, u[n - 1], v[n - 1]);
      MulAdd(c, Dot(u, v, n - 1), Mul(u[n - 1], v[n - 1]));
    }
  }

  lemma {:induction false} DotAddScaled(u: Vec, p: Vec, w: Vec, f: Elem, v: Vec, n: nat)
    requires n <= |u| == |p| == |w| && n <= |v|
    requires forall j :: 0 <= j < n ==> w[j] == Add(u[j], Mul(f, p[j]))
    ensures Dot(w, v, n) == Add(Dot(u, v, n), Mul(f, Dot(p, v, n)))
  {
    hide Add, Mul;
    if n == 0 {
      MulZero(f);
      MulZero(ZERO);
    } else {
      DotAddScaled(u, p, w, f, v, n - 1);
      var a, b, x := u[n - 1], p[n - 1], v[n - 1];
      MulAdd(x, a, Mul(f, b));
      MulAssoc(f, b, x);
      MulAdd(f, Dot(p, v, n - 1), Mul(b, x));
      AddSwap(Dot(u, v, n - 1), Mul(f, Dot(p, v, n - 1)), Mul(a, x), Mul(f, Mul(b, x)));
    }
  }

  /** A product with a vector that is zero everywhere but at position i. */
  lemma {:induction false} DotSingle(u: Vec, v: Vec, i: nat, n: nat)
    requires i < n <= |u| && n <= |v|
    requires forall j :: 0 <= j < n && j != i ==> v[j] == ZERO || u[j] == ZERO
    ensures Dot(u, v, n) == Mul(u[i], v[i])
  {
    hide Add, Mul;
    MulZero(u[n - 1]);
    MulZero(v[n - 1]);
    MulZero(Mul(u[i], v[i]));
    if i == n - 1 {
      DotZero(u, v, n - 1);
    } else {
      DotSingle(u, v, i, n - 1);
    }
  }

  lemma {:induction false} DotZero(u: Vec, v: Vec, n: nat)
    requires n <= |u| && n <= |v|
    requires forall j :: 0 <= j < n ==> v[j] == ZERO || u[j] == ZERO
    ensures Dot(u, v, n) == ZERO
  {
    hide Add, Mul;
    if n == 0 {
    } else {
      DotZero(u, v, n - 1);
      MulZero(u[n - 1]);
      MulZero(v[n - 1]);
      MulZero(ZERO);
    }
  }

  // ----- the encoding matrix -----

  /** The field element each shard number stands for. */
  type Points = nat -> Elem

  ghost predicate DistinctPoints(pt: Points, n: nat) {
    forall i: nat, j: nat :: i < j < n ==> pt(i) != pt(j)
  }

  /** Row s of the encoding matrix: the identity for a data shard, 1 / (s + j) for a parity shard. */
  ghost function EncodeRow(pt: Points, k: nat, s: nat): (row: Vec)
    ensures |row| == k
  {
    seq(k, j requires 0 <= j < k => Entry(pt, k, s, j))
  }

  ghost function Entry(pt: Points, k: nat, s: nat, j: nat): Elem {
    if s < k then (if j == s then ONE else ZERO) else Inv(Add(pt(s), pt(j)))
  }

  lemma Distinct(pt: Points, n: nat, i: nat, j: nat)
    requires DistinctPoints(pt, n) && i < n && j < n
    ensures Add(pt(i), pt(j)) == ZERO <==> i == j
  {
    AddCancel(pt(i), pt(j), ZERO);
    hide Add;
    if i < j { assert pt(i) != pt(j); }
    if j < i { assert pt(j) != pt(i); }
  }

  /** (x+c) / (x+y) = 1 + (y+c) / (x+y) */
  lemma SplitFraction(x: Elem, y: Elem, c: Elem, p: Elem)
    requires Mul(Add(x, y), p) == ONE
    ensures Mul(Add(x, c), p) == Add(ONE, Mul(Add(y, c), p))
  {
    hide Add, Mul;
    AddCancel(x, y, c);
    MulAdd(p, Add(x, y), Add(y, c));
  }

  /** 1/(x+y) + 1/(z+y) = (x+z) / ((x+y)(z+y)) */
  lemma SumOfInverses(x: Elem, y: Elem, z: Elem, p: Elem, q: Elem)
    requires Mul(Add(x, y), p) == ONE && Mul(Add(z, y), q) == ONE
    ensures Add(p, q) == Mul(Mul(p, q), Add(x, z))
  {
    hide Add, Mul;
    AddCancel(x, y, z);
    AddComm(y, z);
    MulAdd(Mul(p, q), Add(x, y), Add(z, y));
    assert Mul(Mul(p, q), Add(x, y)) == q by {
      MulComm(p, q);
      MulAssoc(q, p, Add(x, y));
      MulComm(p, Add(x, y));
      MulOne(q);
    }
    assert Mul(Mul(p, q), Add(z, y)) == p by {
      MulAssoc(p, q, Add(z, y));
      MulComm(q, Add(z, y));
      MulOne(p);
    }
    AddComm(p, q);
  }

  /** (x+c) / (x+y) + (z+c) / (z+y) = (y+c) (x+z) / ((x+y)(z+y)) */
  lemma SumOfFractions(x: Elem, y: Elem, z: Elem, c: Elem, p: Elem, q: Elem)
    requires Mul(Add(x, y), p) == ONE && Mul(Add(z, y), q) == ONE
    ensures Add(Mul(Add(x, c), p), Mul(Add(z, c), q)) == Mul(Add(y, c), Mul(Mul(p, q), Add(x, z)))
  {
    hide Add, Mul;
    SplitFraction(x, y, c, p);
    SplitFraction(z, y, c, q);
    SumOfInverses(x, y, z, p, q);
    var d := Add(y, c);
    AddSwap(ONE, Mul(d, p), ONE, Mul(d, q));
    MulZero(ONE);
    MulAdd(d, p, q);
    MulZero(Mul(d, Add(p, q)));
  }

  /** One term of the elimination: with p = 1/(x+y) and q = 1/(z+y),
      (x+c) p v + (z+c) q v = (x+z) p (v (y+c) q). */
  lemma EliminateTerm(x: Elem, y: Elem, z: Elem, c: Elem, p: Elem, q: Elem, v: Elem)
    requires Mul(Add(x, y), p) == ONE && Mul(Add(z, y), q) == ONE
    ensures Add(Mul(Add(x, c), Mul(p, v)), Mul(Add(z, c), Mul(q, v)))
         == Mul(Add(x, z), Mul(p, Mul(Mul(v, Add(y, c)), q)))
  {
    hide Add, Mul;
    SumOfFractions(x, y, z, c, p, q);
    MulAssoc(Add(x, c), p, v);
    MulAssoc(Add(z, c), q, v);
    MulAdd(v, Mul(Add(x, c), p), Mul(Add(z, c), q));
    Rearrange(v, Add(y, c), p, q, Add(x, z));
  }

  lemma Rearrange(v: Elem, d: Elem, p: Elem, q: Elem, s: Elem)
    ensures Mul(Mul(d, Mul(Mul(p, q), s)), v) == Mul(s, Mul(p, Mul(Mul(v, d), q)))
  {
    hide Mul;
    calc {
      Mul(Mul(d, Mul(Mul(p, q), s)), v);
      { MulComm(Mul(p, q), s); MulAssoc(d, s, Mul(p, q)); MulComm(d, s); MulAssoc(s, d, Mul(p, q)); }
      Mul(Mul(s, Mul(d, Mul(p, q))), v);
      { MulAssoc(s, Mul(d, Mul(p, q)), v); }
      Mul(s, Mul(Mul(d, Mul(p, q)), v));
      { MulComm(d, Mul(p, q)); MulAssoc(Mul(p, q), d, v); MulComm(d, v); }
      Mul(s, Mul(Mul(p, q), Mul(v, d)));
      { MulAssoc(p, q, Mul(v, d)); MulComm(q, Mul(v, d)); }
      Mul(s, Mul(p, Mul(Mul(v, d), q)));
    }
  }

  /** The vector that is left when the unknown at c is eliminated with the equation of row z. */
  ghost function Eliminated(pt: Points, k: nat, v: Vec, z: nat, c: nat): (w: Vec)
    requires |v| == k
    ensures |w| == k
  {
    seq(k, j requires 0 <= j < k => Mul(Mul(v[j], Add(pt(j), pt(c))), Entry(pt, k, z, j)))
  }

  lemma EntryInverse(pt: Points, k: nat, x: nat, j: nat, n: nat)
    requires DistinctPoints(pt, n) && j < k <= x < n
    ensures Mul(Add(pt(x), pt(j)), Entry(pt, k, x, j)) == ONE && Entry(pt, k, x, j) != ZERO
  {
    hide Add, Mul, Inv;
    Distinct(pt, n, x, j);
    MulInv(Add(pt(x), pt(j)));
  }

  /** The equation of row x for the eliminated vector is a combination of rows x and z for the original. */
  lemma {:induction false} EliminateRow(pt: Points, k: nat, v: Vec, x: nat, z: nat, c: nat, m: nat, n: nat)
    requires DistinctPoints(pt, n) && |v| == k && k <= x < n && k <= z < n && c < k && m <= k
    ensures Mul(Add(pt(x), pt(z)), Dot(EncodeRow(pt, k, x), Eliminated(pt, k, v, z, c), m))
         == Add(Mul(Add(pt(x), pt(c)), Dot(EncodeRow(pt, k, x), v, m)),
                Mul(Add(pt(z), pt(c)), Dot(EncodeRow(pt, k, z), v, m)))
    decreases m
  {
    hide Add, Mul, Inv;
    var s, fx, fz := Add(pt(x), pt(z)), Add(pt(x), pt(c)), Add(pt(z), pt(c));
    var rx, rz, w := EncodeRow(pt, k, x), EncodeRow(pt, k, z), Eliminated(pt, k, v, z, c);
    if m == 0 {
      MulZero(s);
      MulZero(fx);
      MulZero(fz);
      MulZero(ZERO);
    } else {
      EliminateRow(pt, k, v, x, z, c, m - 1, n);
      var j := m - 1;
      EntryInverse(pt, k, x, j, n);
      EntryInverse(pt, k, z, j, n);
      EliminateTerm(pt(x), pt(j), pt(z), pt(c), rx[j], rz[j], v[j]);
      MulAdd(s, Dot(rx, w, j), Mul(rx[j], w[j]));
      MulAdd(fx, Dot(rx, v, j), Mul(rx[j], v[j]));
      MulAdd(fz, Dot(rz, v, j), Mul(rz[j], v[j]));
      AddSwap(Mul(fx, Dot(rx, v, j)), Mul(fz, Dot(rz, v, j)), Mul(fx, Mul(rx[j], v[j])), Mul(fz, Mul(rz[j], v[j])));
    }
  }

  /** As many Cauchy equations as unknowns leave only the zero solution. */
  lemma {:induction false} CauchyKernel(pt: Points, k: nat, v: Vec, unknowns: set<nat>, rows: set<nat>, n: nat)
    requires DistinctPoints(pt, n) && |v| == k && |unknowns| <= |rows|
    requires forall j :: j in unknowns ==> j < k
    requires forall j :: 0 <= j < k && j !in unknowns ==> v[j] == ZERO
    requires forall x :: x in rows ==> k <= x < n && Dot(EncodeRow(pt, k, x), v, k) == ZERO
    ensures AllZero(v)
    decreases |unknowns|
  {
    hide Add, Mul, Inv;
    if unknowns == {} {
    } else {
      var c :| c in unknowns;
      var z :| z in rows;
      var w := Eliminated(pt, k, v, z, c);
      forall x | x in rows - {z} ensures Dot(EncodeRow(pt, k, x), w, k) == ZERO {
        EliminateRow(pt, k, v, x, z, c, k, n);
        MulZero(Add(pt(x), pt(c)));
        MulZero(Add(pt(z), pt(c)));
        MulZero(ZERO);
        Distinct(pt, n, x, z);
        MulNonZero(Add(pt(x), pt(z)), Dot(EncodeRow(pt, k, x), w, k));
      }
      forall j | 0 <= j < k ensures j != c && w[j] == ZERO ==> v[j] == ZERO
                            ensures j == c || v[j] == ZERO ==> w[j] == ZERO
      {
        EliminatedZero(pt, k, v, z, c, j, n);
      }
      CauchyKernel(pt, k, w, unknowns - {c}, rows - {z}, n);
      DotSingle(EncodeRow(pt, k, z), v, c, k);
      EntryInverse(pt, k, z, c, n);
      MulNonZero(Entry(pt, k, z, c), v[c]);
    }
  }

  lemma EliminatedZero(pt: Points, k: nat, v: Vec, z: nat, c: nat, j: nat, n: nat)
    requires DistinctPoints(pt, n) && |v| == k <= z < n && c < k && j < k
    ensures Eliminated(pt, k, v, z, c)[j] == ZERO <==> j == c || v[j] == ZERO
  {
    hide Add, Mul, Inv;
    Distinct(pt, n, j, c);
    EntryInverse(pt, k, z, j, n);
    MulNonZero(Mul(v[j], Add(pt(j), pt(c))), Entry(pt, k, z, j));
    MulNonZero(v[j], Add(pt(j), pt(c)));
  }
}
