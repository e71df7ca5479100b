/** The log, antilog and multiplication tables of lib/ReedSolomon.js, built the way it builds them. */
module GaloisTables {
  import opened Bytes
  import opened GaloisField

  datatype Tables = Tables(exp: seq<byte>, log: seq<byte>, mul: seq<seq<byte>>) {
    /** The tables compute powers, logarithms and products of the field. */
    ghost predicate Valid() {
      && LogTables(exp, log)
      && |mul| == 256
      && forall c: byte :: MulRow(c, mul[c])
    }

    function GfMul(a: Elem, b: Elem): (r: Elem)
      requires Valid()
      ensures r == Mul(a, b)
    {
      hide Exp, Value, Of;
      if a == ZERO || b == ZERO then ZERO
      else
        var i: nat, j: nat := log[Value(a)], log[Value(b)];
        OfValue(Exp(i + j));
        Of(exp[i + j])
    }

    function GfInv(a: Elem): (r: Elem)
      requires Valid() && a != ZERO
      ensures r == Inv(a)
    {
      hide Exp, Value, Of;
      var i: nat := log[Value(a)];
      OfValue(Exp(255 - i));
      Of(exp[255 - i])
    }
  }

  ghost predicate LogTables(exp: seq<byte>, log: seq<byte>) {
    && |exp| == 512 && |log| == 256
    && (forall i :: 0 <= i < 512 ==> exp[i] == Value(Exp(i)))
    && (forall a: Elem :: a != ZERO ==> log[Value(a)] == Log(a))
  }

  ghost predicate MulRow(c: byte, row: seq<byte>) {
    |row| == 256 && forall x: byte :: Of(row[x]) == Mul(Of(c), Of(x))
  }

  // ----- building the tables -----

  function Shifted(a: Elem): Elem {
    E(a.b6, a.b5, a.b4, a.b3, a.b2, a.b1, a.b0, false)
  }

  const POLY_LOW := E(false, false, false, true, true, true, false, true)

  /** Doubling a byte, with reduction on overflow, is multiplication by x. */
  lemma DoubleIsXtime(x: byte)
    ensures Of(if x < 128 then 2 * x else Xor(2 * x - 256, 0x1d)) == Xtime(Of(x))
  {
    hide Value, Of;
    var a := Of(x);
    ShiftValue(a);
    TopBit(a);
    if x < 128 {
      ValueInjective(Of(2 * x), Shifted(a));
      assert !a.b7;
    } else {
      ValueInjective(Of(2 * x - 256), Shifted(a));
      Literals();
      OfIs(0x1d, POLY_LOW);
      assert a.b7;
    }
  }

  lemma Literals()
    ensures Value(POLY_LOW) == 0x1d && Value(ZERO) == 0 && Value(ONE) == 1
  {}

  lemma OfIs(v: byte, a: Elem)
    requires Value(a) == v
    ensures Of(v) == a
  {
    hide Value, Of;
    ValueInjective(Of(v), a);
  }

  lemma ValueSum(a: Elem)
    ensures Value(a) == 128 * Digit(a.b7) + 64 * Digit(a.b6) + 32 * Digit(a.b5) + 16 * Digit(a.b4)
                      + 8 * Digit(a.b3) + 4 * Digit(a.b2) + 2 * Digit(a.b1) + Digit(a.b0)
  {
    hide Digit;
  }

  lemma ShiftValue(a: Elem)
    ensures Value(Shifted(a)) == 2 * Value(a) - 256 * Digit(a.b7)
  {
    ValueSum(a);
    ValueSum(Shifted(a));
    assert Digit(false) == 0;
    hide Digit, Value;
  }

  lemma TopBit(a: Elem)
    ensures a.b7 <==> Value(a) >= 128
  {
    ValueSum(a);
    assert Digit(a.b7) == if a.b7 then 1 else 0;
    hide Digit, Value;
  }

  method BuildLogs() returns (exp: seq<byte>, log: seq<byte>)
    ensures LogTables(exp, log)
  {
    hide Value, Of, Xtime, Exp;
    var EXP, LOG := new byte[512](i => 0), new byte[256](i => 0);
    var x: byte := 1;
    FirstPower();
    for i := 0 to 255
      invariant x == Value(Exp(i))
      invariant forall j :: 0 <= j < i ==> EXP[j] == Value(Exp(j)) && LOG[Value(Exp(j))] == j
    {
      EXP[i] := x;
      LOG[x] := i;
      forall j | 0 <= j < i ensures Value(Exp(j)) != x {
        ExpInjective(j, i);
        if Value(Exp(j)) == x { ValueInjective(Exp(j), Exp(i)); }
      }
      NextPower(i, x);
      x := if x < 128 then 2 * x else Xor(2 * x - 256, 0x1d);
    }
    for i := 255 to 512
      invariant forall j :: 0 <= j < i ==> EXP[j] == Value(Exp(j))
      invariant forall j :: 0 <= j < 255 ==> LOG[Value(Exp(j))] == j
    {
      ExpPeriod(i - 255);
      EXP[i] := EXP[i - 255];
    }
    exp, log := EXP[..], LOG[..];
  }

  lemma FirstPower()
    ensures Value(Exp(0)) == 1
  {
    hide Of, Value;
    FirstPowers();
    Literals();
  }

  lemma NextPower(i: nat, x: byte)
    requires x == Value(Exp(i))
    ensures (if x < 128 then 2 * x else Xor(2 * x - 256, 0x1d)) == Value(Exp(i + 1))
  {
    hide Value, Of, Xtime;
    DoubleIsXtime(x);
    OfValue(Exp(i));
    assert Exp(i + 1) == Xtime(Exp(i));
  }

  method BuildTables() returns (t: Tables)
    ensures t.Valid()
  {
    hide Value, Of, Exp, Log, Mul;
    var exp, log := BuildLogs();
    var mul: seq<seq<byte>> := [];
    for c := 0 to 256
      invariant |mul| == c && forall i: byte :: i < c ==> MulRow(i, mul[i])
    {
      var row := BuildRow(exp, log, c);
      mul := mul + [row];
    }
    t := Tables(exp, log, mul);
  }

  method BuildRow(exp: seq<byte>, log: seq<byte>, c: byte) returns (row: seq<byte>)
    requires LogTables(exp, log)
    ensures MulRow(c, row)
  {
    hide Value, Of, Exp, Log, Mul;
    var r := new byte[256](i => 0);
    ZeroProducts(c);
    if c != 0 {
      var lc: nat := log[c];
      for x := 1 to 256
        invariant Of(r[0]) == Mul(Of(c), Of(0))
        invariant forall y: byte :: 0 < y < x ==> Of(r[y]) == Mul(Of(c), Of(y))
      {
        RowEntry(exp, log, c, x);
        var lx: nat := log[x];
        r[x] := exp[lc + lx];
      }
    }
    row := r[..];
  }

  lemma ZeroProducts(c: byte)
    ensures Of(0) == ZERO && Mul(Of(c), ZERO) == ZERO && forall x :: Mul(ZERO, x) == ZERO
    ensures Of(c) == ZERO <==> c == 0
  {
    hide Value, Of;
    Literals();
    OfIs(0, ZERO);
    MulZero(Of(c));
  }

  lemma RowEntry(exp: seq<byte>, log: seq<byte>, c: byte, x: byte)
    requires LogTables(exp, log) && c != 0 && x != 0
    ensures log[c] as int + log[x] as int < 512 && Of(exp[log[c] as int + log[x] as int]) == Mul(Of(c), Of(x))
  {
    ZeroProducts(c);
    ZeroProducts(x);
    hide Value, Of, Exp;
    OfValue(Exp(Log(Of(c)) + Log(Of(x))));
  }
}
