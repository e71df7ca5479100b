/** GF(2^8) with the primitive polynomial 0x11d, as lib/ReedSolomon.js uses it. Addition is exclusive or
    and multiplication goes through logarithms to the base x. The field laws are proved, with multiplication by
    x itself being the shift-and-reduce step, which together determine the product. */
module GaloisField {
  import opened Bytes
  import Sets

  /** A polynomial over GF(2) of degree below 8: the eight bits of a byte. */
  datatype Elem = E(b7: bool, b6: bool, b5: bool, b4: bool, b3: bool, b2: bool, b1: bool, b0: bool)

  const ZERO := E(false, false, false, false, false, false, false, false)
  const ONE := E(false, false, false, false, false, false, false, true)
  const TWO := E(false, false, false, false, false, false, true, false)

  /** Addition, which is exclusive or. */
  function Add(a: Elem, b: Elem): Elem {
    E(a.b7 != b.b7, a.b6 != b.b6, a.b5 != b.b5, a.b4 != b.b4, a.b3 != b.b3, a.b2 != b.b2, a.b1 != b.b1, a.b0 != b.b0)
  }

  /** Multiplication by x: shift left and, when bit 8 appears, subtract 0x11d. */
  function Xtime(a: Elem): Elem {
    E(a.b6, a.b5, a.b4, a.b3 != a.b7, a.b2 != a.b7, a.b1 != a.b7, a.b0, a.b7)
  }

  lemma AddSwap(a: Elem, b: Elem, c: Elem, d: Elem)
    ensures Add(Add(a, b), Add(c, d)) == Add(Add(a, c), Add(b, d))
  {}

  lemma AddComm(a: Elem, b: Elem)
    ensures Add(a, b) == Add(b, a)
  {}

  /** Subtraction is addition, so a sum telescopes. */
  lemma AddCancel(a: Elem, b: Elem, c: Elem)
    ensures Add(Add(a, b), Add(b, c)) == Add(a, c)
    ensures Add(a, b) == ZERO <==> a == b
  {}

  lemma XtimeAdd(a: Elem, b: Elem)
    ensures Xtime(Add(a, b)) == Add(Xtime(a), Xtime(b))
  {}

  lemma XtimeInjective(a: Elem, b: Elem)
    requires Xtime(a) == Xtime(b)
    ensures a == b
  {}

  // ----- elements as bytes -----

  function Digit(b: bool): (d: nat)
    ensures d <= 1
  {
    if b then 1 else 0
  }

  /** The byte whose binary digits are the bits of `a`. */
  function Value(a: Elem): byte {
    16 * Nibble(a.b7, a.b6, a.b5, a.b4) + Nibble(a.b3, a.b2, a.b1, a.b0)
  }

  function Nibble(b3: bool, b2: bool, b1: bool, b0: bool): (v: nat)
    ensures v < 16
  {
    8 * Digit(b3) + 4 * Digit(b2) + 2 * Digit(b1) + Digit(b0)
  }

  /** The binary digits of a byte. */
  function Of(v: byte): (a: Elem)
    ensures Value(a) == v
  {
    var (b7, b6, b5, b4) := NibbleOf(v / 16);
    var (b3, b2, b1, b0) := NibbleOf(v % 16);
    E(b7, b6, b5, b4, b3, b2, b1, b0)
  }

  function NibbleOf(v: nat): (q: (bool, bool, bool, bool))
    requires v < 16
    ensures Nibble(q.0, q.1, q.2, q.3) == v
  {
    var r3 := if v >= 8 then v - 8 else v;
    var r2 := if r3 >= 4 then r3 - 4 else r3;
    var r1 := if r2 >= 2 then r2 - 2 else r2;
    (v >= 8, r3 >= 4, r2 >= 2, r1 >= 1)
  }

  lemma ValueInjective(a: Elem, b: Elem)
    requires Value(a) == Value(b)
    ensures a == b
  {
    hide Nibble;
    NibbleInjective(a.b7, a.b6, a.b5, a.b4, b.b7, b.b6, b.b5, b.b4);
    NibbleInjective(a.b3, a.b2, a.b1, a.b0, b.b3, b.b2, b.b1, b.b0);
  }

  lemma NibbleInjective(p3: bool, p2: bool, p1: bool, p0: bool, q3: bool, q2: bool, q1: bool, q0: bool)
    ensures Nibble(p3, p2, p1, p0) == Nibble(q3, q2, q1, q0) ==> p3 == q3 && p2 == q2 && p1 == q1 && p0 == q0
  {}

  lemma OfValue(a: Elem)
    ensures Of(Value(a)) == a
  {
    ValueInjective(Of(Value(a)), a);
  }

  /** The `^` operator on bytes. */
  function Xor(a: byte, b: byte): (c: byte)
    ensures Of(c) == Add(Of(a), Of(b))
  {
    OfValue(Add(Of(a), Of(b)));
    Value(Add(Of(a), Of(b)))
  }

  /** Multiplication by x^n. */
  function Steps(a: Elem, n: nat): Elem {
    if n == 0 then a else Xtime(Steps(a, n - 1))
  }

  /** The n-th power of the generator x. */
  function Exp(n: nat): Elem { Steps(ONE, n) }

  lemma {:induction false} StepsSum(a: Elem, m: nat, n: nat)
    ensures Steps(Steps(a, m), n) == Steps(a, m + n)
  {
    if n == 0 {
    } else {
      StepsSum(a, m, n - 1);
    }
  }

  lemma {:induction false} StepsAdd(a: Elem, b: Elem, n: nat)
    ensures Steps(Add(a, b), n) == Add(Steps(a, n), Steps(b, n))
    decreases n
  {
    hide Add, Xtime;
    if n == 0 {
    } else {
      StepsAdd(a, b, n - 1);
      XtimeAdd(Steps(a, n - 1), Steps(b, n - 1));
    }
  }

  lemma {:induction false} StepsZero(n: nat)
    ensures Steps(ZERO, n) == ZERO
  {
    if n == 0 {
    } else {
      StepsZero(n - 1);
    }
  }

  lemma {:induction false} StepsInjective(a: Elem, b: Elem, n: nat)
    requires Steps(a, n) == Steps(b, n)
    ensures a == b
    decreases n
  {
    if n == 0 {
    } else {
      XtimeInjective(Steps(a, n - 1), Steps(b, n - 1));
      StepsInjective(a, b, n - 1);
    }
  }

  // ----- the generator's order -----

  const OFF := false
  const ON := true

  /** Four, eight and seventeen steps at once. */
  function Four(a: Elem): Elem {
    E(a.b7 != a.b3,
      (a.b7 != a.b6) != a.b2,
      ((a.b7 != a.b6) != a.b5) != a.b1,
      ((a.b6 != a.b5) != a.b4) != a.b0,
      (a.b7 != a.b5) != a.b4,
      a.b6 != a.b4,
      a.b5,
      a.b4)
  }

  function Eight(a: Elem): Elem {
    E((a.b5 != a.b4) != a.b3,
      (a.b4 != a.b3) != a.b2,
      ((a.b7 != a.b3) != a.b2) != a.b1,
      ((a.b6 != a.b2) != a.b1) != a.b0,
      ((a.b4 != a.b3) != a.b1) != a.b0,
      (((a.b7 != a.b5) != a.b4) != a.b2) != a.b0,
      ((a.b7 != a.b6) != a.b5) != a.b1,
      ((a.b6 != a.b5) != a.b4) != a.b0)
  }

  function Jump(a: Elem): Elem {
    E((((a.b7 != a.b6) != a.b5) != a.b3) != a.b0,
      ((a.b6 != a.b5) != a.b4) != a.b2,
      ((a.b5 != a.b4) != a.b3) != a.b1,
      ((a.b4 != a.b3) != a.b2) != a.b0,
      ((((a.b7 != a.b6) != a.b5) != a.b2) != a.b1) != a.b0,
      ((a.b7 != a.b4) != a.b3) != a.b1,
      (a.b7 != a.b5) != a.b2,
      ((a.b7 != a.b6) != a.b4) != a.b1)
  }

  lemma Jumps(a: Elem)
    ensures Four(a) == Xtime(Xtime(Xtime(Xtime(a))))
    ensures Eight(a) == Four(Four(a))
    ensures Jump(a) == Xtime(Eight(Eight(a)))
  {}

  lemma FourSteps(a: Elem, n: nat)
    ensures Steps(a, n + 4) == Four(Steps(a, n))
  {
    assert Steps(a, n + 4) == Xtime(Steps(a, n + 3));
    assert Steps(a, n + 3) == Xtime(Steps(a, n + 2));
    assert Steps(a, n + 2) == Xtime(Steps(a, n + 1));
    Jumps(Steps(a, n));
  }

  lemma JumpSteps(n: nat)
    ensures Exp(n + 17) == Jump(Exp(n))
  {
    FourSteps(ONE, n);
    FourSteps(ONE, n + 4);
    FourSteps(ONE, n + 8);
    FourSteps(ONE, n + 12);
    assert Exp(n + 17) == Xtime(Exp(n + 16));
    Jumps(Exp(n));
    Jumps(Exp(n + 8));
    Jumps(Eight(Exp(n)));
  }

  /** Every seventeenth power, computed. */
  ghost predicate PowerIs(n: nat, a: Elem) { Exp(n) == a }

  lemma NextPower(n: nat, a: Elem, b: Elem)
    requires PowerIs(n, a) && Jump(a) == b
    ensures PowerIs(n + 17, b)
  {
    JumpSteps(n);
  }

  lemma SeventeenthPowers()
    ensures PowerIs(51, E(OFF, OFF, OFF, OFF, ON, OFF, ON, OFF)) && PowerIs(85, E(ON, ON, OFF, ON, OFF, ON, ON, OFF))
    ensures PowerIs(255, ONE)
  {
    assert PowerIs(0, ONE);
    NextPower(0, ONE, E(ON, OFF, OFF, ON, ON, OFF, OFF, OFF));
    NextPower(17, E(ON, OFF, OFF, ON, ON, OFF, OFF, OFF), E(OFF, ON, OFF, OFF, ON, ON, ON, OFF));
    NextPower(34, E(OFF, ON, OFF, OFF, ON, ON, ON, OFF), E(OFF, OFF, OFF, OFF, ON, OFF, ON, OFF));
    NextPower(51, E(OFF, OFF, OFF, OFF, ON, OFF, ON, OFF), E(ON, OFF, OFF, ON, ON, OFF, OFF, ON));
    NextPower(68, E(ON, OFF, OFF, ON, ON, OFF, OFF, ON), E(ON, ON, OFF, ON, OFF, ON, ON, OFF));
    NextPower(85, E(ON, ON, OFF, ON, OFF, ON, ON, OFF), E(OFF, ON, OFF, OFF, OFF, ON, OFF, OFF));
    NextPower(102, E(OFF, ON, OFF, OFF, OFF, ON, OFF, OFF), E(ON, OFF, OFF, ON, OFF, OFF, ON, ON));
    NextPower(119, E(ON, OFF, OFF, ON, OFF, OFF, ON, ON), E(OFF, ON, OFF, OFF, ON, ON, ON, ON));
    NextPower(136, E(OFF, ON, OFF, OFF, ON, ON, ON, ON), E(ON, OFF, OFF, ON, OFF, OFF, ON, OFF));
    NextPower(153, E(ON, OFF, OFF, ON, OFF, OFF, ON, OFF), E(ON, ON, OFF, ON, OFF, ON, ON, ON));
    NextPower(170, E(ON, ON, OFF, ON, OFF, ON, ON, ON), E(ON, ON, OFF, ON, ON, ON, OFF, OFF));
    NextPower(187, E(ON, ON, OFF, ON, ON, ON, OFF, OFF), E(ON, ON, OFF, ON, ON, ON, OFF, ON));
    NextPower(204, E(ON, ON, OFF, ON, ON, ON, OFF, ON), E(OFF, ON, OFF, OFF, OFF, ON, OFF, ON));
    NextPower(221, E(OFF, ON, OFF, OFF, OFF, ON, OFF, ON), E(OFF, OFF, OFF, OFF, ON, OFF, ON, ON));
    NextPower(238, E(OFF, OFF, OFF, OFF, ON, OFF, ON, ON), ONE);
  }

  /** The exponents n for which x^n = 1 are closed under subtraction and under taking multiples. */
  lemma PeriodMinus(m: nat, n: nat)
    requires m <= n && Exp(m) == ONE == Exp(n)
    ensures Exp(n - m) == ONE
  {
    StepsSum(ONE, n - m, m);
    StepsInjective(Exp(n - m), ONE, m);
  }

  lemma {:induction false} PeriodTimes(m: nat, k: nat)
    requires Exp(m) == ONE
    ensures Exp(m * k) == ONE
  {
    if k == 0 {
    } else {
      PeriodTimes(m, k - 1);
      StepsSum(ONE, m, m * (k - 1));
      assert m + m * (k - 1) == m * k;
    }
  }

  /** So they contain the greatest common divisor of any two of them. */
  lemma {:induction false} CommonPeriod(m: nat, n: nat) returns (g: nat, p: nat, q: nat)
    requires 0 < m && 0 < n && Exp(m) == ONE == Exp(n)
    ensures 0 < g && Exp(g) == ONE && m == g * p && n == g * q
    decreases m + n
  {
    if m == n {
      g, p, q := m, 1, 1;
    } else if m < n {
      PeriodMinus(m, n);
      g, p, q := CommonPeriod(m, n - m);
      q := p + q;
    } else {
      PeriodMinus(n, m);
      g, p, q := CommonPeriod(m - n, n);
      p := p + q;
    }
  }

  lemma ProperDivisor(n: nat, m: nat) returns (g: nat, q: nat)
    requires 0 < n < m && Exp(n) == ONE == Exp(m)
    ensures g * q == m && g < m && Exp(g) == ONE
  {
    var p;
    g, p, q := CommonPeriod(n, m);
    assert p == 0 ==> g * p == 0;
    assert g <= g * p;
  }

  /** A proper divisor of 255 divides 85, 51 or 15. */
  lemma DivisorsOf255(g: nat, q: nat) returns (k: nat)
    requires g * q == 255 && g < 255
    ensures g * k == 85 || g * k == 51 || g * k == 15
  {
    if q % 3 == 0 {
      k := q / 3;
      Regroup(g, 3, k);
    } else if q % 5 == 0 {
      k := q / 5;
      Regroup(g, 5, k);
    } else {
      Divides3(g, q);
      var a := g / 3;
      Regroup(q, 3, a);
      Divides5(a, q);
      var b := a / 5;
      Regroup(q, 5, b);
      assert b * q == 17 && q >= 2;
      Seventeen(b, q);
      k := 1;
    }
  }

  lemma Regroup(g: nat, p: nat, k: nat)
    ensures g * (p * k) == p * (g * k) && p * k * g == p * (k * g) && g * k == k * g
  {}

  lemma Seventeen(b: nat, q: nat)
    requires b * q == 17 && q >= 2
    ensures b == 1
  {
    assert b < 9 by { assert b * q >= b * 2; }
  }

  lemma Divides3(a: nat, b: nat)
    requires (a * b) % 3 == 0 && b % 3 != 0
    ensures a % 3 == 0
  {
    Remainder(a / 3, a % 3, b, 3);
    Rest3(a / 3 * b, a % 3, b);
  }

  lemma Divides5(a: nat, b: nat)
    requires (a * b) % 5 == 0 && b % 5 != 0
    ensures a % 5 == 0
  {
    Remainder(a / 5, a % 5, b, 5);
    Rest5(a / 5 * b, a % 5, b);
  }

  lemma Remainder(i: nat, r: nat, b: nat, p: nat)
    ensures (p * i + r) * b == p * (i * b) + r * b
  {}

  lemma Rest3(t: nat, r: nat, b: nat)
    requires r < 3 && b % 3 != 0
    ensures (3 * t + r * b) % 3 == 0 ==> r == 0
  {
    if r == 1 { assert r * b == b; } else if r == 2 { assert r * b == 2 * b; }
  }

  lemma Rest5(t: nat, r: nat, b: nat)
    requires r < 5 && b % 5 != 0
    ensures (5 * t + r * b) % 5 == 0 ==> r == 0
  {
    if r == 1 { assert r * b == b; } else if r == 2 { assert r * b == 2 * b; }
    else if r == 3 { assert r * b == 3 * b; } else if r == 4 { assert r * b == 4 * b; }
  }

  /** Powers 1..254 of the generator all differ from 1. */
  lemma GeneratorOrder(n: nat)
    requires 0 < n < 255
    ensures Exp(n) != ONE
  {
    SeventeenthPowers();
    FifteenthPower();
    if Exp(n) == ONE {
      var g, q := ProperDivisor(n, 255);
      var k := DivisorsOf255(g, q);
      PeriodTimes(g, k);
    }
  }

  lemma FirstPowers()
    ensures Exp(0) == ONE && Exp(1) == TWO
  {
    assert Exp(1) == Xtime(Exp(0));
  }

  lemma FifteenthPower()
    ensures Exp(15) != ONE
  {
    FirstPowers();
    FourSteps(ONE, 0);
    FourSteps(ONE, 4);
    FourSteps(ONE, 8);
    assert Exp(15) == Xtime(Xtime(Xtime(Exp(12))));
  }

  /** The first 255 powers are pairwise different, */
  lemma ExpInjective(i: nat, j: nat)
    requires i < j < 255
    ensures Exp(i) != Exp(j)
  {
    GeneratorOrder(j - i);
    StepsSum(ONE, j - i, i);
    if Exp(i) == Exp(j) { StepsInjective(ONE, Exp(j - i), i); }
  }

  /** and then they repeat. */
  lemma ExpPeriod(i: nat)
    ensures Exp(i + 255) == Exp(i)
  {
    SeventeenthPowers();
    StepsSum(ONE, 255, i);
  }

  lemma ExpNonZero(i: nat)
    ensures Exp(i) != ZERO
  {
    StepsZero(i);
    if Exp(i) == ZERO { StepsInjective(ONE, ZERO, i); }
  }

  // ----- logarithms -----

  /** Every non-zero element is a power of the generator, below 255. */
  lemma ExpSurjective(a: Elem)
    requires a != ZERO
    ensures exists i: nat :: i < 255 && Exp(i) == a
  {
    PowersCount(255);
    PowersAreNonZero(255, 255);
    hide Exp, Value;
    Sets.SubsetSize(Powers(255), Upto(255));
    ValueNonZero(a);
    var i := PowerIndex(255, Value(a));
    ValueInjective(Exp(i), a);
  }

  lemma ValueNonZero(a: Elem)
    requires a != ZERO
    ensures 1 <= Value(a) <= 255
  {
    if Value(a) == 0 { ValueInjective(a, ZERO); }
  }

  /** The first n powers of the generator, as integers. */
  ghost function Powers(n: nat): set<int> {
    if n == 0 then {} else Powers(n - 1) + {Value(Exp(n - 1))}
  }

  ghost function Upto(n: nat): (s: set<int>)
    ensures |s| == n
    ensures forall v :: v in s <==> 1 <= v <= n
  {
    if n == 0 then {} else Upto(n - 1) + {n}
  }

  lemma {:induction false} PowerIndex(n: nat, v: int) returns (i: nat)
    requires v in Powers(n)
    ensures i < n && Value(Exp(i)) == v
  {
    if v == Value(Exp(n - 1)) { i := n - 1; } else { i := PowerIndex(n - 1, v); }
  }

  lemma PowerIsNew(n: nat)
    requires n < 255
    ensures Value(Exp(n)) !in Powers(n)
  {
    if Value(Exp(n)) in Powers(n) {
      var i := PowerIndex(n, Value(Exp(n)));
      ValueInjective(Exp(i), Exp(n));
      ExpInjective(i, n);
    }
  }

  lemma {:induction false} PowersCount(n: nat)
    requires n <= 255
    ensures |Powers(n)| == n
  {
    if n == 0 {
    } else {
      PowersCount(n - 1);
      PowerIsNew(n - 1);
    }
  }

  lemma PowersAreNonZero(n: nat, m: nat)
    requires n <= 255 <= m
    ensures Powers(n) <= Upto(m)
  {
    forall v | v in Powers(n) ensures v in Upto(m) {
      var i := PowerIndex(n, v);
      ExpNonZero(i);
      ValueNonZero(Exp(i));
    }
  }

  /** The logarithm to the base x. */
  ghost function Log(a: Elem): (i: nat)
    requires a != ZERO
    ensures i < 255 && Exp(i) == a
  {
    ExpSurjective(a);
    var i: nat :| i < 255 && Exp(i) == a;
    i
  }

  // ----- the field -----

  /** Multiplication, the way the tables do it: add logarithms. */
  ghost function Mul(a: Elem, b: Elem): Elem {
    if a == ZERO || b == ZERO then ZERO else Exp(Log(a) + Log(b))
  }

  /** The inverse; zero has none, and stands for itself. */
  ghost function Inv(a: Elem): Elem {
    if a == ZERO then ZERO else Exp(255 - Log(a))
  }

  lemma {:induction false} ExpMod(i: nat)
    ensures Exp(i) == Exp(i % 255)
  {
    if i >= 255 {
      ExpPeriod(i - 255);
      ExpMod(i - 255);
    }
  }

  lemma LogExp(i: nat)
    ensures Exp(i) != ZERO && Log(Exp(i)) == i % 255
  {
    ExpNonZero(i);
    ExpMod(i);
    var l, r := Log(Exp(i)), i % 255;
    if l < r { ExpInjective(l, r); }
    if r < l { ExpInjective(r, l); }
  }

  /** Logarithms turn products into sums. */
  lemma MulExp(i: nat, j: nat)
    ensures Mul(Exp(i), Exp(j)) == Exp(i + j)
  {
    hide Exp;
    LogExp(i);
    LogExp(j);
    ExpMod(i % 255 + j % 255);
    ExpMod(i + j);
    ModSum(i, j);
  }

  lemma ModSum(i: nat, j: nat)
    ensures (i % 255 + j % 255) % 255 == (i + j) % 255
  {}

  /** Multiplying by a power of x is taking that many steps. */
  lemma MulSteps(a: Elem, b: Elem)
    requires a != ZERO
    ensures Mul(a, b) == Steps(b, Log(a))
  {
    hide Steps;
    StepsZero(Log(a));
    if b != ZERO { StepsSum(ONE, Log(b), Log(a)); }
  }

  lemma MulZero(a: Elem)
    ensures Mul(a, ZERO) == ZERO == Mul(ZERO, a)
    ensures Add(a, ZERO) == a == Add(ZERO, a) && Add(a, a) == ZERO
  {}

  lemma MulNonZero(a: Elem, b: Elem)
    ensures Mul(a, b) == ZERO <==> a == ZERO || b == ZERO
  {
    hide Exp;
    if a != ZERO && b != ZERO { ExpNonZero(Log(a) + Log(b)); }
  }

  lemma MulComm(a: Elem, b: Elem)
    ensures Mul(a, b) == Mul(b, a)
  {
    hide Exp;
  }

  lemma PowersAssociate(a: Elem, b: Elem, c: Elem, i: nat, j: nat, l: nat)
    requires a == Exp(i) && b == Exp(j) && c == Exp(l)
    ensures Mul(Mul(a, b), c) == Mul(a, Mul(b, c))
  {
    hide Exp, Mul;
    MulExp(i, j);
    MulExp(j, l);
    MulExp(i + j, l);
    MulExp(i, j + l);
    assert (i + j) + l == i + (j + l);
  }

  lemma MulAssoc(a: Elem, b: Elem, c: Elem)
    ensures Mul(Mul(a, b), c) == Mul(a, Mul(b, c))
  {
    MulZero(a);
    MulZero(b);
    MulZero(c);
    MulZero(Mul(a, b));
    MulZero(Mul(b, c));
    hide Mul;
    if a != ZERO && b != ZERO && c != ZERO { PowersAssociate(a, b, c, Log(a), Log(b), Log(c)); }
  }

  lemma MulAdd(a: Elem, b: Elem, c: Elem)
    ensures Mul(a, Add(b, c)) == Add(Mul(a, b), Mul(a, c))
    ensures Mul(Add(b, c), a) == Add(Mul(b, a), Mul(c, a))
  {
    MulZero(Add(b, c));
    MulZero(b);
    MulZero(c);
    MulZero(ZERO);
    MulComm(a, b);
    MulComm(a, c);
    MulComm(a, Add(b, c));
    if a != ZERO {
      MulSteps(a, b);
      MulSteps(a, c);
      MulSteps(a, Add(b, c));
      hide Steps, Mul, Add;
      StepsAdd(b, c, Log(a));
    }
  }

  lemma MulOne(a: Elem)
    ensures Mul(ONE, a) == a == Mul(a, ONE)
  {
    hide Exp, Steps, Mul;
    FirstPowers();
    LogExp(0);
    MulComm(ONE, a);
    MulSteps(ONE, a);
    NoSteps(a);
  }

  lemma NoSteps(a: Elem)
    ensures Steps(a, 0) == a
  {}

  /** Multiplying by x is the shift-and-reduce step. */
  lemma MulByGenerator(a: Elem)
    ensures Mul(TWO, a) == Xtime(a)
  {
    hide Xtime, Steps, Exp, Mul;
    FirstPowers();
    LogExp(1);
    OneStep(a);
    MulSteps(TWO, a);
  }

  lemma OneStep(a: Elem)
    ensures Steps(a, 1) == Xtime(a)
  {
    assert Steps(a, 0) == a;
  }

  lemma MulInv(a: Elem)
    requires a != ZERO
    ensures Inv(a) != ZERO && Mul(a, Inv(a)) == ONE == Mul(Inv(a), a)
  {
    hide Exp, Mul;
    FirstPowers();
    ExpPeriod(0);
    ExpNonZero(255 - Log(a));
    MulExp(Log(a), 255 - Log(a));
    MulComm(a, Inv(a));
  }
}
