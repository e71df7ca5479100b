/** Gauss-Jordan inversion over GF(2^8) (`matInvert` of lib/ReedSolomon.js): row operations keep the kernel of
    the augmented matrix, so the right half ends as the inverse, and a missing pivot exposes a dependency. */
module Elimination {
  import opened GaloisField
  import opened GaloisTables
  import opened LinearAlgebra
  import opened Wrappers

  /** The matrix sends z to the zero vector. */
  ghost predicate Kills(a: Matrix, z: Vec) {
    forall r :: 0 <= r < |a| ==> |a[r]| == |z| && Dot(a[r], z, |z|) == ZERO
  }

  ghost predicate Shape(a: Matrix, rows: nat, cols: nat) {
    |a| == rows && forall r :: 0 <= r < rows ==> |a[r]| == cols
  }

  /** Row operations change a matrix, but not its kernel. */
  ghost predicate SameKernel(a: Matrix, b: Matrix, cols: nat) {
    forall z: Vec :: |z| == cols ==> (Kills(a, z) <==> Kills(b, z))
  }

  /** `b` comes from `a` by exchanging rows i and j. */
  lemma SwapKeepsKernel(a: Matrix, b: Matrix, i: nat, j: nat, cols: nat)
    requires Shape(a, |a|, cols) && i < |a| && j < |a|
    requires b == a[i := a[j]][j := a[i]]
    ensures SameKernel(a, b, cols)
  {
    hide Dot;
    forall z: Vec | |z| == cols ensures Kills(a, z) <==> Kills(b, z) {
      if Kills(b, z) {
        forall r | 0 <= r < |a| ensures Dot(a[r], z, |z|) == ZERO {
          var q := if r == i then j else if r == j then i else r;
          assert b[q] == a[r];
        }
      }
    }
  }

  ghost predicate IsScaled(u: Vec, w: Vec, c: Elem) {
    |w| == |u| && forall j :: 0 <= j < |u| ==> w[j] == Mul(u[j], c)
  }

  lemma ScaleKeepsKernel(a: Matrix, b: Matrix, i: nat, c: Elem, cols: nat)
    requires Shape(a, |a|, cols) && i < |a| && c != ZERO
    requires |b| == |a| && IsScaled(a[i], b[i], c) && forall r :: 0 <= r < |a| && r != i ==> b[r] == a[r]
    ensures SameKernel(a, b, cols)
  {
    hide Dot, Mul;
    forall z: Vec | |z| == cols ensures Kills(a, z) <==> Kills(b, z) {
      DotScaled(a[i], b[i], c, z, cols);
      MulNonZero(c, Dot(a[i], z, cols));
      if Kills(b, z) {
        assert Dot(b[i], z, cols) == ZERO;
        forall r | 0 <= r < |a| ensures Dot(a[r], z, cols) == ZERO {
          assert r != i ==> b[r] == a[r];
        }
      } else if Kills(a, z) {
        assert Dot(a[i], z, cols) == ZERO;
        forall r | 0 <= r < |b| ensures |b[r]| == |z| && Dot(b[r], z, cols) == ZERO {}
      }
    }
  }

  ghost predicate IsCombined(u: Vec, p: Vec, f: Elem, w: Vec) {
    |w| == |u| == |p| && forall j :: 0 <= j < |u| ==> w[j] == Add(u[j], Mul(f, p[j]))
  }

  lemma CombineKeepsKernel(a: Matrix, b: Matrix, i: nat, p: nat, f: Elem, cols: nat)
    requires Shape(a, |a|, cols) && i < |a| && p < |a| && i != p
    requires |b| == |a| && IsCombined(a[i], a[p], f, b[i]) && forall r :: 0 <= r < |a| && r != i ==> b[r] == a[r]
    ensures SameKernel(a, b, cols)
  {
    hide Dot, Mul, Add;
    forall z: Vec | |z| == cols ensures Kills(a, z) <==> Kills(b, z) {
      DotAddScaled(a[i], a[p], b[i], f, z, cols);
      MulZero(f);
      MulZero(Dot(a[i], z, cols));
      assert b[p] == a[p];
      if Kills(b, z) {
        assert Dot(b[i], z, cols) == ZERO && Dot(b[p], z, cols) == ZERO;
        forall r | 0 <= r < |a| ensures Dot(a[r], z, cols) == ZERO {
          assert r != i ==> b[r] == a[r];
        }
      } else if Kills(a, z) {
        assert Dot(a[i], z, cols) == ZERO && Dot(a[p], z, cols) == ZERO;
        forall r | 0 <= r < |b| ensures |b[r]| == |z| && Dot(b[r], z, cols) == ZERO {}
      }
    }
  }

  ghost function Apply(a: Matrix, v: Vec): (w: Vec)
    requires Shape(a, |a|, |v|)
    ensures |w| == |a|
  {
    seq(|a|, r requires 0 <= r < |a| => Dot(a[r], v, |v|))
  }

  /** `inv` recovers every vector from its image under `a`. */
  ghost predicate LeftInverse(inv: Matrix, a: Matrix, n: nat)
    requires Shape(inv, n, n) && Shape(a, n, n)
  {
    forall d: Vec, r :: |d| == n && 0 <= r < n ==> Dot(inv[r], Apply(a, d), n) == d[r]
  }

  function Unit(n: nat, i: nat): (v: Vec)
    ensures |v| == n
  {
    seq(n, j => if j == i then ONE else ZERO)
  }

  function Augmented(src: Matrix): (a: Matrix)
    requires Shape(src, |src|, |src|)
    ensures Shape(a, |src|, 2 * |src|)
  {
    seq(|src|, r requires 0 <= r < |src| => src[r] + Unit(|src|, r))
  }

  lemma {:induction false} DotConcat(u: Vec, u': Vec, v: Vec, v': Vec, i: nat)
    requires |u| == |v| && i <= |u'| && i <= |v'|
    ensures Dot(u + u', v + v', |u| + i) == Add(Dot(u, v, |u|), Dot(u', v', i))
    decreases i
  {
    hide Add, Mul;
    if i == 0 {
      DotPrefix(u, u', v, v', |u|);
      MulZero(Dot(u, v, |u|));
    } else {
      DotConcat(u, u', v, v', i - 1);
      AddAssoc(Dot(u, v, |u|), Dot(u', v', i - 1), Mul(u'[i - 1], v'[i - 1]));
    }
  }

  lemma {:induction false} DotPrefix(u: Vec, u': Vec, v: Vec, v': Vec, i: nat)
    requires i <= |u| == |v|
    ensures Dot(u + u', v + v', i) == Dot(u, v, i)
    decreases i
  {
    hide Add, Mul;
    if i == 0 {
    } else {
      DotPrefix(u, u', v, v', i - 1);
    }
  }

  lemma AddAssoc(a: Elem, b: Elem, c: Elem)
    ensures Add(a, Add(b, c)) == Add(Add(a, b), c)
  {}

  lemma DotUnit(n: nat, i: nat, v: Vec)
    requires i < n == |v|
    ensures Dot(Unit(n, i), v, n) == v[i]
  {
    hide Mul;
    DotSingle(Unit(n, i), v, i, n);
    MulOne(v[i]);
  }

  /** The augmented matrix [ src | I ] sends d followed by its image to zero. */
  lemma AugmentedKillsImages(src: Matrix, d: Vec)
    requires Shape(src, |src|, |src|) && |d| == |src|
    ensures Kills(Augmented(src), d + Apply(src, d))
  {
    hide Add, Mul, Dot;
    var n, e := |src|, Apply(src, d);
    forall r | 0 <= r < n ensures Dot(Augmented(src)[r], d + e, 2 * n) == ZERO {
      DotConcat(src[r], Unit(n, r), d, e, n);
      DotUnit(n, r, e);
      AddCancel(e[r], e[r], ZERO);
    }
  }

  /** Once the left half is the identity, the right half is the inverse. */
  lemma IdentityLeavesInverse(src: Matrix, a: Matrix, n: nat, d: Vec, r: nat)
    requires n == |src| && Shape(src, n, n) && Shape(a, n, 2 * n) && SameKernel(Augmented(src), a, 2 * n)
    requires |d| == n && r < n && a[r][..n] == Unit(n, r)
    ensures Dot(a[r][n..], Apply(src, d), n) == d[r]
  {
    hide Add, Mul, Dot, Apply, Augmented, Unit;
    var z := d + Apply(src, d);
    AugmentedKillsImages(src, d);
    assert |z| == 2 * n && Kills(a, z);
    InverseRow(a[r], n, r, d, Apply(src, d));
  }

  lemma InverseRow(row: Vec, n: nat, r: nat, d: Vec, e: Vec)
    requires |row| == 2 * n && r < n && |d| == |e| == n && row[..n] == Unit(n, r)
    requires Dot(row, d + e, 2 * n) == ZERO
    ensures Dot(row[n..], e, n) == d[r]
  {
    hide Add, Mul, Dot, Unit;
    assert row == row[..n] + row[n..];
    DotConcat(row[..n], row[n..], d, e, n);
    DotUnit(n, r, d);
    AddCancel(d[r], Dot(row[n..], e, n), ZERO);
  }

  /** Columns 0..col of the left half are those of the identity. */
  ghost predicate Cleared(a: Matrix, n: nat, col: nat)
    requires Shape(a, n, 2 * n) && col <= n
  {
    forall r, c :: 0 <= r < n && 0 <= c < col ==> a[r][c] == if r == c then ONE else ZERO
  }

  /** The dependency among the columns that a missing pivot reveals. */
  ghost function Dependency(a: Matrix, n: nat, col: nat): (v: Vec)
    requires Shape(a, n, 2 * n) && col < n
    ensures |v| == n
  {
    seq(n, j requires 0 <= j < n => if j < col then a[j][col] else if j == col then ONE else ZERO)
  }

  lemma NoPivot(src: Matrix, a: Matrix, n: nat, col: nat)
    requires n == |src| && Shape(src, n, n) && Shape(a, n, 2 * n) && SameKernel(Augmented(src), a, 2 * n)
    requires col < n && Cleared(a, n, col) && forall r :: col <= r < n ==> a[r][col] == ZERO
    ensures Kills(src, Dependency(a, n, col)) && !AllZero(Dependency(a, n, col))
  {
    var v, zeros := Dependency(a, n, col), seq(n, j => ZERO);
    assert v[col] == ONE;
    hide Add, Mul, Dot, Augmented, Dependency;
    DependencyKilled(a, n, col, zeros);
    var z := v + zeros;
    assert |z| == 2 * n && Kills(a, z);
    AugmentedRows(src, v, zeros);
  }

  lemma DependencyKilled(a: Matrix, n: nat, col: nat, zeros: Vec)
    requires Shape(a, n, 2 * n) && col < n && Cleared(a, n, col) && |zeros| == n && AllZero(zeros)
    requires forall r :: col <= r < n ==> a[r][col] == ZERO
    ensures Kills(a, Dependency(a, n, col) + zeros)
  {
    hide Add, Mul, Dot, Dependency;
    var v := Dependency(a, n, col);
    forall r | 0 <= r < n ensures Dot(a[r], v + zeros, 2 * n) == ZERO {
      DependencyRow(a, n, col, r);
      assert a[r] == a[r][..n] + a[r][n..];
      PaddedDot(a[r][..n], a[r][n..], v, zeros);
    }
  }

  lemma AugmentedRows(src: Matrix, v: Vec, zeros: Vec)
    requires Shape(src, |src|, |src|) && |v| == |zeros| == |src| && AllZero(zeros)
    requires Kills(Augmented(src), v + zeros)
    ensures Kills(src, v)
  {
    hide Add, Mul, Dot, Unit;
    forall r | 0 <= r < |src| ensures Dot(src[r], v, |v|) == ZERO {
      assert Dot(Augmented(src)[r], v + zeros, |v + zeros|) == ZERO;
      PaddedDot(src[r], Unit(|src|, r), v, zeros);
    }
  }

  lemma PaddedDot(u: Vec, u': Vec, v: Vec, zeros: Vec)
    requires |u| == |v| && |u'| == |zeros| && AllZero(zeros)
    ensures Dot(u + u', v + zeros, |u| + |u'|) == Dot(u, v, |u|)
  {
    hide Add, Mul, Dot;
    DotConcat(u, u', v, zeros, |u'|);
    DotZero(u', zeros, |u'|);
    MulZero(Dot(u, v, |u|));
  }

  lemma DependencyRow(a: Matrix, n: nat, col: nat, r: nat)
    requires Shape(a, n, 2 * n) && r < n && col < n && Cleared(a, n, col)
    requires forall r :: col <= r < n ==> a[r][col] == ZERO
    ensures Dot(a[r][..n], Dependency(a, n, col), n) == ZERO
  {
    hide Mul;
    var u, v := a[r][..n], Dependency(a, n, col);
    DotTail(u, v, col + 1, n);
    MulOne(a[r][col]);
    MulZero(a[r][col]);
    if r < col {
      DotSingle(u, v, r, col);
      MulOne(v[r]);
    } else {
      DotZero(u, v, col);
      MulZero(ZERO);
    }
  }

  lemma {:induction false} DotTail(u: Vec, v: Vec, i: nat, n: nat)
    requires i <= n <= |u| && n <= |v| && forall j :: i <= j < n ==> v[j] == ZERO
    ensures Dot(u, v, n) == Dot(u, v, i)
    decreases n
  {
    hide Add, Mul;
    if i == n {
    } else {
      DotTail(u, v, i, n - 1);
      MulZero(u[n - 1]);
      MulZero(Dot(u, v, i));
    }
  }

  // ----- the algorithm -----

  method ScaleRow(t: Tables, row: Vec, c: Elem) returns (w: Vec)
    requires t.Valid()
    ensures IsScaled(row, w, c)
  {
    hide Mul;
    w := [];
    for j := 0 to |row|
      invariant |w| == j && forall i :: 0 <= i < j ==> w[i] == Mul(row[i], c)
    {
      w := w + [t.GfMul(row[j], c)];
    }
  }

  method CombineRow(t: Tables, row: Vec, pivot: Vec, f: Elem) returns (w: Vec)
    requires t.Valid() && |pivot| == |row|
    ensures IsCombined(row, pivot, f, w)
  {
    hide Mul, Add;
    w := [];
    for j := 0 to |row|
      invariant |w| == j && forall i :: 0 <= i < j ==> w[i] == Add(row[i], Mul(f, pivot[i]))
    {
      w := w + [Add(row[j], t.GfMul(f, pivot[j]))];
    }
  }

  method FindPivot(a: Matrix, n: nat, col: nat) returns (piv: nat)
    requires Shape(a, n, 2 * n) && col < n
    ensures col <= piv <= n
    ensures piv < n ==> a[piv][col] != ZERO
    ensures piv == n ==> forall r :: col <= r < n ==> a[r][col] == ZERO
  {
    piv := col;
    while piv < n && a[piv][col] == ZERO
      invariant col <= piv <= n
      invariant forall r :: col <= r < piv ==> a[r][col] == ZERO
    {
      piv := piv + 1;
    }
  }

  lemma SameKernelRefl(a: Matrix, cols: nat)
    ensures SameKernel(a, a, cols)
  {}

  lemma SameKernelTrans(a: Matrix, b: Matrix, c: Matrix, cols: nat)
    requires SameKernel(a, b, cols) && SameKernel(b, c, cols)
    ensures SameKernel(a, c, cols)
  {
    hide Kills;
  }

  /** One row operation of `ClearColumn`. */
  lemma ClearRow(b: Matrix, next: Matrix, n: nat, col: nat, row: nat)
    requires Shape(b, n, 2 * n) && col < n && row < n && row != col && Cleared(b, n, col) && b[col][col] == ONE
    requires |next| == n && IsCombined(b[row], b[col], b[row][col], next[row]) && next == b[row := next[row]]
    ensures Shape(next, n, 2 * n) && Cleared(next, n, col) && next[row][col] == ZERO && SameKernel(b, next, 2 * n)
  {
    hide Mul, Add, Dot, SameKernel;
    var f, w := b[row][col], next[row];
    CombineKeepsKernel(b, next, row, col, f, 2 * n);
    MulOne(f);
    MulZero(f);
    forall c | 0 <= c < col ensures w[c] == b[row][c] {
      MulZero(b[row][c]);
    }
  }

  /** Subtract multiples of the pivot row from every other row, so that column col becomes the identity's. */
  method ClearColumn(t: Tables, a: Matrix, n: nat, col: nat) returns (b: Matrix)
    requires t.Valid() && Shape(a, n, 2 * n) && col < n
    requires Cleared(a, n, col) && a[col][col] == ONE
    ensures Shape(b, n, 2 * n) && Cleared(b, n, col + 1) && SameKernel(a, b, 2 * n)
  {
    hide Mul, Add, Dot, SameKernel;
    b := a;
    SameKernelRefl(a, 2 * n);
    for row := 0 to n
      invariant Shape(b, n, 2 * n) && SameKernel(a, b, 2 * n)
      invariant Cleared(b, n, col) && b[col] == a[col]
      invariant forall r :: 0 <= r < row && r != col ==> b[r][col] == ZERO
    {
      if row != col && b[row][col] != ZERO {
        var w := CombineRow(t, b[row], b[col], b[row][col]);
        var next := b[row := w];
        ClearRow(b, next, n, col, row);
        SameKernelTrans(a, b, next, 2 * n);
        b := next;
      }
    }
  }

  /** `matInvert`: None is the thrown "matrix is singular". */
  method MatInvert(t: Tables, src: Matrix) returns (inv: Option<Matrix>)
    requires t.Valid() && Shape(src, |src|, |src|)
    ensures inv.Some? ==> Shape(inv.value, |src|, |src|) && LeftInverse(inv.value, src, |src|)
    ensures inv.None? ==> exists v: Vec :: |v| == |src| && !AllZero(v) && Kills(src, v)
  {
    var n := |src|;
    var a := Augmented(src);
    SameKernelRefl(a, 2 * n);
    hide Mul, Add, Dot, Augmented, Dependency, SameKernel, Kills, AllZero, LeftInverse;
    for col := 0 to n
      invariant Shape(a, n, 2 * n) && SameKernel(Augmented(src), a, 2 * n) && Cleared(a, n, col)
    {
      var piv := FindPivot(a, n, col);
      if piv == n {
        NoPivot(src, a, n, col);
        return None;
      }
      var swapped := a[col := a[piv]][piv := a[col]];
      var w := ScaleRow(t, swapped[col], t.GfInv(swapped[col][col]));
      var scaled := swapped[col := w];
      PivotRow(a, swapped, scaled, n, col, piv);
      SameKernelTrans(Augmented(src), a, scaled, 2 * n);
      a := ClearColumn(t, scaled, n, col);
      SameKernelTrans(Augmented(src), scaled, a, 2 * n);
    }
    inv := Some(seq(n, r requires 0 <= r < n => a[r][n..]));
    RightHalf(src, a, inv.value);
  }

  lemma RightHalf(src: Matrix, a: Matrix, inv: Matrix)
    requires Shape(src, |src|, |src|) && Shape(a, |src|, 2 * |src|) && SameKernel(Augmented(src), a, 2 * |src|)
    requires Cleared(a, |src|, |src|)
    requires Shape(inv, |src|, |src|) && forall r :: 0 <= r < |src| ==> inv[r] == a[r][|src|..]
    ensures LeftInverse(inv, src, |src|)
  {
    hide Mul, Add, Dot, Augmented, SameKernel, Apply;
    var n := |src|;
    forall d: Vec, r | |d| == n && 0 <= r < n ensures Dot(inv[r], Apply(src, d), n) == d[r] {
      assert a[r][..n] == Unit(n, r);
      IdentityLeavesInverse(src, a, n, d, r);
    }
  }

  lemma PivotRow(a: Matrix, swapped: Matrix, scaled: Matrix, n: nat, col: nat, piv: nat)
    requires Shape(a, n, 2 * n) && col <= piv < n && Cleared(a, n, col) && a[piv][col] != ZERO
    requires swapped == a[col := a[piv]][piv := a[col]]
    requires |scaled| == n && IsScaled(swapped[col], scaled[col], Inv(swapped[col][col]))
    requires scaled == swapped[col := scaled[col]]
    ensures Shape(scaled, n, 2 * n) && Cleared(scaled, n, col) && scaled[col][col] == ONE
    ensures SameKernel(a, scaled, 2 * n)
  {
    hide Mul, Add, Dot, Inv, SameKernel;
    var c := Inv(swapped[col][col]);
    MulInv(swapped[col][col]);
    MulZero(c);
    SwapKeepsKernel(a, swapped, col, piv, 2 * n);
    ScaleKeepsKernel(swapped, scaled, col, c, 2 * n);
    SameKernelTrans(a, swapped, scaled, 2 * n);
  }
}
