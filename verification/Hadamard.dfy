/** The Sylvester matrices, and the rotation of a vector undone. */
module Hadamard {
  import opened Probing

  type Row = seq<real>

  type Matrix = seq<Row>

  predicate Square(m: Matrix, n: nat) {
    |m| == n && forall i :: 0 <= i < n ==> |m[i]| == n
  }

  function Neg(v: Row): (r: Row)
    ensures |r| == |v| && forall i :: 0 <= i < |v| ==> r[i] == -v[i]
  {
    seq(|v|, i requires 0 <= i < |v| => -v[i])
  }

  /** [[m, m], [m, -m]] */
  function Doubled(m: Matrix): (r: Matrix)
    ensures |r| == |m| + |m|
    ensures forall i :: 0 <= i < |m| ==> r[i] == m[i] + m[i] && r[|m| + i] == m[i] + Neg(m[i])
  {
    seq(|m| + |m|, i requires 0 <= i < |m| + |m| => if i < |m| then m[i] + m[i] else m[i - |m|] + Neg(m[i - |m|]))
  }

  function Sylvester(k: nat): Matrix {
    if k == 0 then [[1.0]] else Doubled(Sylvester(k - 1))
  }

  function Pow2(k: nat): (n: nat)
    ensures n > 0
  {
    if k == 0 then 1 else Pow2(k - 1) + Pow2(k - 1)
  }

  lemma {:induction false} SylvesterSquare(k: nat)
    ensures Square(Sylvester(k), Pow2(k))
  {
    if k > 0 { SylvesterSquare(k - 1); }
  }

  function Dot(u: Row, v: Row): real
    requires |u| == |v|
  {
    if u == [] then 0.0 else Dot(u[..|u| - 1], v[..|u| - 1]) + u[|u| - 1] * v[|u| - 1]
  }

  lemma DotStep(p: Row, q: Row)
    requires |p| == |q| && p != []
    ensures Dot(p, q) == Dot(p[..|p| - 1], q[..|p| - 1]) + p[|p| - 1] * q[|p| - 1]
  {
  }

  lemma DotAdd(u: Row, v: Row, a: real, b: real)
    requires |u| == |v|
    ensures Dot(u + [a], v + [b]) == Dot(u, v) + a * b
  {
    hide Dot;
    var p, q := u + [a], v + [b];
    assert p[..|u|] == u && q[..|u|] == v;
    DotStep(p, q);
  }

  lemma {:induction false} DotConcat(a: Row, b: Row, c: Row, d: Row)
    requires |a| == |c| && |b| == |d|
    ensures Dot(a + b, c + d) == Dot(a, c) + Dot(b, d)
  {
    if b == [] {
      assert a + b == a && c + d == c;
    } else {
      var n := |b| - 1;
      DotConcat(a, b[..n], c, d[..n]);
      assert a + b == (a + b[..n]) + [b[n]] && c + d == (c + d[..n]) + [d[n]];
      DotAdd(a + b[..n], c + d[..n], b[n], d[n]);
    }
  }

  lemma NegProducts(a: real, b: real)
    ensures a * -b == -(a * b) && -a * b == -(a * b) && -a * -b == a * b
  {
  }

  lemma NegInit(u: Row, n: nat)
    requires n <= |u|
    ensures Neg(u)[..n] == Neg(u[..n])
  {
  }

  lemma {:induction false} DotNeg(u: Row, v: Row)
    requires |u| == |v|
    ensures Dot(u, Neg(v)) == -Dot(u, v) && Dot(Neg(u), v) == -Dot(u, v) && Dot(Neg(u), Neg(v)) == Dot(u, v)
  {
    if u != [] {
      var n := |u| - 1;
      DotNeg(u[..n], v[..n]);
      NegInit(u, n);
      NegInit(v, n);
      hide Neg;
      NegProducts(u[n], v[n]);
    }
  }

  function Signed(v: Row, plus: bool): (r: Row)
    ensures |r| == |v|
  {
    if plus then v else Neg(v)
  }

  /** Equal halves add up, opposite ones cancel. */
  lemma HalfDots(u: Row, v: Row, p: bool, q: bool)
    requires |u| == |v|
    ensures Dot(u + Signed(u, p), v + Signed(v, q)) == if p == q then Dot(u, v) + Dot(u, v) else 0.0
  {
    hide Dot;
    DotConcat(u, Signed(u, p), v, Signed(v, q));
    DotNeg(u, v);
  }

  /** Row `i` of the matrix. */
  function SylvesterRow(k: nat, i: nat): (r: Row)
    requires i < Pow2(k)
    ensures |r| == Pow2(k)
  {
    SylvesterSquare(k);
    Sylvester(k)[i]
  }

  /** The row of the half-size matrix that a row is made of. */
  function Half(k: nat, i: nat): (a: nat)
    requires k > 0 && i < Pow2(k)
    ensures a < Pow2(k - 1)
  {
    if i < Pow2(k - 1) then i else i - Pow2(k - 1)
  }

  lemma RowOf(k: nat, i: nat)
    requires k > 0 && i < Pow2(k)
    ensures var v := SylvesterRow(k - 1, Half(k, i));
      SylvesterRow(k, i) == v + Signed(v, i < Pow2(k - 1))
  {
    SylvesterSquare(k - 1);
    SylvesterSquare(k);
  }

  /** H * H^T = n * I */
  lemma {:induction false} RowsOrthogonal(k: nat, i: nat, j: nat)
    requires i < Pow2(k) && j < Pow2(k)
    ensures Dot(SylvesterRow(k, i), SylvesterRow(k, j)) == if i == j then Pow2(k) as real else 0.0
  {
    hide Dot, SylvesterRow, Signed;
    if k > 0 {
      var a, b, n := Half(k, i), Half(k, j), Pow2(k - 1);
      assert i == j <==> a == b && (i < n) == (j < n);
      assert Pow2(k) == n + n;
      hide Pow2, Half;
      RowsOrthogonal(k - 1, a, b);
      RowOf(k, i);
      RowOf(k, j);
      HalfDots(SylvesterRow(k - 1, a), SylvesterRow(k - 1, b), i < n, j < n);
    } else {
      OneByOne();
    }
  }

  lemma OneByOne()
    ensures Dot(SylvesterRow(0, 0), SylvesterRow(0, 0)) == 1.0
  {
    assert Dot([1.0], [1.0]) == 1.0;
  }

  // ---------------------------------------------------------------- the construction

  lemma {:induction false} Pow2Grows(j: nat, k: nat)
    requires j < k
    ensures Pow2(j) < Pow2(k)
  {
    if j < k - 1 { Pow2Grows(j, k - 1); }
  }

  /** Doubles until large enough. */
  method Build(size: nat, ghost k: nat) returns (matrix: Matrix)
    requires size == Pow2(k)
    ensures matrix == Sylvester(k)
  {
    matrix := [[1.0]];
    ghost var j := 0;
    while |matrix| < size
      invariant j <= k && matrix == Sylvester(j) && |matrix| == Pow2(j)
      decreases size - |matrix|
    {
      matrix := Doubled(matrix);
      j := j + 1;
    }
    if j < k { Pow2Grows(j, k); }
  }

  function Divided(v: Row, r: real): (d: Row)
    requires r != 0.0
    ensures |d| == |v| && forall i :: 0 <= i < |v| ==> d[i] == v[i] / r
  {
    seq(|v|, i requires 0 <= i < |v| => v[i] / r)
  }

  function Scaled(m: Matrix, r: real): (d: Matrix)
    requires r != 0.0
    ensures |d| == |m| && forall i :: 0 <= i < |m| ==> d[i] == Divided(m[i], r)
  {
    seq(|m|, i requires 0 <= i < |m| => Divided(m[i], r))
  }

  function Stretched(v: Row, x: real): (d: Row)
    ensures |d| == |v| && forall i :: 0 <= i < |v| ==> d[i] == v[i] * x
  {
    seq(|v|, i requires 0 <= i < |v| => v[i] * x)
  }

  lemma Quotient(a: real, r: real)
    requires r != 0.0
    ensures a / r == a * (1.0 / r)
  {
  }

  lemma DividedIs(v: Row, r: real)
    requires r != 0.0
    ensures Divided(v, r) == Stretched(v, 1.0 / r)
  {
    forall i | 0 <= i < |v| ensures Divided(v, r)[i] == Stretched(v, 1.0 / r)[i] {
      Quotient(v[i], r);
    }
  }

  lemma Regroup(d: real, a: real, b: real, x: real)
    ensures d * x + a * (b * x) == (d + a * b) * x
    ensures d * x + (a * x) * b == (d + a * b) * x
  {
  }

  lemma StretchedInit(u: Row, x: real, n: nat)
    requires n <= |u|
    ensures Stretched(u, x)[..n] == Stretched(u[..n], x)
  {
    var a, b := Stretched(u, x)[..n], Stretched(u[..n], x);
    forall i | 0 <= i < n ensures a[i] == b[i] {
      assert u[..n][i] == u[i];
    }
  }

  lemma {:induction false} DotStretched(u: Row, v: Row, x: real)
    requires |u| == |v|
    ensures Dot(u, Stretched(v, x)) == Dot(u, v) * x && Dot(Stretched(u, x), v) == Dot(u, v) * x
  {
    if u != [] {
      var n := |u| - 1;
      DotStretched(u[..n], v[..n], x);
      StretchedInit(u, x, n);
      StretchedInit(v, x, n);
      hide Stretched;
      Regroup(Dot(u[..n], v[..n]), u[n], v[n], x);
    }
  }

  lemma Reciprocal(r: real, n: real)
    requires r * r == n && n > 0.0
    ensures r != 0.0 && n * (1.0 / r) * (1.0 / r) == 1.0
  {
    assert r != 0.0;
    var t := 1.0 / r;
    assert r * t == 1.0;
    assert n * t * t == (r * t) * (r * t);
  }

  predicate Unit(q: Matrix, n: nat, i: nat, j: nat)
    requires Square(q, n) && i < n && j < n
  {
    Dot(q[i], q[j]) == if i == j then 1.0 else 0.0
  }

  predicate Orthonormal(q: Matrix, n: nat) {
    Square(q, n) && forall i, j :: 0 <= i < n && 0 <= j < n ==> Unit(q, n, i, j)
  }

  /** The square root of the size. */
  predicate IsRoot(r: real, k: nat) {
    r > 0.0 && r * r == Pow2(k) as real
  }

  /** Divided by the square root of its size, the matrix is a rotation. */
  lemma HadamardOrthonormal(k: nat, r: real)
    requires IsRoot(r, k)
    ensures r != 0.0 && Orthonormal(Scaled(Sylvester(k), r), Pow2(k))
  {
    SylvesterSquare(k);
    var n := Pow2(k);
    var q := Scaled(Sylvester(k), r);
    assert Square(q, n);
    hide Dot, Sylvester, Scaled, Divided, Pow2, IsRoot, Square;
    forall i, j | 0 <= i < n && 0 <= j < n ensures Unit(q, n, i, j) {
      ScaledRow(k, r, i);
      ScaledRow(k, r, j);
      ScaledDot(k, r, i, j);
    }
  }

  lemma ScaledRow(k: nat, r: real, i: nat)
    requires r != 0.0 && i < Pow2(k)
    ensures i < |Sylvester(k)| && Scaled(Sylvester(k), r)[i] == Divided(SylvesterRow(k, i), r)
  {
    SylvesterSquare(k);
  }

  lemma ScaledDot(k: nat, r: real, i: nat, j: nat)
    requires IsRoot(r, k) && i < Pow2(k) && j < Pow2(k)
    ensures Dot(Divided(SylvesterRow(k, i), r), Divided(SylvesterRow(k, j), r)) == if i == j then 1.0 else 0.0
  {
    hide Divided, Stretched, Dot, SylvesterRow, Pow2;
    var u, v, t := SylvesterRow(k, i), SylvesterRow(k, j), 1.0 / r;
    Reciprocal(r, Pow2(k) as real);
    RowsOrthogonal(k, i, j);
    DividedIs(u, r);
    DividedIs(v, r);
    DotStretched(u, Stretched(v, t), t);
    DotStretched(u, v, t);
    if i != j {
      assert 0.0 * t * t == 0.0;
    }
  }

  // ---------------------------------------------------------------- rotating a vector

  function Column(m: Matrix, n: nat, j: nat): (c: Row)
    requires Square(m, n) && j < n
    ensures |c| == n && forall i :: 0 <= i < n ==> c[i] == m[i][j]
  {
    seq(n, i requires 0 <= i < n => m[i][j])
  }

  /** v @ m */
  function VecMat(v: Row, m: Matrix, n: nat): (r: Row)
    requires Square(m, n) && |v| == n
    ensures |r| == n && forall j :: 0 <= j < n ==> r[j] == Dot(v, Column(m, n, j))
  {
    seq(n, j requires 0 <= j < n => Dot(v, Column(m, n, j)))
  }

  function Transposed(m: Matrix, n: nat): (t: Matrix)
    requires Square(m, n)
    ensures Square(t, n) && forall i, j :: 0 <= i < n && 0 <= j < n ==> t[i][j] == m[j][i]
  {
    seq(n, i requires 0 <= i < n => Column(m, n, i))
  }

  /** Elementwise product. */
  function Times(u: Row, v: Row): (r: Row)
    requires |u| == |v|
    ensures |r| == |u| && forall i :: 0 <= i < |u| ==> r[i] == u[i] * v[i]
  {
    seq(|u|, i requires 0 <= i < |u| => u[i] * v[i])
  }

  /** The products with the first `t` columns of each row. */
  function PartDots(m: Matrix, n: nat, v: Row, t: nat): (r: Row)
    requires Square(m, n) && |v| == n && t <= n
    ensures |r| == n && forall i :: 0 <= i < n ==> r[i] == Dot(m[i][..t], v[..t])
  {
    seq(n, i requires 0 <= i < n => Dot(m[i][..t], v[..t]))
  }

  lemma {:induction false} DotPlus(c: Row, p: Row, q: Row, s: Row)
    requires |c| == |p| == |q| == |s| && forall i :: 0 <= i < |c| ==> s[i] == p[i] + q[i]
    ensures Dot(c, s) == Dot(c, p) + Dot(c, q)
  {
    if c != [] {
      var n := |c| - 1;
      DotPlus(c[..n], p[..n], q[..n], s[..n]);
      Distribute(c[n], p[n], q[n]);
    }
  }

  lemma Distribute(c: real, p: real, q: real)
    ensures c * (p + q) == c * p + c * q
  {
  }

  lemma {:induction false} DotZeros(c: Row, z: Row)
    requires |c| == |z| && forall i :: 0 <= i < |z| ==> z[i] == 0.0
    ensures Dot(c, z) == 0.0
  {
    if c != [] { DotZeros(c[..|c| - 1], z[..|c| - 1]); }
  }

  /** (c @ m) . v == c . (m v), a column at a time. */
  lemma {:induction false} DotVecMat(c: Row, m: Matrix, n: nat, v: Row, t: nat)
    requires Square(m, n) && |c| == |v| == n && t <= n
    ensures Dot(VecMat(c, m, n)[..t], v[..t]) == Dot(c, PartDots(m, n, v, t))
  {
    hide Dot, VecMat, PartDots, Column, Stretched;
    if t == 0 {
      NoColumns(c, m, n, v);
    } else {
      DotVecMat(c, m, n, v, t - 1);
      OneColumn(VecMat(c, m, n), v, t);
      NextColumn(c, m, n, v, t);
      DotStretched(c, Column(m, n, t - 1), v[t - 1]);
    }
  }

  lemma NoColumns(c: Row, m: Matrix, n: nat, v: Row)
    requires Square(m, n) && |c| == |v| == n
    ensures Dot(VecMat(c, m, n)[..0], v[..0]) == Dot(c, PartDots(m, n, v, 0))
  {
    DotZeros(c, PartDots(m, n, v, 0));
  }

  lemma OneColumn(y: Row, v: Row, t: nat)
    requires |y| == |v| && 0 < t <= |y|
    ensures Dot(y[..t], v[..t]) == Dot(y[..t - 1], v[..t - 1]) + y[t - 1] * v[t - 1]
  {
    assert y[..t][..t - 1] == y[..t - 1] && v[..t][..t - 1] == v[..t - 1];
  }

  lemma NextColumn(c: Row, m: Matrix, n: nat, v: Row, t: nat)
    requires Square(m, n) && |c| == |v| == n && 0 < t <= n
    ensures Dot(c, PartDots(m, n, v, t)) ==
      Dot(c, PartDots(m, n, v, t - 1)) + Dot(c, Stretched(Column(m, n, t - 1), v[t - 1]))
  {
    hide Dot, PartDots, Column, Stretched;
    var p, q, s := PartDots(m, n, v, t - 1), Stretched(Column(m, n, t - 1), v[t - 1]), PartDots(m, n, v, t);
    forall i | 0 <= i < n ensures s[i] == p[i] + q[i] {
      OneColumn(m[i], v, t);
    }
    DotPlus(c, p, q, s);
  }

  lemma {:induction false} DotUnit(c: Row, e: Row, i: nat)
    requires |c| == |e| && i < |c| && forall j :: 0 <= j < |c| ==> e[j] == if j == i then 1.0 else 0.0
    ensures Dot(c, e) == c[i]
  {
    var n := |c| - 1;
    if i < n {
      DotUnit(c[..n], e[..n], i);
    } else {
      DotZeros(c[..n], e[..n]);
    }
  }

  /** Multiplying by a rotation and then by its transpose changes nothing. */
  lemma TransposeUndoes(c: Row, q: Matrix, n: nat)
    requires Orthonormal(q, n) && |c| == n
    ensures VecMat(VecMat(c, q, n), Transposed(q, n), n) == c
  {
    var y := VecMat(c, q, n);
    var back := VecMat(y, Transposed(q, n), n);
    forall i | 0 <= i < n ensures back[i] == c[i] {
      assert Column(Transposed(q, n), n, i) == q[i];
      DotWithRow(c, q, n, i);
    }
  }

  lemma DotWithRow(c: Row, q: Matrix, n: nat, i: nat)
    requires Orthonormal(q, n) && |c| == n && i < n
    ensures Dot(VecMat(c, q, n), q[i]) == c[i]
  {
    var y := VecMat(c, q, n);
    DotVecMat(c, q, n, q[i], n);
    assert y[..n] == y && q[i][..n] == q[i];
    forall j | 0 <= j < n ensures PartDots(q, n, q[i], n)[j] == if j == i then 1.0 else 0.0 {
      assert q[j][..n] == q[j] && Unit(q, n, j, i);
    }
    DotUnit(c, PartDots(q, n, q[i], n), i);
  }

  lemma {:induction false} DotCommutes(u: Row, v: Row)
    requires |u| == |v|
    ensures Dot(u, v) == Dot(v, u)
  {
    if u != [] { DotCommutes(u[..|u| - 1], v[..|v| - 1]); }
  }

  /** A rotation keeps the length of a vector. */
  lemma RotationKeepsLength(c: Row, q: Matrix, n: nat)
    requires Orthonormal(q, n) && |c| == n
    ensures Dot(VecMat(c, q, n), VecMat(c, q, n)) == Dot(c, c)
  {
    var y := VecMat(c, q, n);
    hide Dot, VecMat, PartDots;
    DotVecMat(c, q, n, y, n);
    assert y[..n] == y;
    forall i | 0 <= i < n ensures PartDots(q, n, y, n)[i] == c[i] {
      assert q[i][..n] == q[i];
      DotWithRow(c, q, n, i);
      DotCommutes(y, q[i]);
    }
    assert PartDots(q, n, y, n) == c;
  }

  predicate Signs(s: Row) {
    forall i :: 0 <= i < |s| ==> s[i] == 1.0 || s[i] == -1.0
  }

  /** Any choice of one and minus one will do. */
  lemma SignsAdd(s: Row, a: real)
    ensures Signs([]) && (Signs(s + [a]) <==> Signs(s) && (a == 1.0 || a == -1.0))
  {
    var t := s + [a];
    assert t[|s|] == a && forall i :: 0 <= i < |s| ==> t[i] == s[i];
  }

  function Rotate(x: Row, s: Row, q: Matrix, n: nat): (y: Row)
    requires Square(q, n) && |x| == |s| == n
    ensures |y| == n
  {
    VecMat(Times(x, s), q, n)
  }

  function Unrotate(y: Row, s: Row, q: Matrix, n: nat): (x: Row)
    requires Square(q, n) && |y| == |s| == n
    ensures |x| == n
  {
    Times(VecMat(y, Transposed(q, n), n), s)
  }

  /** Flipping signs and rotating is exactly undone. */
  lemma UnrotateRotate(x: Row, s: Row, q: Matrix, n: nat)
    requires Orthonormal(q, n) && Signs(s) && |x| == |s| == n
    ensures Unrotate(Rotate(x, s, q, n), s, q, n) == x
  {
    TransposeUndoes(Times(x, s), q, n);
    forall i | 0 <= i < n ensures Times(Times(x, s), s)[i] == x[i] {
      assert s[i] == 1.0 || s[i] == -1.0;
    }
    assert Times(Times(x, s), s) == x;
  }

  // ---------------------------------------------------------------- choosing the mode

  lemma {:induction false} AndItself(m: nat)
    ensures BitAnd(m, m) == m
  {
    if m > 0 {
      AndItself(m / 2);
      assert BitAnd(m, m) == 2 * BitAnd(m / 2, m / 2) + m % 2 * (m % 2);
      hide BitAnd;
      SquareOfBit(m % 2);
    }
  }

  lemma SquareOfBit(b: nat)
    requires b < 2
    ensures b * b == b
  {
  }

  /** value > 0 and value & (value - 1) == 0 */
  predicate IsPowerOfTwo(value: int) {
    value > 0 && BitAnd(value, value - 1) == 0
  }

  lemma {:induction false} Pow2IsPower(k: nat)
    ensures IsPowerOfTwo(Pow2(k))
  {
    if k > 0 {
      Pow2IsPower(k - 1);
      var m := Pow2(k - 1);
      assert (m + m) / 2 == m && (m + m - 1) / 2 == m - 1;
    }
  }

  lemma {:induction false} PowerIsPow2(value: nat) returns (k: nat)
    requires IsPowerOfTwo(value)
    ensures value == Pow2(k)
  {
    if value == 1 {
      k := 0;
    } else {
      if value % 2 == 1 { AndItself(value / 2); }
      k := PowerIsPow2(value / 2);
      k := k + 1;
    }
  }

  function Log2(value: nat): nat {
    if value <= 1 then 0 else Log2(value / 2) + 1
  }

  lemma {:induction false} HalvesOfPow2(k: nat)
    ensures Log2(Pow2(k)) == k
  {
    if k > 0 { HalvesOfPow2(k - 1); }
  }

  /** The size for which the construction doubles that many times. */
  lemma Log2Is(value: nat)
    requires IsPowerOfTwo(value)
    ensures value == Pow2(Log2(value))
  {
    var k := PowerIsPow2(value);
    HalvesOfPow2(k);
  }

  lemma {:induction false} Pow2Halves(k: nat)
    ensures PowerOfTwo(Pow2(k))
  {
    if k > 0 { Pow2Halves(k - 1); }
  }

  lemma {:induction false} HalvesIsPow2(value: nat) returns (k: nat)
    requires PowerOfTwo(value)
    ensures value == Pow2(k)
  {
    if value == 1 {
      k := 0;
    } else {
      k := HalvesIsPow2(value / 2);
      k := k + 1;
    }
  }

  /** The bit test finds exactly the numbers that halve down to one, which are the sizes the
      construction reaches. */
  lemma IsPowerOfTwoIs(value: nat)
    ensures IsPowerOfTwo(value) <==> PowerOfTwo(value)
    ensures PowerOfTwo(value) <==> exists k: nat :: value == Pow2(k)
  {
    hide IsPowerOfTwo, PowerOfTwo;
    if IsPowerOfTwo(value) {
      var k := PowerIsPow2(value);
      Pow2Halves(k);
    }
    if PowerOfTwo(value) {
      var k := HalvesIsPow2(value);
      Pow2IsPower(k);
    }
    if exists k: nat :: value == Pow2(k) {
      var k: nat :| value == Pow2(k);
      Pow2Halves(k);
    }
  }
}
