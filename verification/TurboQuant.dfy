/** Compressing vectors: rotate, divide by the norm, keep the index of the nearest centroid. */
module TurboQuant {
  import opened Blocks
  import opened Bytes
  import opened BitPack
  import H = Hadamard

  type Row = seq<real>

  function Gap(a: real, b: real): (d: real)
    ensures d >= 0.0 && (d == a - b || d == b - a)
  {
    if a >= b then a - b else b - a
  }

  /** The first of the nearest of the first `n` centroids. */
  function NearestTo(v: real, cs: Row, n: nat): (i: nat)
    requires 1 <= n <= |cs|
    ensures i < n && forall j :: 0 <= j < n ==> Gap(v, cs[i]) <= Gap(v, cs[j])
    ensures forall j :: 0 <= j < i ==> Gap(v, cs[i]) < Gap(v, cs[j])
  {
    if n == 1 then 0
    else
      var i := NearestTo(v, cs, n - 1);
      if Gap(v, cs[n - 1]) < Gap(v, cs[i]) then n - 1 else i
  }

  function Nearest(v: real, cs: Row): (i: nat)
    requires cs != []
    ensures i < |cs| && forall j :: 0 <= j < |cs| ==> Gap(v, cs[i]) <= Gap(v, cs[j])
    ensures forall j :: 0 <= j < i ==> Gap(v, cs[i]) < Gap(v, cs[j])
  {
    NearestTo(v, cs, |cs|)
  }

  function Indices(v: Row, cs: Row): (r: seq<nat>)
    requires cs != []
    ensures |r| == |v| && forall j :: 0 <= j < |v| ==> r[j] == Nearest(v[j], cs)
  {
    seq(|v|, j requires 0 <= j < |v| => Nearest(v[j], cs))
  }

  function Lookup(ids: seq<nat>, cs: Row): (r: Row)
    requires forall j :: 0 <= j < |ids| ==> ids[j] < |cs|
    ensures |r| == |ids| && forall j :: 0 <= j < |ids| ==> r[j] == cs[ids[j]]
  {
    seq(|ids|, j requires 0 <= j < |ids| => cs[ids[j]])
  }

  /** A row of centroids is quantized without error. */
  lemma LookupOfIndices(v: Row, cs: Row)
    requires cs != [] && forall j :: 0 <= j < |v| ==> v[j] in cs
    ensures Lookup(Indices(v, cs), cs) == v
  {
    forall j | 0 <= j < |v| ensures cs[Nearest(v[j], cs)] == v[j] {
      var i :| 0 <= i < |cs| && cs[i] == v[j];
      assert Gap(v[j], cs[i]) == 0.0;
    }
  }

  /** The norm of a vector. */
  predicate IsNorm(norm: real, x: Row) {
    norm >= 0.0 && norm * norm == H.Dot(x, x)
  }

  /** Another coordinate adds its square to the square of the norm, and no coordinates have norm 0. */
  lemma NormAdds(x: Row, a: real, norm: real)
    ensures IsNorm(norm, []) <==> norm >= 0.0 && norm * norm == 0.0
    ensures IsNorm(norm, x + [a]) <==> norm >= 0.0 && norm * norm == H.Dot(x, x) + a * a
  {
    H.DotAdd(x, x, a, a);
    var none: Row := [];
    assert H.Dot(none, none) == 0.0;
    hide H.Dot;
  }

  function SafeNorm(norm: real): (s: real)
    ensures s != 0.0
  {
    if norm > 0.0 then norm else 1.0
  }

  /** A vector, its signs flipped, rotated, and divided by its norm. */
  function Normalized(x: Row, signs: Row, q: H.Matrix, n: nat, norm: real): (v: Row)
    requires H.Square(q, n) && |x| == |signs| == n
    ensures |v| == n
  {
    H.Divided(H.Rotate(x, signs, q, n), SafeNorm(norm))
  }

  /** And back. */
  function Restored(v: Row, signs: Row, q: H.Matrix, n: nat, norm: real): (x: Row)
    requires H.Square(q, n) && |v| == |signs| == n
    ensures |x| == n
  {
    H.Unrotate(H.Stretched(v, norm), signs, q, n)
  }

  /** Each coordinate of a vector that is quantized, and of one that is restored. */
  lemma NormalizedAt(x: Row, signs: Row, q: H.Matrix, n: nat, norm: real, j: nat)
    requires H.Square(q, n) && |x| == |signs| == n && j < n
    ensures var dot :=
        H.Dot(seq(n, i requires 0 <= i < n => x[i] * signs[i]), seq(n, i requires 0 <= i < n => q[i][j]));
      Normalized(x, signs, q, n, norm)[j] == if norm > 0.0 then dot / norm else dot / 1.0
  {
    assert H.Times(x, signs) == seq(n, i requires 0 <= i < n => x[i] * signs[i]);
    assert H.Column(q, n, j) == seq(n, i requires 0 <= i < n => q[i][j]);
    hide H.Dot;
  }

  lemma RestoredAt(v: Row, signs: Row, q: H.Matrix, n: nat, norm: real, j: nat)
    requires H.Square(q, n) && |v| == |signs| == n && j < n
    ensures Restored(v, signs, q, n, norm)[j] ==
      H.Dot(seq(n, i requires 0 <= i < n => v[i] * norm), q[j]) * signs[j]
  {
    assert H.Stretched(v, norm) == seq(n, i requires 0 <= i < n => v[i] * norm);
    assert H.Column(H.Transposed(q, n), n, j) == q[j];
    hide H.Dot;
  }

  function Mul(a: real, b: real): real {
    a * b
  }

  lemma SameSigns(a: real, b: real)
    requires (a > 0.0 && b > 0.0) || (a < 0.0 && b < 0.0)
    ensures Mul(a, b) > 0.0
  {
  }

  lemma SquarePositive(a: real)
    ensures if a == 0.0 then Mul(a, a) == 0.0 else Mul(a, a) > 0.0
  {
    if a != 0.0 { SameSigns(a, a); }
  }

  lemma DotSelfLast(x: Row)
    requires x != []
    ensures H.Dot(x, x) == H.Dot(x[..|x| - 1], x[..|x| - 1]) + Mul(x[|x| - 1], x[|x| - 1])
  {
  }

  lemma {:induction false} DotSelf(x: Row)
    ensures H.Dot(x, x) >= 0.0
    ensures H.Dot(x, x) == 0.0 ==> forall i :: 0 <= i < |x| ==> x[i] == 0.0
  {
    if x != [] {
      hide H.Dot, Mul;
      var n := |x| - 1;
      DotSelf(x[..n]);
      DotSelfLast(x);
      SquarePositive(x[n]);
      if H.Dot(x, x) == 0.0 {
        forall i | 0 <= i < |x| ensures x[i] == 0.0 {
          if i < n { assert x[..n][i] == 0.0; }
        }
      }
    }
  }

  lemma DivideStretch(a: real, r: real)
    requires r != 0.0
    ensures a / r * r == a
  {
  }

  lemma ZeroTimes(a: real)
    ensures a * 0.0 == 0.0 && 0.0 * a == 0.0
  {
  }

  lemma RotatedZero(x: Row, signs: Row, q: H.Matrix, n: nat)
    requires H.Square(q, n) && |x| == |signs| == n && forall i :: 0 <= i < n ==> x[i] == 0.0
    ensures forall j :: 0 <= j < n ==> H.Rotate(x, signs, q, n)[j] == 0.0
  {
    var c := H.Times(x, signs);
    forall i | 0 <= i < n ensures c[i] == 0.0 {
      ZeroTimes(signs[i]);
    }
    forall j | 0 <= j < n ensures H.VecMat(c, q, n)[j] == 0.0 {
      H.DotCommutes(c, H.Column(q, n, j));
      H.DotZeros(H.Column(q, n, j), c);
    }
  }

  /** Multiplying by the norm undoes the division, also for the zero vector, which is not divided. */
  lemma NormUndone(x: Row, signs: Row, q: H.Matrix, n: nat, norm: real)
    requires H.Square(q, n) && |x| == |signs| == n && IsNorm(norm, x)
    ensures H.Stretched(Normalized(x, signs, q, n, norm), norm) == H.Rotate(x, signs, q, n)
  {
    var y, v := H.Rotate(x, signs, q, n), Normalized(x, signs, q, n, norm);
    if norm == 0.0 {
      ZeroTimes(0.0);
      DotSelf(x);
      RotatedZero(x, signs, q, n);
    }
    hide H.Rotate, IsNorm;
    var back := H.Stretched(v, norm);
    forall j | 0 <= j < n ensures back[j] == y[j] {
      assert back[j] == v[j] * norm;
      if norm == 0.0 {
        ZeroTimes(v[j]);
      } else {
        DivideStretch(y[j], norm);
      }
    }
  }

  /** Without quantization error a vector is restored exactly. */
  lemma RestoredNormalized(x: Row, signs: Row, q: H.Matrix, n: nat, norm: real)
    requires H.Orthonormal(q, n) && H.Signs(signs) && |x| == |signs| == n && IsNorm(norm, x)
    ensures Restored(Normalized(x, signs, q, n, norm), signs, q, n, norm) == x
  {
    hide IsNorm, H.Rotate, H.Unrotate, Normalized, H.Stretched;
    NormUndone(x, signs, q, n, norm);
    H.UnrotateRotate(x, signs, q, n);
  }

  // ---------------------------------------------------------------- rotations

  const SUPPORTED_BITS: set<int> := {2, 3, 4}

  const MAX_ELEMENTS: nat := 1000000

  datatype Mode = Hadamard | QR

  datatype Rotation = Rotation(matrix: H.Matrix, signs: Row, mode: Mode)

  /** What the codec takes from elsewhere: the random signs and random rotations of a dimension and
      a seed, the codebook of a bit width and a dimension, square roots and norms. */
  datatype Numerics = Numerics(
    signs: (nat, int) -> Row,
    qr: (nat, int) -> (H.Matrix, Row),
    codebook: (nat, nat) -> Row,
    root: nat -> real,
    norm: Row -> real)
  {
    /** Everything has the size it is asked for. */
    ghost predicate Shaped() {
      && (forall n: nat, seed: int :: |signs(n, seed)| == n)
      && (forall n: nat, seed: int :: H.Square(qr(n, seed).0, n) && |qr(n, seed).1| == n)
      && (forall bits: nat, n: nat :: bits in SUPPORTED_BITS ==> |codebook(bits, n)| == Shl(1, bits))
      && (forall n: nat :: n > 0 ==> root(n) > 0.0)
    }

    /** The signs of a dimension and seed are signs, and its root or its random rotation is one. */
    ghost predicate ExactRotation(n: nat, seed: int) {
      && Shaped()
      && if H.IsPowerOfTwo(n) then H.Signs(signs(n, seed)) && root(n) * root(n) == n as real
         else H.Signs(qr(n, seed).1) && H.Orthonormal(qr(n, seed).0, n)
    }

    ghost predicate ExactNorms(xs: seq<Row>) {
      forall i :: 0 <= i < |xs| ==> IsNorm(norm(xs[i]), xs[i])
    }

    /** Depends on the dimension and the seed alone. */
    function RotationOf(n: nat, seed: int): Rotation
      requires root(n) != 0.0
    {
      if H.IsPowerOfTwo(n) then Rotation(H.Scaled(H.Sylvester(H.Log2(n)), root(n)), signs(n, seed), Hadamard)
      else Rotation(qr(n, seed).0, qr(n, seed).1, QR)
    }

    function Norms(xs: seq<Row>): (r: Row)
      ensures |r| == |xs| && forall i :: 0 <= i < |xs| ==> r[i] == norm(xs[i])
    {
      seq(|xs|, i requires 0 <= i < |xs| => norm(xs[i]))
    }

    /** Either kind of rotation is square, with a sign for every coordinate. */
    lemma RotationShaped(n: nat, seed: int)
      requires Shaped() && n > 0
      ensures H.Square(RotationOf(n, seed).matrix, n) && |RotationOf(n, seed).signs| == n
    {
      if H.IsPowerOfTwo(n) {
        H.Log2Is(n);
        H.SylvesterSquare(H.Log2(n));
      }
    }

    /** Either kind is orthonormal. */
    lemma RotationOrthonormal(n: nat, seed: int)
      requires ExactRotation(n, seed) && n > 0
      ensures H.Orthonormal(RotationOf(n, seed).matrix, n) && H.Signs(RotationOf(n, seed).signs)
    {
      hide H.Orthonormal;
      if H.IsPowerOfTwo(n) {
        H.Log2Is(n);
        H.HadamardOrthonormal(H.Log2(n), root(n));
      }
    }

    /** Builds it: the Sylvester matrix over the root of its size, or the random one. */
    method BuildRotation(n: nat, seed: int) returns (r: Rotation)
      requires Shaped() && n > 0
      ensures r == RotationOf(n, seed)
    {
      if H.IsPowerOfTwo(n) {
        H.Log2Is(n);
        var m := H.Build(n, H.Log2(n));
        return Rotation(H.Scaled(m, root(n)), signs(n, seed), Hadamard);
      }
      return Rotation(qr(n, seed).0, qr(n, seed).1, QR);
    }
  }

  // ---------------------------------------------------------------- packets

  datatype Packet = Packet(rows: int, n: int, bits: int, seed: int, mode: Mode,
                           packed: Bytes, norms: Row, centroids: Row, signs: Row)

  datatype Outcome<T> = Done(value: T) | Refused

  predicate Widths(xs: seq<Row>, n: nat) {
    forall i :: 0 <= i < |xs| ==> |xs[i]| == n
  }

  /** The indices of every row. */
  function RowIndices(xs: seq<Row>, signs: Row, q: H.Matrix, n: nat, norms: Row, cs: Row): (r: seq<seq<nat>>)
    requires H.Square(q, n) && Widths(xs, n) && |signs| == n && |norms| == |xs| && cs != []
    ensures |r| == |xs| && forall i :: 0 <= i < |r| ==> r[i] == Indices(Normalized(xs[i], signs, q, n, norms[i]), cs)
  {
    seq(|xs|, i requires 0 <= i < |xs| => Indices(Normalized(xs[i], signs, q, n, norms[i]), cs))
  }

  /** The indices of all rows, row after row. */
  function AllIndices(xs: seq<Row>, signs: Row, q: H.Matrix, n: nat, norms: Row, cs: Row): (r: seq<nat>)
    requires H.Square(q, n) && Widths(xs, n) && |signs| == n && |norms| == |xs| && cs != []
    ensures |r| == Times(|xs|, n)
  {
    Join<nat>(RowIndices(xs, signs, q, n, norms, cs), n)
  }

  /** Every row restored from its part of the indices. */
  function RestoredRows(ids: seq<nat>, rows: nat, norms: Row, signs: Row, q: H.Matrix, n: nat, cs: Row): (xs: seq<Row>)
    requires H.Square(q, n) && |ids| == Times(rows, n) && |norms| == rows && |signs| == n
    requires forall k :: 0 <= k < |ids| ==> ids[k] < |cs|
    ensures |xs| == rows
  {
    seq(rows, i requires 0 <= i < rows => Restored(RowLookup(ids, rows, n, cs, i), signs, q, n, norms[i]))
  }

  function RowLookup(ids: seq<nat>, rows: nat, n: nat, cs: Row, i: nat): (v: Row)
    requires |ids| == Times(rows, n) && i < rows && forall k :: 0 <= k < |ids| ==> ids[k] < |cs|
    ensures |v| == n
  {
    var block: seq<nat> := Block<nat>(ids, i, rows, n);
    BlockBelow(ids, i, rows, n, |cs|);
    Lookup(block, cs)
  }

  lemma BlockBelow(ids: seq<nat>, i: nat, rows: nat, n: nat, m: nat)
    requires i < rows && |ids| == Times(rows, n) && forall k :: 0 <= k < |ids| ==> ids[k] < m
    ensures forall k :: 0 <= k < n ==> Block<nat>(ids, i, rows, n)[k] < m
  {
    Bounds(i, rows, n);
    assert forall k :: 0 <= k < n ==> Block<nat>(ids, i, rows, n)[k] == ids[Times(i, n) + k];
  }

  lemma IndicesBelow(xs: seq<Row>, signs: Row, q: H.Matrix, n: nat, norms: Row, cs: Row)
    requires H.Square(q, n) && Widths(xs, n) && |signs| == n && |norms| == |xs| && cs != []
    ensures forall k :: 0 <= k < Times(|xs|, n) ==> AllIndices(xs, signs, q, n, norms, cs)[k] < |cs|
  {
    var r := RowIndices(xs, signs, q, n, norms, cs);
    forall i, o | 0 <= i < |r| && 0 <= o < n ensures r[i][o] < |cs| {
    }
    JoinBelow(r, n, |cs|);
  }

  lemma {:induction false} JoinBelow(r: seq<seq<nat>>, n: nat, m: nat)
    requires forall i :: 0 <= i < |r| ==> |r[i]| == n
    requires forall i, o :: 0 <= i < |r| && 0 <= o < n ==> r[i][o] < m
    ensures forall k :: 0 <= k < Times(|r|, n) ==> Join<nat>(r, n)[k] < m
  {
    if r != [] { JoinBelow(r[..|r| - 1], n, m); }
  }

  /** A nonempty matrix of bounded size, to be packed at a supported width. */
  predicate Compressible(xs: seq<Row>, bits: int) {
    && bits in SUPPORTED_BITS
    && xs != [] && xs[0] != [] && Widths(xs, |xs[0]|)
    && |xs| * |xs[0]| <= MAX_ELEMENTS
  }

  /** Two, three or four bits, and at most a million numbers in rows of one length. */
  lemma CompressibleIff(xs: seq<Row>, bits: int)
    ensures Compressible(xs, bits) <==>
      && 2 <= bits <= 4 && |xs| > 0 && |xs[0]| > 0 && |xs| * |xs[0]| <= 1000000
      && forall i :: 0 <= i < |xs| ==> |xs[i]| == |xs[0]|
  {
  }

  /** The packet holds, besides what describes it, the packed indices of every row. */
  ghost predicate IsPacketOf(c: Numerics, xs: seq<Row>, bits: int, seed: int, p: Packet)
    requires c.Shaped()
  {
    Compressible(xs, bits) &&
    var n, cs := |xs[0]|, c.codebook(bits, |xs[0]|);
    var r := c.RotationOf(n, seed);
    && H.Square(r.matrix, n) && |r.signs| == n && cs != []
    && p == Packet(|xs|, n, bits, seed, r.mode, p.packed, c.Norms(xs), cs, r.signs)
    && AllFit(AllIndices(xs, r.signs, r.matrix, n, c.Norms(xs), cs), bits)
    && Packed(p.packed, AllIndices(xs, r.signs, r.matrix, n, c.Norms(xs), cs), bits)
  }

  method Compress(c: Numerics, xs: seq<Row>, bits: int, seed: int) returns (r: Outcome<Packet>)
    requires c.Shaped()
    ensures r.Done? <==> Compressible(xs, bits)
    ensures r.Done? ==> IsPacketOf(c, xs, bits, seed, r.value)
  {
    if bits !in SUPPORTED_BITS {
      return Refused;
    }
    if xs == [] || xs[0] == [] || !Widths(xs, |xs[0]|) {
      return Refused;
    }
    var n := |xs[0]|;
    if |xs| * n > MAX_ELEMENTS {
      return Refused;
    }
    c.RotationShaped(n, seed);
    var rotation := c.BuildRotation(n, seed);
    var norms, cs := c.Norms(xs), c.codebook(bits, n);
    hide H.Square, Shl;
    OneShifted(bits);
    var packed := PackRows(xs, bits, rotation.signs, rotation.matrix, n, norms, cs);
    r := Done(Packet(|xs|, n, bits, seed, rotation.mode, packed, norms, cs, rotation.signs));
  }

  method PackRows(xs: seq<Row>, bits: nat, signs: Row, q: H.Matrix, n: nat, norms: Row, cs: Row)
    returns (packed: Bytes)
    requires H.Square(q, n) && Widths(xs, n) && |signs| == n && |norms| == |xs| && |cs| == Shl(1, bits) && cs != []
    ensures Packed(packed, AllIndices(xs, signs, q, n, norms, cs), bits)
    ensures AllFit(AllIndices(xs, signs, q, n, norms, cs), bits)
  {
    IndicesBelow(xs, signs, q, n, norms, cs);
    var ids := AllIndices(xs, signs, q, n, norms, cs);
    forall k | 0 <= k < |ids| ensures Fits(ids[k], bits) {
      FitsOf(ids[k], bits);
    }
    packed := Pack(ids, bits);
  }

  lemma {:induction false} OneShifted(k: nat)
    ensures Shl(1, k) > 0
  {
    if k > 0 { OneShifted(k - 1); }
  }

  /** The packet's parts match. */
  predicate Readable(p: Packet) {
    && p.bits in SUPPORTED_BITS
    && p.rows > 0 && p.n > 0 && p.rows * p.n <= MAX_ELEMENTS
    && |p.norms| == p.rows && |p.signs| == p.n
    && 8 * |p.packed| >= p.rows * p.n * p.bits && |p.centroids| == Shl(1, p.bits)
  }

  /** The vectors are restored from the indices that were packed, by the rotation of the packet's
      own dimension and seed. */
  ghost predicate RestoredFrom(c: Numerics, p: Packet, ids: seq<nat>, xs: seq<Row>)
    requires c.Shaped() && Readable(p)
  {
    var q := c.RotationOf(p.n, p.seed).matrix;
    && H.Square(q, p.n)
    && IsUnpacked(ids, p.packed, p.rows * p.n, p.bits)
    && |ids| == Times(p.rows, p.n) && (forall k :: 0 <= k < |ids| ==> ids[k] < |p.centroids|)
    && xs == RestoredRows(ids, p.rows, p.norms, p.signs, q, p.n, p.centroids)
  }

  method Decompress(c: Numerics, p: Packet) returns (r: Outcome<seq<Row>>)
    requires c.Shaped()
    ensures r.Done? <==> Readable(p)
    ensures r.Done? ==> exists ids :: RestoredFrom(c, p, ids, r.value)
  {
    hide Times, Shl, Fits, H.Square;
    if p.bits !in SUPPORTED_BITS {
      return Refused;
    }
    if p.rows <= 0 || p.n <= 0 || p.rows * p.n > MAX_ELEMENTS {
      return Refused;
    }
    if |p.norms| != p.rows || |p.signs| != p.n {
      return Refused;
    }
    var u := Unpack(p.packed, p.rows * p.n, p.bits);
    if u.Truncated? {
      return Refused;
    }
    if |p.centroids| != Shl(1, p.bits) {
      return Refused;
    }
    TimesIsProduct(p.rows, p.n);
    forall k | 0 <= k < |u.values| ensures u.values[k] < |p.centroids| {
      FitsBelow(u.values[k], p.bits);
    }
    c.RotationShaped(p.n, p.seed);
    var rotation := c.BuildRotation(p.n, p.seed);
    r := Done(RestoredRows(u.values, p.rows, p.norms, p.signs, rotation.matrix, p.n, p.centroids));
    assert RestoredFrom(c, p, u.values, r.value);
  }

  /** What was compressed can be read. */
  lemma PacketReadable(c: Numerics, xs: seq<Row>, bits: int, seed: int, p: Packet)
    requires c.Shaped() && IsPacketOf(c, xs, bits, seed, p)
    ensures Readable(p)
  {
    hide Packed, Shl;
    var n := |xs[0]|;
    var r := c.RotationOf(n, seed);
    var all := AllIndices(xs, r.signs, r.matrix, n, c.Norms(xs), p.centroids);
    NotTruncated(all, bits, p.packed, []);
    assert p.packed + [] == p.packed;
    TimesIsProduct(|xs|, n);
  }

  /** Every normalized coordinate is a centroid. */
  ghost predicate OnCentroids(c: Numerics, xs: seq<Row>, bits: nat, seed: int)
    requires c.Shaped() && Compressible(xs, bits)
  {
    var n := |xs[0]|;
    var r := c.RotationOf(n, seed);
    && H.Square(r.matrix, n) && |r.signs| == n
    && forall i, j :: 0 <= i < |xs| && 0 <= j < n ==>
         Normalized(xs[i], r.signs, r.matrix, n, c.norm(xs[i]))[j] in c.codebook(bits, n)
  }

  /** Vectors whose normalized coordinates are all centroids come back exactly: whatever is restored
      from their packet, for any seed, is the vectors. */
  lemma ExactRoundTrip(c: Numerics, xs: seq<Row>, bits: int, seed: int, p: Packet, ids: seq<nat>, ys: seq<Row>)
    requires c.Shaped() && IsPacketOf(c, xs, bits, seed, p) && OnCentroids(c, xs, bits, seed)
    requires c.ExactRotation(|xs[0]|, seed) && c.ExactNorms(xs)
    requires Readable(p) && RestoredFrom(c, p, ids, ys)
    ensures ys == xs
  {
    hide H.Orthonormal, H.Square, Packed, IsUnpacked, AllFit, Normalized, H.Signs;
    var n := |xs[0]|;
    var r := c.RotationOf(n, seed);
    c.RotationOrthonormal(n, seed);
    TimesIsProduct(|xs|, n);
    assert p.packed + [] == p.packed;
    RowsExact(xs, bits, r.signs, r.matrix, n, c.Norms(xs), p.centroids, p.packed, [], ids);
  }

  lemma RowsExact(xs: seq<Row>, bits: nat, signs: Row, q: H.Matrix, n: nat, norms: Row, cs: Row,
                  packed: Bytes, trailing: Bytes, ids: seq<nat>)
    requires H.Orthonormal(q, n) && H.Signs(signs) && |signs| == n && Widths(xs, n) && |norms| == |xs| && cs != []
    requires forall i :: 0 <= i < |xs| ==> IsNorm(norms[i], xs[i])
    requires forall i, j :: 0 <= i < |xs| && 0 <= j < n ==> Normalized(xs[i], signs, q, n, norms[i])[j] in cs
    requires var all := AllIndices(xs, signs, q, n, norms, cs);
      AllFit(all, bits) && Packed(packed, all, bits) && IsUnpacked(ids, packed + trailing, |all|, bits)
    ensures |ids| == Times(|xs|, n) && forall k :: 0 <= k < |ids| ==> ids[k] < |cs|
    ensures RestoredRows(ids, |xs|, norms, signs, q, n, cs) == xs
  {
    var all := AllIndices(xs, signs, q, n, norms, cs);
    RoundTrip(all, bits, packed, trailing, ids);
    IndicesBelow(xs, signs, q, n, norms, cs);
    var r := RestoredRows(all, |xs|, norms, signs, q, n, cs);
    forall i | 0 <= i < |xs| ensures r[i] == xs[i] {
      RowRestored(xs, signs, q, n, norms, cs, i);
    }
  }

  lemma RowRestored(xs: seq<Row>, signs: Row, q: H.Matrix, n: nat, norms: Row, cs: Row, i: nat)
    requires H.Orthonormal(q, n) && H.Signs(signs) && |signs| == n && Widths(xs, n) && |norms| == |xs| && cs != []
    requires i < |xs| && IsNorm(norms[i], xs[i])
    requires forall j :: 0 <= j < n ==> Normalized(xs[i], signs, q, n, norms[i])[j] in cs
    requires var all := AllIndices(xs, signs, q, n, norms, cs); forall k :: 0 <= k < |all| ==> all[k] < |cs|
    ensures RestoredRows(AllIndices(xs, signs, q, n, norms, cs), |xs|, norms, signs, q, n, cs)[i] == xs[i]
  {
    assert H.Square(q, n);
    hide H.Orthonormal, IsNorm, Normalized, Restored, Join, Block;
    var v := Normalized(xs[i], signs, q, n, norms[i]);
    BlockOfJoin(RowIndices(xs, signs, q, n, norms, cs), n, i);
    LookupOfIndices(v, cs);
    RestoredNormalized(xs[i], signs, q, n, norms[i]);
  }
}
