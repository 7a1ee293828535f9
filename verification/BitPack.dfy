/** Indices of a few bits each, packed end to end into bytes, low bits first. */
module BitPack {
  import opened Blocks
  import opened Bytes
  import opened Probing
  import opened Sequences

  // ---------------------------------------------------------------- bits of a number

  /** The `n` low bits, lowest first. */
  function Bits(x: nat, n: nat): (b: seq<bool>)
    ensures |b| == n
    decreases n
  {
    if n == 0 then [] else [x % 2 == 1] + Bits(x / 2, n - 1)
  }

  /** The number with the given bits. */
  function Number(b: seq<bool>): nat {
    if b == [] then 0 else (if b[0] then 1 else 0) + 2 * Number(b[1..])
  }

  /** x < 2^n. */
  predicate Fits(x: nat, n: nat)
    decreases n
  {
    if n == 0 then x == 0 else Fits(x / 2, n - 1)
  }

  function Shl(x: nat, k: nat): nat {
    if k == 0 then x else 2 * Shl(x, k - 1)
  }

  function Shr(x: nat, k: nat): nat {
    if k == 0 then x else Shr(x / 2, k - 1)
  }

  function BitOr(a: nat, b: nat): nat {
    if a == 0 then b else if b == 0 then a
    else (if a % 2 == 1 || b % 2 == 1 then 1 else 0) + 2 * BitOr(a / 2, b / 2)
  }

  /** (1 << k) - 1 */
  function Mask(k: nat): (m: nat)
    ensures m + 1 == Shl(1, k)
  {
    if k == 0 then 0 else 2 * Mask(k - 1) + 1
  }

  /** And this way round for every number that fits. */
  lemma {:induction false} NumberOfBits(x: nat, n: nat)
    requires Fits(x, n)
    ensures Number(Bits(x, n)) == x
    decreases n
  {
    if n > 0 { NumberOfBits(x / 2, n - 1); }
  }

  /** `Bits` and `Number` are inverse: this way round for every list of bits. */
  lemma {:induction false} BitsOfNumber(b: seq<bool>)
    ensures Bits(Number(b), |b|) == b && Fits(Number(b), |b|)
  {
    if b != [] { BitsOfNumber(b[1..]); }
  }

  lemma {:induction false} FitsBelow(x: nat, n: nat)
    requires Fits(x, n)
    ensures x < Shl(1, n)
    decreases n
  {
    if n > 0 { FitsBelow(x / 2, n - 1); }
  }

  /** Cutting a number at bit `a`: masking and shifting. */
  lemma {:induction false} BitsCut(x: nat, a: nat, b: nat)
    ensures Bits(x, a + b) == Bits(x, a) + Bits(Shr(x, a), b)
    ensures Fits(x, a + b) ==> Fits(Shr(x, a), b)
    decreases a
  {
    if a > 0 { BitsCut(x / 2, a - 1, b); }
  }

  lemma {:induction false} MaskedBits(x: nat, k: nat)
    ensures Bits(BitAnd(x, Mask(k)), k) == Bits(x, k) && Fits(BitAnd(x, Mask(k)), k)
    decreases k
  {
    if k > 0 { MaskedBits(x / 2, k - 1); }
  }

  /** Adding a number above bit `k`. */
  lemma {:induction false} BitsJoined(a: nat, v: nat, k: nat, n: nat)
    requires Fits(a, k)
    ensures Bits(BitOr(a, Shl(v, k)), k + n) == Bits(a, k) + Bits(v, n)
    ensures Fits(v, n) ==> Fits(BitOr(a, Shl(v, k)), k + n)
    decreases k
  {
    if k > 0 {
      BitsJoined(a / 2, v, k - 1, n);
    }
  }

  lemma LastBit(q: nat, bit: nat)
    requires bit < 2
    ensures (2 * q + bit) / 2 == q && (2 * q + bit) % 2 == bit
  {
  }

  lemma OrHalves(a: nat, b: nat)
    ensures BitOr(a, b) / 2 == BitOr(a / 2, b / 2) && (BitOr(a, b) % 2 == 1 <==> a % 2 == 1 || b % 2 == 1)
  {
    if a != 0 && b != 0 { LastBit(BitOr(a / 2, b / 2), if a % 2 == 1 || b % 2 == 1 then 1 else 0); }
  }

  lemma AndHalves(a: nat, b: nat)
    ensures BitAnd(a, b) / 2 == BitAnd(a / 2, b / 2) && (BitAnd(a, b) % 2 == 1 <==> a % 2 == 1 && b % 2 == 1)
  {
    var bit := if a % 2 == 1 && b % 2 == 1 then 1 else 0;
    assert a % 2 * (b % 2) == bit by { BitProduct(a % 2, b % 2); }
    LastBit(BitAnd(a / 2, b / 2), bit);
  }

  lemma BitProduct(x: nat, y: nat)
    requires x < 2 && y < 2
    ensures x * y == if x == 1 && y == 1 then 1 else 0
  {
  }

  /** The operators work bit by bit. */
  lemma {:induction false} OperatorsAt(a: nat, b: nat, n: nat, i: nat)
    requires i < n
    ensures Bits(BitOr(a, b), n)[i] <==> Bits(a, n)[i] || Bits(b, n)[i]
    ensures Bits(BitAnd(a, b), n)[i] <==> Bits(a, n)[i] && Bits(b, n)[i]
    decreases i
  {
    OrHalves(a, b);
    AndHalves(a, b);
    hide BitOr, BitAnd;
    if i > 0 { OperatorsAt(a / 2, b / 2, n - 1, i - 1); }
  }

  // ---------------------------------------------------------------- streams

  /** The bits of a list of numbers, `w` bits of each, end to end. */
  function Stream(xs: seq<nat>, w: nat): (b: seq<bool>)
    ensures |b| == Times(|xs|, w)
  {
    if xs == [] then [] else Stream(xs[..|xs| - 1], w) + Bits(xs[|xs| - 1], w)
  }

  /** A right shift divides by a power of two, rounding down. */
  lemma {:induction false} ShrIs(x: nat, k: nat)
    ensures Shl(Shr(x, k), k) <= x < Shl(Shr(x, k) + 1, k)
    decreases k
  {
    if k > 0 {
      ShrIs(x / 2, k - 1);
      assert Shr(x, k) == Shr(x / 2, k - 1);
    }
  }

  /** Bit `i` from the front is the one of weight two to the `i`. */
  lemma {:induction false} BitAt(x: nat, n: nat, i: nat)
    requires i < n
    ensures Bits(x, n)[i] <==> Shr(x, i) % 2 == 1
    decreases i
  {
    if i > 0 { BitAt(x / 2, n - 1, i - 1); }
  }

  /** And bit `j` of value `i` stands `j` bits behind all the bits of the values before it. */
  lemma {:induction false} StreamAt(xs: seq<nat>, w: nat, i: nat, j: nat)
    requires i < |xs| && j < w
    ensures i * w + j < |Stream(xs, w)| && (Stream(xs, w)[i * w + j] <==> Shr(xs[i], j) % 2 == 1)
  {
    hide Bits, Shr, Times;
    var n := |xs| - 1;
    TimesIsProduct(n, w);
    TimesIsProduct(n + 1, w);
    if i < n {
      StreamAt(xs[..n], w, i, j);
    } else {
      BitAt(xs[n], w, j);
    }
  }

  predicate AllFit(xs: seq<nat>, w: nat) {
    forall i :: 0 <= i < |xs| ==> Fits(xs[i], w)
  }

  lemma StreamAdd(xs: seq<nat>, x: nat, w: nat)
    ensures Stream(xs + [x], w) == Stream(xs, w) + Bits(x, w)
  {
    assert (xs + [x])[..|xs|] == xs;
  }

  lemma {:induction false} StreamConcat(xs: seq<nat>, ys: seq<nat>, w: nat)
    ensures Stream(xs + ys, w) == Stream(xs, w) + Stream(ys, w)
  {
    hide Bits;
    if ys == [] {
      assert xs + ys == xs;
    } else {
      StreamLast(xs, ys, w);
      StreamConcat(xs, ys[..|ys| - 1], w);
      Associate(Stream(xs, w), Stream(ys[..|ys| - 1], w), Bits(ys[|ys| - 1], w));
    }
  }

  lemma StreamLast(xs: seq<nat>, ys: seq<nat>, w: nat)
    requires ys != []
    ensures Stream(xs + ys, w) == Stream(xs + ys[..|ys| - 1], w) + Bits(ys[|ys| - 1], w)
  {
    hide Stream, Bits;
    var n := |ys| - 1;
    assert xs + ys == (xs + ys[..n]) + [ys[n]];
    StreamAdd(xs + ys[..n], ys[n], w);
  }

  /** Numbers that fit are determined by their bits. */
  lemma {:induction false} StreamInjective(xs: seq<nat>, ys: seq<nat>, w: nat)
    requires |xs| == |ys| && AllFit(xs, w) && AllFit(ys, w) && Stream(xs, w) == Stream(ys, w)
    ensures xs == ys
  {
    hide Bits, Fits;
    if xs != [] {
      var n := |xs| - 1;
      SameParts(Stream(xs[..n], w), Bits(xs[n], w), Stream(ys[..n], w), Bits(ys[n], w));
      NumberOfBits(xs[n], w);
      NumberOfBits(ys[n], w);
      StreamInjective(xs[..n], ys[..n], w);
    }
  }

  lemma SameParts<T>(a: seq<T>, b: seq<T>, c: seq<T>, d: seq<T>)
    requires a + b == c + d && |a| == |c|
    ensures a == c && b == d
  {
    assert (a + b)[..|a|] == a && (c + d)[..|c|] == c;
    assert (a + b)[|a|..] == b && (c + d)[|c|..] == d;
  }

  function Falses(n: nat): (b: seq<bool>)
    ensures |b| == n
  {
    seq(n, i => false)
  }

  lemma {:induction false} BitsOfZero(n: nat)
    ensures Bits(0, n) == Falses(n)
  {
    if n > 0 {
      BitsOfZero(n - 1);
      assert Falses(n) == [false] + Falses(n - 1);
    }
  }

  lemma {:induction false} ShrOfZero(x: nat, k: nat)
    requires Fits(x, k)
    ensures Shr(x, k) == 0
    decreases k
  {
    if k > 0 { ShrOfZero(x / 2, k - 1); }
  }

  lemma ByteFits(x: nat)
    requires Fits(x, 8)
    ensures x < 256
  {
    FitsBelow(x, 8);
    assert Shl(1, 8) == 256;
  }

  lemma {:induction false} FitsOf(x: nat, n: nat)
    requires x < Shl(1, n)
    ensures Fits(x, n)
    decreases n
  {
    if n > 0 { FitsOf(x / 2, n - 1); }
  }

  lemma BytesFit(p: Bytes)
    ensures AllFit(p, 8)
  {
    assert Shl(1, 8) == 256;
    forall i | 0 <= i < |p| ensures Fits(p[i], 8) {
      FitsOf(p[i], 8);
    }
  }

  ghost predicate PackedWith(p: Bytes, xs: seq<nat>, w: nat, pad: nat) {
    pad < 8 && Stream(p, 8) == Stream(xs, w) + Falses(pad)
  }

  /** The packed form: the bits of the values, then fewer than eight zeros. */
  ghost predicate Packed(p: Bytes, xs: seq<nat>, w: nat) {
    exists pad: nat :: PackedWith(p, xs, w, pad)
  }

  /** Its length is the number of bits divided by eight, rounded up. */
  lemma PackedLength(p: Bytes, xs: seq<nat>, w: nat)
    requires Packed(p, xs, w)
    ensures |p| == (|xs| * w + 7) / 8
  {
    var pad: nat :| PackedWith(p, xs, w, pad);
    TimesIsProduct(|p|, 8);
    TimesIsProduct(|xs|, w);
    assert |Stream(p, 8)| == |Stream(xs, w)| + pad;
  }

  /** There is only one. */
  lemma PackedOnce(p: Bytes, q: Bytes, xs: seq<nat>, w: nat)
    requires Packed(p, xs, w) && Packed(q, xs, w)
    ensures p == q
  {
    var a: nat :| PackedWith(p, xs, w, a);
    var b: nat :| PackedWith(q, xs, w, b);
    PackedLength(p, xs, w);
    PackedLength(q, xs, w);
    BytesFit(p);
    BytesFit(q);
    SamePad(p, q, xs, w, a, b);
    StreamInjective(p, q, 8);
  }

  lemma SamePad(p: Bytes, q: Bytes, xs: seq<nat>, w: nat, a: nat, b: nat)
    requires |p| == |q| && PackedWith(p, xs, w, a) && PackedWith(q, xs, w, b)
    ensures Stream(p, 8) == Stream(q, 8)
  {
    hide Stream, Times;
    assert |Stream(p, 8)| == |Stream(xs, w)| + a && |Stream(q, 8)| == |Stream(xs, w)| + b;
  }

  // ---------------------------------------------------------------- packing

  /** Moves the low `w` bits of an accumulator of `n` to the front of what follows. */
  lemma Take(acc: nat, n: nat, w: nat)
    requires w <= n && Fits(acc, n)
    ensures Bits(acc, n) == Bits(BitAnd(acc, Mask(w)), w) + Bits(Shr(acc, w), n - w)
    ensures Fits(Shr(acc, w), n - w) && Fits(BitAnd(acc, Mask(w)), w)
  {
    BitsCut(acc, w, n - w);
    MaskedBits(acc, w);
  }

  method Pack(xs: seq<nat>, w: nat) returns (out: Bytes)
    ensures Packed(out, xs, w)
  {
    hide Bits, Fits, Stream, BitOr, BitAnd, Shl, Shr, Mask;
    var acc: nat, available: nat := 0, 0;
    out := [];
    StartOfStream(w);
    for i := 0 to |xs|
      invariant available < 8 && Fits(acc, available)
      invariant Stream(out, 8) + Bits(acc, available) == Stream(xs[..i], w)
    {
      assert xs[..i + 1] == xs[..i] + [xs[i]];
      StreamAdd(xs[..i], xs[i], w);
      Added(Stream(out, 8), acc, available, xs[i], w);
      acc := BitOr(acc, Shl(BitAnd(xs[i], Mask(w)), available));
      available := available + w;
      while available >= 8
        invariant Fits(acc, available)
        invariant Stream(out, 8) + Bits(acc, available) == Stream(xs[..i + 1], w)
      {
        out, acc := MoveByte(out, acc, available);
        available := available - 8;
      }
    }
    assert xs[..|xs|] == xs;
    if available > 0 {
      out := LastByte(out, acc, available);
      assert PackedWith(out, xs, w, 8 - available);
    } else {
      NothingLeft(Stream(out, 8), acc);
      assert PackedWith(out, xs, w, 0);
    }
  }

  lemma StartOfStream(w: nat)
    ensures Fits(0, 0) && Stream([], 8) + Bits(0, 0) == Stream([], w)
  {
  }

  lemma Added(s: seq<bool>, acc: nat, n: nat, x: nat, w: nat)
    requires Fits(acc, n)
    ensures var acc' := BitOr(acc, Shl(BitAnd(x, Mask(w)), n));
      Fits(acc', n + w) && s + Bits(acc', n + w) == s + Bits(acc, n) + Bits(x, w)
  {
    hide Bits, Fits, BitOr, BitAnd, Shl, Mask;
    MaskedBits(x, w);
    BitsJoined(acc, BitAnd(x, Mask(w)), n, w);
    assert s + (Bits(acc, n) + Bits(x, w)) == s + Bits(acc, n) + Bits(x, w);
  }

  method MoveByte(out: Bytes, acc: nat, n: nat) returns (out': Bytes, acc': nat)
    requires n >= 8 && Fits(acc, n)
    ensures Fits(acc', n - 8) && Stream(out', 8) + Bits(acc', n - 8) == Stream(out, 8) + Bits(acc, n)
  {
    hide Bits, Fits, Stream, BitAnd, Shr, Mask;
    var b := BitAnd(acc, Mask(8));
    Take(acc, n, 8);
    ByteFits(b);
    StreamAdd(out, b, 8);
    out', acc' := out + [b], Shr(acc, 8);
    Associate(Stream(out, 8), Bits(b, 8), Bits(acc', n - 8));
  }

  method LastByte(out: Bytes, acc: nat, n: nat) returns (out': Bytes)
    requires 0 < n < 8 && Fits(acc, n)
    ensures Stream(out', 8) == Stream(out, 8) + Bits(acc, n) + Falses(8 - n)
  {
    hide Bits, Fits, Stream, BitAnd, Shr, Mask;
    var b := BitAnd(acc, Mask(8));
    MaskedBits(acc, 8);
    ByteFits(b);
    BitsCut(acc, n, 8 - n);
    ShrOfZero(acc, n);
    BitsOfZero(8 - n);
    StreamAdd(out, b, 8);
    out' := out + [b];
    Associate(Stream(out, 8), Bits(acc, n), Falses(8 - n));
  }

  lemma NothingLeft(s: seq<bool>, acc: nat)
    ensures s + Bits(acc, 0) == s + Falses(0)
  {
    assert Bits(acc, 0) == [] && Falses(0) == [];
  }

  // ---------------------------------------------------------------- unpacking

  datatype Unpacked = Values(values: seq<nat>) | Truncated

  /** What unpacking must find: values that fit, whose bits are the first of the data. */
  ghost predicate IsUnpacked(values: seq<nat>, data: Bytes, count: nat, w: nat) {
    && |values| == count && AllFit(values, w)
    && Times(count, w) <= |Stream(data, 8)| && Stream(values, w) == Stream(data, 8)[..Times(count, w)]
  }

  /** The values go into bytes, so they have at most eight bits. */
  method Unpack(data: Bytes, count: nat, w: nat) returns (r: Unpacked)
    requires 1 <= w <= 8
    ensures r.Truncated? <==> 8 * |data| < count * w
    ensures r.Values? ==> IsUnpacked(r.values, data, count, w)
  {
    hide Bits, Fits, Stream, BitOr, BitAnd, Shl, Shr, Mask;
    var values := new nat[count];
    var acc: nat, available: nat, offset: nat := 0, 0, 0;
    StartOfStream(w);
    StartOfStream(8);
    for j := 0 to |data|
      invariant offset <= count && Fits(acc, available) && (offset == count || available < w)
      invariant AllFit(values[..offset], w)
      invariant Stream(values[..offset], w) + Bits(acc, available) == Stream(data[..j], 8)
    {
      assert data[..j + 1] == data[..j] + [data[j]];
      StreamAdd(data[..j], data[j], 8);
      BytesFit(data[j..j + 1]);
      AddedByte(Stream(values[..offset], w), acc, available, data[j]);
      acc := BitOr(acc, Shl(data[j], available));
      available := available + 8;
      while available >= w && offset < count
        invariant offset <= count && Fits(acc, available)
        invariant AllFit(values[..offset], w)
        invariant Stream(values[..offset], w) + Bits(acc, available) == Stream(data[..j + 1], 8)
        decreases count - offset
      {
        Take(acc, available, w);
        TakeValue(values[..offset], acc, available, w);
        values[offset] := BitAnd(acc, Mask(w));
        assert values[..offset + 1] == values[..offset] + [values[offset]];
        acc, available, offset := Shr(acc, w), available - w, offset + 1;
      }
    }
    assert data[..|data|] == data;
    Outcome(values[..offset], acc, available, data, count, w);
    if offset != count {
      return Truncated;
    }
    r := Values(values[..]);
    assert values[..] == values[..offset];
  }

  lemma AddedByte(s: seq<bool>, acc: nat, n: nat, b: byte)
    requires Fits(acc, n)
    ensures Fits(BitOr(acc, Shl(b, n)), n + 8)
    ensures s + Bits(BitOr(acc, Shl(b, n)), n + 8) == s + Bits(acc, n) + Bits(b, 8)
  {
    hide Bits, Fits, BitOr, Shl;
    BytesFit([b]);
    assert Fits([b][0], 8);
    BitsJoined(acc, b, n, 8);
    Associate(s, Bits(acc, n), Bits(b, 8));
  }

  lemma TakeValue(values: seq<nat>, acc: nat, n: nat, w: nat)
    requires w <= n && Fits(acc, n) && AllFit(values, w)
    ensures var v := BitAnd(acc, Mask(w));
      && AllFit(values + [v], w)
      && Stream(values + [v], w) + Bits(Shr(acc, w), n - w) == Stream(values, w) + Bits(acc, n)
  {
    hide Bits, Fits, Stream, BitAnd, Shr, Mask;
    Take(acc, n, w);
    var v := BitAnd(acc, Mask(w));
    StreamAdd(values, v, w);
    Associate(Stream(values, w), Bits(v, w), Bits(Shr(acc, w), n - w));
  }

  lemma Outcome(values: seq<nat>, acc: nat, n: nat, data: Bytes, count: nat, w: nat)
    requires |values| <= count && (|values| == count || n < w)
    requires AllFit(values, w) && Stream(values, w) + Bits(acc, n) == Stream(data, 8)
    ensures |values| < count <==> 8 * |data| < count * w
    ensures |values| == count ==> IsUnpacked(values, data, count, w)
  {
    hide Bits, Fits, Stream;
    TimesIsProduct(|data|, 8);
    TimesIsProduct(count, w);
    assert Times(|values|, w) + n == Times(|data|, 8);
    if |values| < count {
      Bounds(|values|, count, w);
    } else {
      assert (Stream(values, w) + Bits(acc, n))[..Times(count, w)] == Stream(values, w);
    }
  }

  /** Unpacking what was packed gives back the values, whatever bytes follow. */
  lemma RoundTrip(xs: seq<nat>, w: nat, p: Bytes, trailing: Bytes, values: seq<nat>)
    requires AllFit(xs, w) && Packed(p, xs, w)
    requires IsUnpacked(values, p + trailing, |xs|, w)
    ensures values == xs
  {
    var pad: nat :| PackedWith(p, xs, w, pad);
    hide Bits, Fits, Stream;
    StreamConcat(p, trailing, 8);
    var n := Times(|xs|, w);
    assert (Stream(xs, w) + Falses(pad) + Stream(trailing, 8))[..n] == Stream(xs, w);
    StreamInjective(values, xs, w);
  }

  /** And it does not fail. */
  lemma NotTruncated(xs: seq<nat>, w: nat, p: Bytes, trailing: Bytes)
    requires Packed(p, xs, w)
    ensures 8 * |p + trailing| >= |xs| * w
  {
    PackedLength(p, xs, w);
  }
}
