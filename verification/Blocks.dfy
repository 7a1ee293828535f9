/** A flat buffer seen as consecutive blocks of one width, as the engine lays out rows, heads and
    the key/value cache. All reasoning about offsets is here. */
module Blocks {
  /** The product, by repeated addition: proofs about offsets then stay linear. */
  function Times(a: nat, b: nat): nat {
    if a == 0 then 0 else Times(a - 1, b) + b
  }

  lemma {:induction false} TimesIsProduct(a: nat, b: nat)
    ensures Times(a, b) == a * b
  {
    if a > 0 { TimesIsProduct(a - 1, b); }
  }

  lemma {:induction false} TimesGrows(a: nat, b: nat, w: nat)
    requires a <= b
    ensures Times(a, w) <= Times(b, w)
  {
    if a < b { TimesGrows(a, b - 1, w); }
  }

  lemma {:induction false} TimesSum(a: nat, b: nat, w: nat)
    ensures Times(a + b, w) == Times(a, w) + Times(b, w)
  {
    if b > 0 { TimesSum(a, b - 1, w); }
  }

  lemma {:induction false} TimesAssoc(a: nat, b: nat, c: nat)
    ensures Times(a, Times(b, c)) == Times(Times(a, b), c)
  {
    if a > 0 {
      TimesAssoc(a - 1, b, c);
      TimesSum(Times(a - 1, b), b, c);
    }
  }

  lemma Bounds(i: nat, n: nat, w: nat)
    requires i < n
    ensures Times(i, w) <= Times(i + 1, w) <= Times(n, w)
    ensures Times(i + 1, w) == Times(i, w) + w
  {
    TimesGrows(i + 1, n, w);
  }

  /** Distinct (head, position) pairs have distinct blocks in a per-head, per-position layout. */
  lemma Apart(a: nat, b: nat, i: nat, j: nat, m: nat)
    requires i < m && j < m && (a != b || i != j)
    ensures Times(a, m) + i != Times(b, m) + j
  {
    if a < b {
      Bounds(a, b, m);
    } else if b < a {
      Bounds(b, a, m);
    }
  }

  lemma Within(a: nat, n: nat, i: nat, m: nat)
    requires a < n && i < m
    ensures Times(a, m) + i < Times(n, m)
  {
    Bounds(a, n, m);
  }

  function Block<T>(s: seq<T>, i: nat, n: nat, w: nat): (b: seq<T>)
    requires i < n && |s| == Times(n, w)
    ensures |b| == w
  {
    Bounds(i, n, w);
    s[Times(i, w)..Times(i + 1, w)]
  }

  /** Where a block's elements stand in the buffer. */
  lemma BlockAt<T>(s: seq<T>, i: nat, n: nat, w: nat, k: nat)
    requires i < n && |s| == Times(n, w) && k < w
    ensures 0 <= i * w + k < |s| && Block(s, i, n, w)[k] == s[i * w + k]
  {
    Bounds(i, n, w);
    TimesIsProduct(i, w);
  }

  function SetBlock<T>(s: seq<T>, i: nat, n: nat, w: nat, row: seq<T>): (r: seq<T>)
    requires i < n && |s| == Times(n, w) && |row| == w
    ensures |r| == |s|
  {
    Bounds(i, n, w);
    s[..Times(i, w)] + row + s[Times(i + 1, w)..]
  }

  lemma SliceOfSlice<T>(s: seq<T>, a: nat, b: nat, c: nat, d: nat)
    requires a <= b <= |s| && c <= d <= b - a
    ensures s[a..b][c..d] == s[a + c..a + d]
  {
    var x, y := s[a..b][c..d], s[a + c..a + d];
    assert |x| == |y| && forall k :: 0 <= k < |x| ==> x[k] == y[k];
  }

  lemma SliceOfSet<T>(s: seq<T>, a: nat, row: seq<T>, c: nat, d: nat)
    requires a + |row| <= |s| && c <= d <= |s|
    requires d <= a || a + |row| <= c
    ensures (s[..a] + row + s[a + |row|..])[c..d] == s[c..d]
  {
    var r := s[..a] + row + s[a + |row|..];
    var x, y := r[c..d], s[c..d];
    assert |x| == |y| && forall k :: 0 <= k < |x| ==> x[k] == y[k];
  }

  /** Writing a block changes that block and no other. */
  lemma BlockOfSet<T>(s: seq<T>, i: nat, n: nat, w: nat, row: seq<T>, j: nat)
    requires i < n && j < n && |s| == Times(n, w) && |row| == w
    ensures Block(SetBlock(s, i, n, w, row), j, n, w) == if i == j then row else Block(s, j, n, w)
  {
    Bounds(i, n, w);
    Bounds(j, n, w);
    var a, c, d := Times(i, w), Times(j, w), Times(j + 1, w);
    if i == j {
      assert (s[..a] + row + s[a + |row|..])[a..a + |row|] == row;
    } else {
      if i < j { Bounds(i, j, w); } else { Bounds(j, i, w); }
      SliceOfSet(s, a, row, c, d);
    }
  }

  /** Cutting rows of `h` heads of width `w` out of a buffer, then a head out of a row, is cutting
      the head out directly. */
  lemma BlockOfBlock<T>(s: seq<T>, i: nat, n: nat, j: nat, h: nat, w: nat)
    requires i < n && j < h && |s| == Times(n, Times(h, w))
    ensures Times(i, h) + j < Times(n, h) && |s| == Times(Times(n, h), w)
    ensures Block(Block(s, i, n, Times(h, w)), j, h, w) == Block(s, Times(i, h) + j, Times(n, h), w)
  {
    Within(i, n, j, h);
    TimesAssoc(n, h, w);
    TimesAssoc(i, h, w);
    TimesSum(Times(i, h), j, w);
    Bounds(i, n, Times(h, w));
    Bounds(j, h, w);
    var o := Times(i, Times(h, w));
    SliceOfSlice(s, o, o + Times(h, w), Times(j, w), Times(j + 1, w));
  }

  lemma PositionIn(k: nat, n: nat, w: nat) returns (i: nat, o: nat)
    requires k < Times(n, w)
    ensures i < n && o < w && k == Times(i, w) + o
  {
    if k < Times(n - 1, w) {
      i, o := PositionIn(k, n - 1, w);
    } else {
      i, o := n - 1, k - Times(n - 1, w);
    }
  }

  lemma BlocksEqual<T>(s: seq<T>, t: seq<T>, n: nat, w: nat)
    requires |s| == Times(n, w) && |t| == Times(n, w)
    requires forall i :: 0 <= i < n ==> Block(s, i, n, w) == Block(t, i, n, w)
    ensures s == t
  {
    forall k | 0 <= k < |s| ensures s[k] == t[k] {
      var i, o := PositionIn(k, n, w);
      Bounds(i, n, w);
      assert Block(s, i, n, w)[o] == s[k];
      assert Block(t, i, n, w)[o] == t[k];
    }
  }

  lemma HeadOfSetHead<T>(s: seq<T>, i: nat, n: nat, j: nat, h: nat, w: nat, head: seq<T>, k: nat, m: nat)
    requires i < n && j < h && k < n && m < h && |s| == Times(n, Times(h, w)) && |head| == w
    ensures Times(i, h) + j < Times(n, h) && |s| == Times(Times(n, h), w)
    ensures var r, d := SetBlock(s, Times(i, h) + j, Times(n, h), w, head), Times(h, w);
      Block(Block(r, k, n, d), m, h, w) ==
        if k == i then Block(SetBlock(Block(s, i, n, d), j, h, w, head), m, h, w) else Block(Block(s, k, n, d), m, h, w)
  {
    hide *;
    BlockOfBlock(s, i, n, j, h, w);
    var r, d := SetBlock(s, Times(i, h) + j, Times(n, h), w, head), Times(h, w);
    BlockOfBlock(r, k, n, m, h, w);
    BlockOfBlock(s, k, n, m, h, w);
    BlockOfSet(s, Times(i, h) + j, Times(n, h), w, head, Times(k, h) + m);
    if k != i || m != j { Apart(k, i, m, j, h); }
    if k == i { BlockOfSet(Block(s, i, n, d), j, h, w, head, m); }
  }

  /** Writing one head's block changes that head of its row and no other row. */
  lemma RowOfSetHead<T>(s: seq<T>, i: nat, n: nat, j: nat, h: nat, w: nat, head: seq<T>, k: nat)
    requires i < n && j < h && k < n && |s| == Times(n, Times(h, w)) && |head| == w
    ensures Times(i, h) + j < Times(n, h) && |s| == Times(Times(n, h), w)
    ensures Block(SetBlock(s, Times(i, h) + j, Times(n, h), w, head), k, n, Times(h, w)) ==
      if k == i then SetBlock(Block(s, i, n, Times(h, w)), j, h, w, head) else Block(s, k, n, Times(h, w))
  {
    hide *;
    BlockOfBlock(s, i, n, j, h, w);
    var r, d := SetBlock(s, Times(i, h) + j, Times(n, h), w, head), Times(h, w);
    var want := if k == i then SetBlock(Block(s, i, n, d), j, h, w, head) else Block(s, k, n, d);
    forall m | 0 <= m < h ensures Block(Block(r, k, n, d), m, h, w) == Block(want, m, h, w) {
      HeadOfSetHead(s, i, n, j, h, w, head, k, m);
    }
    BlocksEqual(Block(r, k, n, d), want, h, w);
  }

  /** Rows laid side by side. */
  function Join<T>(rows: seq<seq<T>>, w: nat): (s: seq<T>)
    requires forall i :: 0 <= i < |rows| ==> |rows[i]| == w
    ensures |s| == Times(|rows|, w)
  {
    if rows == [] then [] else Join(rows[..|rows| - 1], w) + rows[|rows| - 1]
  }

  lemma {:induction false} BlockOfJoin<T>(rows: seq<seq<T>>, w: nat, i: nat)
    requires i < |rows| && forall k :: 0 <= k < |rows| ==> |rows[k]| == w
    ensures Block(Join(rows, w), i, |rows|, w) == rows[i]
  {
    var n := |rows|;
    var init := Join(rows[..n - 1], w);
    if i < n - 1 {
      BlockOfJoin(rows[..n - 1], w, i);
      Bounds(i, n - 1, w);
      assert (init + rows[n - 1])[Times(i, w)..Times(i + 1, w)] == init[Times(i, w)..Times(i + 1, w)];
    }
  }

  lemma JoinUnique<T>(s: seq<T>, rows: seq<seq<T>>, w: nat)
    requires |s| == Times(|rows|, w) && forall k :: 0 <= k < |rows| ==> |rows[k]| == w
    requires forall k :: 0 <= k < |rows| ==> Block(s, k, |rows|, w) == rows[k]
    ensures s == Join(rows, w)
  {
    forall k | 0 <= k < |rows| ensures Block(s, k, |rows|, w) == Block(Join(rows, w), k, |rows|, w) {
      BlockOfJoin(rows, w, k);
    }
    BlocksEqual(s, Join(rows, w), |rows|, w);
  }

  /** Writing one element changes that element of its block and no other block. */
  lemma BlockOfWrite<T>(s: seq<T>, i: nat, n: nat, w: nat, j: nat, v: T, k: nat)
    requires i < n && j < w && k < n && |s| == Times(n, w)
    ensures Times(i, w) + j < |s|
    ensures Block(s[Times(i, w) + j := v], k, n, w) ==
      if k == i then Block(s, i, n, w)[j := v] else Block(s, k, n, w)
  {
    Within(i, n, j, w);
    Bounds(i, n, w);
    var row := Block(s, i, n, w)[j := v];
    assert s[Times(i, w) + j := v] == SetBlock(s, i, n, w, row);
    BlockOfSet(s, i, n, w, row, k);
  }

  /** memcpy of one block of `src` over one block of `dst`. */
  method CopyBlock<T>(dst: array<T>, i: nat, n: nat, src: array<T>, j: nat, m: nat, w: nat)
    requires dst != src && i < n && j < m && dst.Length == Times(n, w) && src.Length == Times(m, w)
    modifies dst
    ensures dst[..] == SetBlock(old(dst[..]), i, n, w, Block(src[..], j, m, w))
  {
    Bounds(j, m, w);
    StoreBlock(dst, i, n, w, src[Times(j, w)..Times(j + 1, w)]);
  }

  /** Storing a computed row over one block. */
  method StoreBlock<T>(dst: array<T>, i: nat, n: nat, w: nat, row: seq<T>)
    requires i < n && dst.Length == Times(n, w) && |row| == w
    modifies dst
    ensures dst[..] == SetBlock(old(dst[..]), i, n, w, row)
  {
    Bounds(i, n, w);
    var at := Times(i, w);
    for k := 0 to w
      invariant forall p :: 0 <= p < dst.Length ==>
        dst[p] == if at <= p < at + k then row[p - at] else old(dst[p])
    {
      dst[at + k] := row[k];
    }
  }
}
