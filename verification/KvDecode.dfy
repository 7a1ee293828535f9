/** The engine's incremental decoder: flat activation buffers, a key/value cache per layer written
    in place, streamed experts, one prefill step and then one-token steps. */
module KvDecode {
  import opened Blocks
  import opened KvSpec
  import opened RecencyLru
  import opened SlotCache

  // ---------------------------------------------------------------- kernels over flat buffers

  /** y[S,O] = x[S,I] times the transpose of w[O,I]. Each output row depends on its own input row
      only, and not on how many rows are in the batch. */
  method Matmul(net: Net, y: array<Float>, x: array<Float>, w: Row, S: nat, I: nat, O: nat)
    requires y != x && y.Length == Times(S, O) && x.Length == Times(S, I) && |w| == Times(O, I)
    modifies y
    ensures forall s :: 0 <= s < S ==> Block(y[..], s, S, O) == net.MatVec(w, O, Block(x[..], s, S, I))
  {
    hide Block, SetBlock, Times;
    ghost var xv := x[..];
    for o := 0 to O
      invariant x[..] == xv
      invariant forall s, p :: 0 <= s < S && 0 <= p < o ==>
        Block(y[..], s, S, O)[p] == net.Dot(Block(xv, s, S, I), Block(w, p, O, I))
    {
      var wr := Block(w, o, O, I);
      ghost var done := y[..];
      for s := 0 to S
        invariant x[..] == xv
        invariant forall k, p :: 0 <= k < S && 0 <= p < O && p != o ==>
          Block(y[..], k, S, O)[p] == Block(done, k, S, O)[p]
        invariant forall k :: 0 <= k < s ==> Block(y[..], k, S, O)[o] == net.Dot(Block(xv, k, S, I), wr)
      {
        var xs := Block(x[..], s, S, I);
        var acc := net.zero;
        for i := 0 to I
          invariant acc == net.Dot(xs[..i], wr[..i])
        {
          assert xs[..i + 1][..i] == xs[..i] && wr[..i + 1][..i] == wr[..i];
          acc := net.add(acc, net.mul(xs[i], wr[i]));
        }
        assert xs[..I] == xs && wr[..I] == wr;
        Within(s, S, o, O);
        ghost var before := y[..];
        y[Times(s, O) + o] := acc;
        assert y[..] == before[Times(s, O) + o := acc];
        forall k | 0 <= k < S
          ensures Block(y[..], k, S, O) == if k == s then Block(before, s, S, O)[o := acc] else Block(before, k, S, O)
        {
          BlockOfWrite(before, s, S, O, o, acc, k);
        }
      }
    }
  }

  /** Normalises row `s` of a buffer and rotates each of its heads, in place. */
  method NormRope(net: Net, w: Row, q: array<Float>, s: nat, S: nat, pos: nat)
    requires net.Valid() && s < S && q.Length == Times(S, net.Hidden())
    modifies q
    ensures forall k :: 0 <= k < S ==>
      Block(q[..], k, S, net.Hidden()) ==
      if k == s then net.RopeHeads(net.norm(w, Block(old(q[..]), s, S, net.Hidden())), pos, net.heads)
      else Block(old(q[..]), k, S, net.Hidden())
  {
    hide Block, SetBlock, Times;
    var D := net.Hidden();
    var normed := net.norm(w, Block(q[..], s, S, D));
    ghost var q0 := q[..];
    StoreBlock(q, s, S, D, normed);
    forall k | 0 <= k < S ensures Block(q[..], k, S, D) == if k == s then normed else Block(q0, k, S, D) {
      BlockOfSet(q0, s, S, D, normed, k);
    }
    for h := 0 to net.heads
      invariant forall k :: 0 <= k < S ==>
        Block(q[..], k, S, D) ==
        if k == s then net.RopeHeads(normed, pos, h) else Block(q0, k, S, D)
    {
      ghost var before := q[..];
      BlockOfBlock(before, s, S, h, net.heads, net.headDim);
      var at, all := Times(s, net.heads) + h, Times(S, net.heads);
      var head := net.rope(Block(q[..], at, all, net.headDim), pos);
      StoreBlock(q, at, all, net.headDim, head);
      forall k | 0 <= k < S
        ensures Block(q[..], k, S, D) ==
          if k == s then net.RopeHeads(normed, pos, h + 1) else Block(q0, k, S, D)
      {
        RowOfSetHead(before, s, S, h, net.heads, net.headDim, head, k);
      }
    }
  }

  // ---------------------------------------------------------------- the key/value cache

  /** What a layer's buffer holds for head `h` at position `t`. */
  function KeyAt(net: Net, buf: Row, maxT: nat, h: nat, t: nat): Row
    requires |buf| == Times(Times(net.heads, maxT), net.headDim) && h < net.heads && t < maxT
  {
    Within(h, net.heads, t, maxT);
    Block(buf, Times(h, maxT) + t, Times(net.heads, maxT), net.headDim)
  }

  /** A layer's two buffers hold the keys and values of its normed input rows `xs`. */
  ghost predicate LayerCached(net: Net, l: Layer, kbuf: Row, vbuf: Row, maxT: nat, xs: seq<Row>) {
    && net.Valid() && net.ValidLayer(l) && net.Rows(xs)
    && |kbuf| == |vbuf| == Times(Times(net.heads, maxT), net.headDim)
    && |xs| <= maxT
    && forall h, t :: 0 <= h < net.heads && 0 <= t < |xs| ==>
         && KeyAt(net, kbuf, maxT, h, t) == net.HeadKeys(l, xs, h)[t]
         && KeyAt(net, vbuf, maxT, h, t) == net.HeadValues(l, xs, h)[t]
  }

  lemma KeyAtAfter(net: Net, buf: Row, maxT: nat, h: nat, t: nat, row: Row, h': nat, t': nat)
    requires |buf| == Times(Times(net.heads, maxT), net.headDim) && h < net.heads && t < maxT
    requires h' < net.heads && t' < maxT && |row| == net.headDim
    ensures Times(h, maxT) + t < Times(net.heads, maxT)
    ensures KeyAt(net, SetBlock(buf, Times(h, maxT) + t, Times(net.heads, maxT), net.headDim, row), maxT, h', t') ==
      if h == h' && t == t' then row else KeyAt(net, buf, maxT, h', t')
  {
    hide Block, SetBlock, Times;
    Within(h, net.heads, t, maxT);
    Within(h', net.heads, t', maxT);
    if h != h' || t != t' { Apart(h, h', t, t', maxT); }
    BlockOfSet(buf, Times(h, maxT) + t, Times(net.heads, maxT), net.headDim, row, Times(h', maxT) + t');
  }

  /** A buffer with one (head, position) rewritten and all others as before. */
  ghost predicate OneWrite(net: Net, before: Row, after: Row, maxT: nat, h: nat, t: nat, row: Row) {
    && |before| == |after| == Times(Times(net.heads, maxT), net.headDim)
    && forall h', t' :: 0 <= h' < net.heads && 0 <= t' < maxT ==>
         KeyAt(net, after, maxT, h', t') ==
         if h' == h && t' == t then row else KeyAt(net, before, maxT, h', t')
  }

  lemma SetIsOneWrite(net: Net, before: Row, maxT: nat, h: nat, t: nat, row: Row)
    requires |before| == Times(Times(net.heads, maxT), net.headDim) && h < net.heads && t < maxT
    requires |row| == net.headDim
    ensures Times(h, maxT) + t < Times(net.heads, maxT)
    ensures var after := SetBlock(before, Times(h, maxT) + t, Times(net.heads, maxT), net.headDim, row);
      OneWrite(net, before, after, maxT, h, t, row)
  {
    Within(h, net.heads, t, maxT);
    var after := SetBlock(before, Times(h, maxT) + t, Times(net.heads, maxT), net.headDim, row);
    forall h', t' | 0 <= h' < net.heads && 0 <= t' < maxT
      ensures KeyAt(net, after, maxT, h', t') ==
        if h' == h && t' == t then row else KeyAt(net, before, maxT, h', t')
    {
      KeyAtAfter(net, before, maxT, h, t, row, h', t');
    }
  }

  /** Rows `0..s` are in the cache at positions from `pos`, and the first `h` heads of row `s`;
      every other (head, position) is as before. */
  ghost predicate Wrote(net: Net, before: Row, after: Row, maxT: nat, rows: Row, S: nat, pos: nat, s: nat, h: nat) {
    && |before| == |after| == Times(Times(net.heads, maxT), net.headDim)
    && |rows| == Times(S, net.Hidden())
    && forall h', t' :: 0 <= h' < net.heads && 0 <= t' < maxT ==>
         KeyAt(net, after, maxT, h', t') ==
         if pos <= t' < pos + S && (t' < pos + s || (t' == pos + s && h' < h))
         then Block(Block(rows, t' - pos, S, net.Hidden()), h', net.heads, net.headDim)
         else KeyAt(net, before, maxT, h', t')
  }

  lemma WroteHead(net: Net, before: Row, mid: Row, after: Row, maxT: nat, rows: Row, S: nat, pos: nat, s: nat, h: nat)
    requires Wrote(net, before, mid, maxT, rows, S, pos, s, h) && s < S && h < net.heads
    requires OneWrite(net, mid, after, maxT, h, pos + s,
               Block(Block(rows, s, S, net.Hidden()), h, net.heads, net.headDim))
    ensures Wrote(net, before, after, maxT, rows, S, pos, s, h + 1)
  {
  }

  lemma WroteRow(net: Net, before: Row, after: Row, maxT: nat, rows: Row, S: nat, pos: nat, s: nat)
    requires Wrote(net, before, after, maxT, rows, S, pos, s, net.heads)
    ensures Wrote(net, before, after, maxT, rows, S, pos, s + 1, 0)
  {
  }

  /** Copies one head of row `s` of `rows` into a cache buffer at position `t`. */
  method WriteHead(net: Net, buf: array<Float>, maxT: nat, h: nat, t: nat, rows: array<Float>, s: nat, S: nat)
    requires buf != rows && h < net.heads && t < maxT && s < S
    requires buf.Length == Times(Times(net.heads, maxT), net.headDim)
    requires rows.Length == Times(S, net.Hidden())
    modifies buf
    ensures OneWrite(net, old(buf[..]), buf[..], maxT, h, t,
              Block(Block(rows[..], s, S, net.Hidden()), h, net.heads, net.headDim))
  {
    hide Block, SetBlock, Times;
    ghost var before, rv := buf[..], rows[..];
    Within(h, net.heads, t, maxT);
    BlockOfBlock(rv, s, S, h, net.heads, net.headDim);
    var at, from := Times(h, maxT) + t, Times(s, net.heads) + h;
    ghost var row := Block(Block(rv, s, S, net.Hidden()), h, net.heads, net.headDim);
    CopyBlock(buf, at, Times(net.heads, maxT), rows, from, Times(S, net.heads), net.headDim);
    SetIsOneWrite(net, before, maxT, h, t, row);
    assert rows[..] == rv;
  }

  /** Writes the new rows' keys and values at positions `pos..pos+S`. */
  method WriteKv(net: Net, kbuf: array<Float>, vbuf: array<Float>, maxT: nat,
                 k: array<Float>, vv: array<Float>, S: nat, pos: nat)
    requires kbuf != vbuf && kbuf !in {k, vv} && vbuf !in {k, vv} && pos + S <= maxT
    requires kbuf.Length == vbuf.Length == Times(Times(net.heads, maxT), net.headDim)
    requires k.Length == vv.Length == Times(S, net.Hidden())
    modifies kbuf, vbuf
    ensures Wrote(net, old(kbuf[..]), kbuf[..], maxT, k[..], S, pos, S, 0)
    ensures Wrote(net, old(vbuf[..]), vbuf[..], maxT, vv[..], S, pos, S, 0)
  {
    ghost var kv, vvv, kb, vb := k[..], vv[..], kbuf[..], vbuf[..];
    for s := 0 to S
      invariant k[..] == kv && vv[..] == vvv
      invariant Wrote(net, kb, kbuf[..], maxT, kv, S, pos, s, 0)
      invariant Wrote(net, vb, vbuf[..], maxT, vvv, S, pos, s, 0)
    {
      for h := 0 to net.heads
        invariant k[..] == kv && vv[..] == vvv
        invariant Wrote(net, kb, kbuf[..], maxT, kv, S, pos, s, h)
        invariant Wrote(net, vb, vbuf[..], maxT, vvv, S, pos, s, h)
      {
        ghost var km, vm := kbuf[..], vbuf[..];
        WriteHead(net, kbuf, maxT, h, pos + s, k, s, S);
        WriteHead(net, vbuf, maxT, h, pos + s, vv, s, S);
        WroteHead(net, kb, km, kbuf[..], maxT, kv, S, pos, s, h);
        WroteHead(net, vb, vm, vbuf[..], maxT, vvv, S, pos, s, h);
      }
      WroteRow(net, kb, kbuf[..], maxT, kv, S, pos, s);
      WroteRow(net, vb, vbuf[..], maxT, vvv, S, pos, s);
    }
  }

  // ---------------------------------------------------------------- attention

  /** The keys (or values) of head `h` at positions `0..n` of a cache buffer. */
  ghost function CachedHead(net: Net, buf: Row, maxT: nat, h: nat, n: nat): (r: seq<Row>)
    requires |buf| == Times(Times(net.heads, maxT), net.headDim) && h < net.heads && n <= maxT
    ensures |r| == n && forall t :: 0 <= t < n ==> |r[t]| == net.headDim
  {
    seq(n, t requires 0 <= t < n => KeyAt(net, buf, maxT, h, t))
  }

  /** One query head attends to positions `0..pos` of the cache. */
  method HeadAttend(net: Net, qv: Row, kbuf: array<Float>, vbuf: array<Float>, maxT: nat, h: nat, pos: nat)
    returns (cx: Row)
    requires net.Valid() && |qv| == net.headDim && h < net.heads && pos < maxT
    requires kbuf.Length == vbuf.Length == Times(Times(net.heads, maxT), net.headDim)
    ensures cx == net.AttendHead(qv, CachedHead(net, kbuf[..], maxT, h, pos + 1),
                                 CachedHead(net, vbuf[..], maxT, h, pos + 1))
  {
    hide Block, SetBlock, Times;
    var H, hd := net.heads, net.headDim;
    ghost var ks, vs := CachedHead(net, kbuf[..], maxT, h, pos + 1), CachedHead(net, vbuf[..], maxT, h, pos + 1);
    var sc := HeadScores(net, qv, kbuf, maxT, h, pos);
    var weights := net.softmax(sc[..]);
    hide Net.Scores;
    cx := net.Zeros(hd);
    for t := 0 to pos + 1
      invariant |cx| == hd && cx == net.Mix(weights[..t], vs[..t], hd)
    {
      Within(h, H, t, maxT);
      var vrow := Block(vbuf[..], Times(h, maxT) + t, Times(H, maxT), hd);
      assert vrow == vs[t];
      assert weights[..t + 1][..t] == weights[..t] && vs[..t + 1][..t] == vs[..t];
      cx := net.Axpy(weights[t], vrow, cx);
    }
    assert weights[..pos + 1] == weights && vs[..pos + 1] == vs;
  }

  method HeadScores(net: Net, qv: Row, kbuf: array<Float>, maxT: nat, h: nat, pos: nat) returns (sc: array<Float>)
    requires net.Valid() && |qv| == net.headDim && h < net.heads && pos < maxT
    requires kbuf.Length == Times(Times(net.heads, maxT), net.headDim)
    ensures fresh(sc) && sc[..] == net.Scores(qv, CachedHead(net, kbuf[..], maxT, h, pos + 1))
  {
    hide Block, SetBlock, Times, Net.Dot;
    ghost var ks := CachedHead(net, kbuf[..], maxT, h, pos + 1);
    sc := new Float[pos + 1];
    for t := 0 to pos + 1
      invariant forall j :: 0 <= j < t ==> sc[j] == net.Scores(qv, ks)[j]
    {
      Within(h, net.heads, t, maxT);
      var kv := Block(kbuf[..], Times(h, maxT) + t, Times(net.heads, maxT), net.headDim);
      assert kv == ks[t];
      sc[t] := net.mul(net.Dot(qv, kv), net.scale);
    }
  }

  /** Stores head `h` of row `s`. */
  method StoreHead(net: Net, ctx: array<Float>, s: nat, S: nat, h: nat, cx: Row)
    requires s < S && h < net.heads && |cx| == net.headDim && ctx.Length == Times(S, net.Hidden())
    modifies ctx
    ensures forall k :: 0 <= k < S ==>
      Block(ctx[..], k, S, net.Hidden()) ==
      if k == s then SetBlock(Block(old(ctx[..]), s, S, net.Hidden()), h, net.heads, net.headDim, cx)
      else Block(old(ctx[..]), k, S, net.Hidden())
  {
    hide Block, SetBlock, Times;
    ghost var before := ctx[..];
    BlockOfBlock(before, s, S, h, net.heads, net.headDim);
    StoreBlock(ctx, Times(s, net.heads) + h, Times(S, net.heads), net.headDim, cx);
    forall k | 0 <= k < S
      ensures Block(ctx[..], k, S, net.Hidden()) ==
        if k == s then SetBlock(Block(before, s, S, net.Hidden()), h, net.heads, net.headDim, cx)
        else Block(before, k, S, net.Hidden())
    {
      RowOfSetHead(before, s, S, h, net.heads, net.headDim, cx, k);
    }
  }

  lemma KvExtended(net: Net, l: Layer, kbuf: Row, vbuf: Row, kbuf': Row, vbuf': Row, maxT: nat,
                   k: Row, vv: Row, S: nat, pos: nat, xs: seq<Row>)
    requires net.Valid() && net.ValidLayer(l) && net.Rows(xs) && |xs| == pos + S <= maxT
    requires LayerCached(net, l, kbuf, vbuf, maxT, xs[..pos])
    requires Wrote(net, kbuf, kbuf', maxT, k, S, pos, S, 0) && Wrote(net, vbuf, vbuf', maxT, vv, S, pos, S, 0)
    requires forall s :: 0 <= s < S ==> Block(k, s, S, net.Hidden()) == net.KeyRow(l, xs[pos + s], pos + s)
    requires forall s :: 0 <= s < S ==> Block(vv, s, S, net.Hidden()) == net.ValueRow(l, xs[pos + s])
    ensures LayerCached(net, l, kbuf', vbuf', maxT, xs)
  {
    forall h, t | 0 <= h < net.heads && 0 <= t < |xs|
      ensures KeyAt(net, kbuf', maxT, h, t) == net.HeadKeys(l, xs, h)[t]
      ensures KeyAt(net, vbuf', maxT, h, t) == net.HeadValues(l, xs, h)[t]
    {
      if t < pos {
        assert xs[..pos][t] == xs[t];
        assert KeyAt(net, kbuf, maxT, h, t) == net.HeadKeys(l, xs[..pos], h)[t];
        assert KeyAt(net, vbuf, maxT, h, t) == net.HeadValues(l, xs[..pos], h)[t];
      } else {
        assert Block(k, t - pos, S, net.Hidden()) == net.KeyRow(l, xs[pos + (t - pos)], t);
        assert Block(vv, t - pos, S, net.Hidden()) == net.ValueRow(l, xs[pos + (t - pos)]);
      }
    }
  }

  /** With the cache holding `xs`, what a query at position `n - 1` sees are the keys and values of
      the first `n` rows: the cache never lends it a later one. */
  lemma SeesPrefix(net: Net, l: Layer, kbuf: Row, vbuf: Row, maxT: nat, xs: seq<Row>, h: nat, n: nat)
    requires LayerCached(net, l, kbuf, vbuf, maxT, xs) && h < net.heads && n <= |xs|
    ensures CachedHead(net, kbuf, maxT, h, n) == net.HeadKeys(l, xs[..n], h)
    ensures CachedHead(net, vbuf, maxT, h, n) == net.HeadValues(l, xs[..n], h)
  {
    forall t | 0 <= t < n
      ensures CachedHead(net, kbuf, maxT, h, n)[t] == net.HeadKeys(l, xs[..n], h)[t]
      ensures CachedHead(net, vbuf, maxT, h, n)[t] == net.HeadValues(l, xs[..n], h)[t]
    {
      assert KeyAt(net, kbuf, maxT, h, t) == net.HeadKeys(l, xs, h)[t];
      assert KeyAt(net, vbuf, maxT, h, t) == net.HeadValues(l, xs, h)[t];
      assert xs[..n][t] == xs[t];
    }
  }

  lemma CachedPrefix(net: Net, l: Layer, kbuf: Row, vbuf: Row, maxT: nat, xs: seq<Row>, n: nat)
    requires LayerCached(net, l, kbuf, vbuf, maxT, xs) && n <= |xs|
    ensures LayerCached(net, l, kbuf, vbuf, maxT, xs[..n])
  {
    hide KeyAt, Block, Times;
    forall h, t | 0 <= h < net.heads && 0 <= t < n
      ensures net.HeadKeys(l, xs[..n], h)[t] == net.HeadKeys(l, xs, h)[t]
      ensures net.HeadValues(l, xs[..n], h)[t] == net.HeadValues(l, xs, h)[t]
    {
      assert xs[..n][t] == xs[t];
    }
  }

  lemma ContextOfQuery(net: Net, l: Layer, xs: seq<Row>, h: nat, q: Row)
    requires net.Valid() && net.ValidLayer(l) && net.Rows(xs) && xs != [] && h < net.heads
    requires q == Block(net.QueryRow(l, xs[|xs| - 1], |xs| - 1), h, net.heads, net.headDim)
    ensures net.AttendHead(q, net.HeadKeys(l, xs, h), net.HeadValues(l, xs, h)) == net.HeadContext(l, xs, h)
  {
  }

  /** The context vectors of all heads below `h`, and of head `h` for the rows below `s`, are in place. */
  ghost predicate ContextDone(net: Net, l: Layer, ctx: Row, S: nat, pos: nat, xs: seq<Row>, h: nat, s: nat)
    requires net.Valid() && net.ValidLayer(l) && net.Rows(xs) && |xs| == pos + S
  {
    && |ctx| == Times(S, net.Hidden())
    && forall k, j :: 0 <= k < S && 0 <= j < net.heads && (j < h || (j == h && k < s)) ==>
         Block(Block(ctx, k, S, net.Hidden()), j, net.heads, net.headDim)
         == net.HeadContext(l, xs[..pos + k + 1], j)
  }

  lemma ContextStep(net: Net, l: Layer, before: Row, after: Row, S: nat, pos: nat, xs: seq<Row>, h: nat, s: nat)
    requires net.Valid() && net.ValidLayer(l) && net.Rows(xs) && |xs| == pos + S
    requires s < S && h < net.heads && |after| == Times(S, net.Hidden())
    requires ContextDone(net, l, before, S, pos, xs, h, s)
    requires forall k :: 0 <= k < S ==>
      Block(after, k, S, net.Hidden()) ==
      if k == s then
        SetBlock(Block(before, s, S, net.Hidden()), h, net.heads, net.headDim, net.HeadContext(l, xs[..pos + s + 1], h))
      else Block(before, k, S, net.Hidden())
    ensures ContextDone(net, l, after, S, pos, xs, h, s + 1)
  {
    forall k, j | 0 <= k < S && 0 <= j < net.heads && (j < h || (j == h && k < s + 1))
      ensures Block(Block(after, k, S, net.Hidden()), j, net.heads, net.headDim)
        == net.HeadContext(l, xs[..pos + k + 1], j)
    {
      if k == s {
        BlockOfSet(Block(before, s, S, net.Hidden()), h, net.heads, net.headDim,
                   net.HeadContext(l, xs[..pos + s + 1], h), j);
      }
    }
  }

  lemma ContextFinished(net: Net, l: Layer, ctx: Row, S: nat, pos: nat, xs: seq<Row>, s: nat)
    requires net.Valid() && net.ValidLayer(l) && net.Rows(xs) && |xs| == pos + S && s < S
    requires ContextDone(net, l, ctx, S, pos, xs, net.heads, 0)
    ensures Block(ctx, s, S, net.Hidden()) == net.ContextRow(l, xs[..pos + s + 1])
  {
    var row, upTo := Block(ctx, s, S, net.Hidden()), xs[..pos + s + 1];
    var rows := seq(net.heads, h requires 0 <= h < net.heads => net.HeadContext(l, upTo, h));
    JoinUnique(row, rows, net.headDim);
  }

  /** The context of head `h` of new row `s`. */
  method OneContext(net: Net, l: Layer, q: array<Float>, kbuf: array<Float>, vbuf: array<Float>, maxT: nat,
                    s: nat, S: nat, h: nat, pos: nat, ghost xs: seq<Row>) returns (cx: Row)
    requires net.Valid() && net.ValidLayer(l) && net.Rows(xs) && |xs| == pos + S && s < S && h < net.heads
    requires q.Length == Times(S, net.Hidden())
    requires LayerCached(net, l, kbuf[..], vbuf[..], maxT, xs)
    requires Block(q[..], s, S, net.Hidden()) == net.QueryRow(l, xs[pos + s], pos + s)
    ensures cx == net.HeadContext(l, xs[..pos + s + 1], h)
  {
    hide Block, SetBlock, Times;
    BlockOfBlock(q[..], s, S, h, net.heads, net.headDim);
    var head := Block(q[..], Times(s, net.heads) + h, Times(S, net.heads), net.headDim);
    cx := HeadAttend(net, head, kbuf, vbuf, maxT, h, pos + s);
    SeesPrefix(net, l, kbuf[..], vbuf[..], maxT, xs, h, pos + s + 1);
    ghost var upTo := xs[..pos + s + 1];
    assert upTo[pos + s] == xs[pos + s];
    ContextOfQuery(net, l, upTo, h, head);
  }

  /** The context rows of the new tokens, from the cache that already holds their keys. */
  method Contexts(net: Net, l: Layer, q: array<Float>, kbuf: array<Float>, vbuf: array<Float>, maxT: nat,
                  ctx: array<Float>, S: nat, pos: nat, ghost xs: seq<Row>)
    requires net.Valid() && net.ValidLayer(l) && net.Rows(xs) && |xs| == pos + S
    requires ctx !in {q, kbuf, vbuf} && q.Length == ctx.Length == Times(S, net.Hidden())
    requires LayerCached(net, l, kbuf[..], vbuf[..], maxT, xs)
    requires forall s :: 0 <= s < S ==> Block(q[..], s, S, net.Hidden()) == net.QueryRow(l, xs[pos + s], pos + s)
    modifies ctx
    ensures forall s :: 0 <= s < S ==> Block(ctx[..], s, S, net.Hidden()) == net.ContextRow(l, xs[..pos + s + 1])
  {
    ghost var qv, kv, vv := q[..], kbuf[..], vbuf[..];
    for h := 0 to net.heads
      invariant q[..] == qv && kbuf[..] == kv && vbuf[..] == vv
      invariant ContextDone(net, l, ctx[..], S, pos, xs, h, 0)
    {
      for s := 0 to S
        invariant q[..] == qv && kbuf[..] == kv && vbuf[..] == vv
        invariant ContextDone(net, l, ctx[..], S, pos, xs, h, s)
      {
        var cx := OneContext(net, l, q, kbuf, vbuf, maxT, s, S, h, pos, xs);
        ghost var before := ctx[..];
        StoreHead(net, ctx, s, S, h, cx);
        ContextStep(net, l, before, ctx[..], S, pos, xs, h, s);
      }
    }
    forall s | 0 <= s < S
      ensures Block(ctx[..], s, S, net.Hidden()) == net.ContextRow(l, xs[..pos + s + 1])
    {
      ContextFinished(net, l, ctx[..], S, pos, xs, s);
    }
  }

  /** Attention of the `S` new tokens at positions `pos..`, whose normed rows are in `x`. If the
      cache holds the earlier rows of the stream `xs`, it ends up holding all of them, and each
      output row is the one attention gives over its whole prefix. */
  method Attention(net: Net, l: Layer, kbuf: array<Float>, vbuf: array<Float>, maxT: nat,
                   x: array<Float>, S: nat, pos: nat, out: array<Float>, ghost xs: seq<Row>)
    requires net.Valid() && net.ValidLayer(l) && net.Rows(xs) && |xs| == pos + S <= maxT
    requires kbuf != vbuf && x !in {kbuf, vbuf} && out !in {kbuf, vbuf, x}
    requires x.Length == out.Length == Times(S, net.Hidden())
    requires forall s :: 0 <= s < S ==> Block(x[..], s, S, net.Hidden()) == xs[pos + s]
    requires LayerCached(net, l, kbuf[..], vbuf[..], maxT, xs[..pos])
    modifies kbuf, vbuf, out
    ensures LayerCached(net, l, kbuf[..], vbuf[..], maxT, xs)
    ensures forall s :: 0 <= s < S ==> Block(out[..], s, S, net.Hidden()) == net.AttentionRow(l, xs[..pos + s + 1])
  {
    hide Block, SetBlock, Times, Net.RopeHeads, Net.ContextRow, Net.MatVec;
    var D := net.Hidden();
    ghost var xv, kb, vb := x[..], kbuf[..], vbuf[..];
    var q, k, vv := new Float[Times(S, D)], new Float[Times(S, D)], new Float[Times(S, D)];
    Matmul(net, q, x, l.q, S, D, D);
    Matmul(net, k, x, l.k, S, D, D);
    Matmul(net, vv, x, l.v, S, D, D);
    RotateAll(net, l.qn, q, S, pos);
    RotateAll(net, l.kn, k, S, pos);
    WriteKv(net, kbuf, vbuf, maxT, k, vv, S, pos);
    KvExtended(net, l, kb, vb, kbuf[..], vbuf[..], maxT, k[..], vv[..], S, pos, xs);
    var ctx := new Float[Times(S, D)];
    Contexts(net, l, q, kbuf, vbuf, maxT, ctx, S, pos, xs);
    Matmul(net, out, ctx, l.o, S, D, D);
  }

  /** Normalises and rotates every row of a buffer of new queries or keys. */
  method RotateAll(net: Net, w: Row, q: array<Float>, S: nat, pos: nat)
    requires net.Valid() && q.Length == Times(S, net.Hidden())
    modifies q
    ensures forall s :: 0 <= s < S ==>
      Block(q[..], s, S, net.Hidden())
      == net.RopeHeads(net.norm(w, Block(old(q[..]), s, S, net.Hidden())), pos + s, net.heads)
  {
    hide Block, SetBlock, Times;
    ghost var q0 := q[..];
    for s := 0 to S
      invariant forall j :: 0 <= j < s ==>
        Block(q[..], j, S, net.Hidden())
        == net.RopeHeads(net.norm(w, Block(q0, j, S, net.Hidden())), pos + j, net.heads)
      invariant forall j :: s <= j < S ==> Block(q[..], j, S, net.Hidden()) == Block(q0, j, S, net.Hidden())
    {
      NormRope(net, w, q, s, S, pos + s);
    }
  }

  // ---------------------------------------------------------------- experts

  /** One routed row: fetch each expert, run it, accumulate into output row `s`. */
  method MoeRowInto(net: Net, store: ExpertStore<Weights>, layer: nat, xs: Row, picks: seq<(int, Float)>,
                    out: array<Float>, s: nat, S: nat, ghost items: seq<Entry<int, Weights>>, ghost trace: seq<int>)
    requires net.Valid() && store.Valid() && layer < |store.cache| && store.load == net.load
    requires s < S && |xs| == net.Hidden() && out.Length == Times(S, net.Hidden())
    requires out !in store.repr
    requires store.Items(layer) == AccessAll(items, store.cache[layer].slots.Length, store.Loader(layer), trace)
    modifies store.repr, out
    ensures store.Valid()
    ensures store.Items(layer) ==
      AccessAll(items, store.cache[layer].slots.Length, store.Loader(layer), trace + Net.Eids(picks))
    ensures forall k :: 0 <= k < S ==>
      Block(out[..], k, S, net.Hidden()) ==
      if k == s then net.MoeTo(layer, xs, picks) else Block(old(out[..]), k, S, net.Hidden())
  {
    hide Block, SetBlock, Times, AccessAll, Access, Fits;
    var D, cap := net.Hidden(), store.cache[layer].slots.Length;
    ghost var o0 := out[..];
    var acc := net.Zeros(D);
    StoreBlock(out, s, S, D, acc);
    RowStored(o0, s, S, D, acc);
    assert trace + Net.Eids(picks[..0]) == trace;
    for kk := 0 to |picks|
      invariant store.Valid()
      invariant store.Items(layer) == AccessAll(items, cap, store.Loader(layer), trace + Net.Eids(picks[..kk]))
      invariant forall k :: 0 <= k < S ==>
        Block(out[..], k, S, D) == if k == s then net.MoeTo(layer, xs, picks[..kk]) else Block(o0, k, S, D)
    {
      var (eid, w) := picks[kk];
      assert picks[..kk + 1][..kk] == picks[..kk];
      ghost var sofar := trace + Net.Eids(picks[..kk]);
      assert trace + Net.Eids(picks[..kk + 1]) == sofar + [eid];
      AccessAllStep(items, cap, store.Loader(layer), sofar, eid);
      var i := store.ExpertGet(layer, eid);
      var y := net.expert(store.cache[layer].slots[i].weights, xs);
      ghost var before := out[..];
      var row := net.Axpy(w, y, Block(out[..], s, S, D));
      StoreBlock(out, s, S, D, row);
      RowStored(before, s, S, D, row);
    }
    assert picks[..|picks|] == picks;
  }

  lemma RowStored(buf: Row, s: nat, S: nat, D: nat, row: Row)
    requires s < S && |buf| == Times(S, D) && |row| == D
    ensures forall k :: 0 <= k < S ==>
      Block(SetBlock(buf, s, S, D, row), k, S, D) == if k == s then row else Block(buf, k, S, D)
  {
    forall k | 0 <= k < S
      ensures Block(SetBlock(buf, s, S, D, row), k, S, D) == if k == s then row else Block(buf, k, S, D)
    {
      BlockOfSet(buf, s, S, D, row, k);
    }
  }

  method GateLogits(net: Net, l: Layer, x: array<Float>, S: nat, ghost xs: seq<Row>) returns (logits: array<Float>)
    requires net.Valid() && net.ValidLayer(l) && net.Rows(xs) && |xs| == S && x.Length == Times(S, net.Hidden())
    requires forall s :: 0 <= s < S ==> Block(x[..], s, S, net.Hidden()) == xs[s]
    ensures fresh(logits) && logits.Length == Times(S, net.experts)
    ensures forall s :: 0 <= s < S ==>
      Block(logits[..], s, S, net.experts) == net.MatVec(l.gate, net.experts, xs[s])
  {
    logits := new Float[Times(S, net.experts)];
    Matmul(net, logits, x, l.gate, S, net.Hidden(), net.experts);
  }

  lemma RoutedStep(net: Net, l: Layer, xs: seq<Row>, s: nat)
    requires net.Valid() && net.ValidLayer(l) && net.Rows(xs) && s < |xs|
    ensures net.Routed(l, xs[..s + 1]) ==
      net.Routed(l, xs[..s]) + Net.Eids(net.route(net.MatVec(l.gate, net.experts, xs[s])))
  {
    assert xs[..s + 1][..s] == xs[..s];
  }

  /** The mixture of experts on `S` rows. The output does not depend on the cache; the layer's
      recency list takes one access per routed expert, in routing order. */
  method Moe(net: Net, store: ExpertStore<Weights>, layer: nat, l: Layer, x: array<Float>, S: nat, out: array<Float>,
             ghost xs: seq<Row>)
    requires net.Valid() && net.ValidLayer(l) && net.Rows(xs) && |xs| == S
    requires store.Valid() && layer < |store.cache| && store.load == net.load
    requires x != out && x !in store.repr && out !in store.repr
    requires x.Length == out.Length == Times(S, net.Hidden())
    requires forall s :: 0 <= s < S ==> Block(x[..], s, S, net.Hidden()) == xs[s]
    modifies store.repr, out
    ensures store.Valid()
    ensures store.Items(layer) ==
      AccessAll(old(store.Items(layer)), store.cache[layer].slots.Length, store.Loader(layer), net.Routed(l, xs))
    ensures forall s :: 0 <= s < S ==> Block(out[..], s, S, net.Hidden()) == net.MoeRow(layer, l, xs[s])
  {
    hide Block, SetBlock, Times;
    ghost var items, cap := store.Items(layer), store.cache[layer].slots.Length;
    var logits := GateLogits(net, l, x, S, xs);
    ghost var lg, xv := logits[..], x[..];
    for s := 0 to S
      invariant store.Valid() && logits[..] == lg && x[..] == xv
      invariant store.Items(layer) == AccessAll(items, cap, store.Loader(layer), net.Routed(l, xs[..s]))
      invariant forall k :: 0 <= k < s ==> Block(out[..], k, S, net.Hidden()) == net.MoeRow(layer, l, xs[k])
    {
      var picks := net.route(Block(logits[..], s, S, net.experts));
      RoutedStep(net, l, xs, s);
      MoeRowInto(net, store, layer, Block(x[..], s, S, net.Hidden()), picks, out, s, S, items, net.Routed(l, xs[..s]));
    }
    assert xs[..S] == xs;
  }

  // ---------------------------------------------------------------- one step of the model

  /** x += y, elementwise over a whole buffer of rows. */
  method AddInto(net: Net, x: array<Float>, y: array<Float>, S: nat, D: nat)
    requires x != y && x.Length == y.Length == Times(S, D)
    modifies x
    ensures forall s :: 0 <= s < S ==>
      Block(x[..], s, S, D) == net.AddRows(Block(old(x[..]), s, S, D), Block(y[..], s, S, D))
  {
    hide Times;
    for j := 0 to x.Length
      invariant forall i :: 0 <= i < x.Length ==>
        x[i] == if i < j then net.add(old(x[i]), y[i]) else old(x[i])
    {
      x[j] := net.add(x[j], y[j]);
    }
    forall s | 0 <= s < S
      ensures Block(x[..], s, S, D) == net.AddRows(Block(old(x[..]), s, S, D), Block(y[..], s, S, D))
    {
      Bounds(s, S, D);
    }
  }

  /** Normalises every row of `x` into `out`. */
  method NormInto(net: Net, w: Row, x: array<Float>, out: array<Float>, S: nat)
    requires net.Valid() && x != out && x.Length == out.Length == Times(S, net.Hidden())
    modifies out
    ensures forall s :: 0 <= s < S ==>
      Block(out[..], s, S, net.Hidden()) == net.norm(w, Block(x[..], s, S, net.Hidden()))
  {
    hide Times, Block, SetBlock;
    ghost var xv := x[..];
    for s := 0 to S
      invariant x[..] == xv
      invariant forall k :: 0 <= k < s ==>
        Block(out[..], k, S, net.Hidden()) == net.norm(w, Block(xv, k, S, net.Hidden()))
    {
      ghost var before := out[..];
      var row := net.norm(w, Block(x[..], s, S, net.Hidden()));
      StoreBlock(out, s, S, net.Hidden(), row);
      RowStored(before, s, S, net.Hidden(), row);
    }
  }

  /** The normed input rows of a layer for the prefix `ids`. */
  ghost function LayerInput(net: Net, layer: nat, ids: seq<nat>): (xs: seq<Row>)
    requires net.Valid() && layer < |net.layers| && net.Tokens(ids)
    ensures |xs| == |ids| && net.Rows(xs)
  {
    net.NormRows(net.layers[layer].inLn, net.Stream(layer, ids))
  }

  lemma LayerInputCausal(net: Net, layer: nat, ids: seq<nat>, n: nat)
    requires net.Valid() && layer < |net.layers| && net.Tokens(ids) && n <= |ids|
    ensures LayerInput(net, layer, ids)[..n] == LayerInput(net, layer, ids[..n])
  {
    net.Causal(layer, ids, n);
    var a, b := net.Stream(layer, ids), net.Stream(layer, ids[..n]);
    forall t | 0 <= t < n ensures LayerInput(net, layer, ids)[t] == LayerInput(net, layer, ids[..n])[t] {
      assert a[..n][t] == a[t];
    }
  }

  /** The residual stream at position `p` after attention in layer `i`. */
  ghost function Midway(net: Net, i: nat, ids: seq<nat>, p: nat): (r: Row)
    requires net.Valid() && i < |net.layers| && net.Tokens(ids) && p < |ids|
    ensures |r| == net.Hidden()
  {
    net.AddRows(net.Stream(i, ids)[p], net.AttentionRow(net.layers[i], LayerInput(net, i, ids)[..p + 1]))
  }

  lemma AttendedIsMidway(net: Net, i: nat, ids: seq<nat>, p: nat)
    requires net.Valid() && i < |net.layers| && net.Tokens(ids) && p < |ids|
    ensures net.Attended(i, net.Stream(i, ids)[..p + 1]) == Midway(net, i, ids, p)
  {
    hide Block, Times, Net.AttentionRow, Net.AddRows, Net.Stream;
    var below, w := net.Stream(i, ids), net.layers[i].inLn;
    assert net.NormRows(w, below[..p + 1]) == net.NormRows(w, below)[..p + 1];
  }

  lemma LayerSteps(net: Net, i: nat, ids: seq<nat>, p: nat)
    requires net.Valid() && i < |net.layers| && net.Tokens(ids) && p < |ids|
    ensures var h := Midway(net, i, ids, p);
      net.Stream(i + 1, ids)[p] ==
      net.AddRows(h, net.MoeRow(i, net.layers[i], net.norm(net.layers[i].postLn, h)))
  {
    hide Block, Times, Net.AttentionRow, Net.MoeRow, Net.AddRows, Net.Attended, Net.NormRows, Midway;
    AttendedIsMidway(net, i, ids, p);
    assert net.Stream(i + 1, ids)[p] == net.LayerRow(i, net.Stream(i, ids)[..p + 1]);
  }

  class Model {
    const net: Net
    const store: ExpertStore<Weights>
    var K: seq<array<Float>>
    var V: seq<array<Float>>
    var kvLen: nat
    var maxT: nat

    constructor (net: Net, store: ExpertStore<Weights>)
      ensures this.net == net && this.store == store
    {
      this.net := net;
      this.store := store;
      K, V, kvLen, maxT := [], [], 0, 0;
    }

    /** The model is loaded, its expert cache works, and each layer has its own two buffers. */
    ghost predicate Ready()
      reads `K, `V, store, store.repr
    {
      && net.Valid() && store.Valid() && store.load == net.load && |store.cache| == |net.layers|
      && this !in store.repr
      && |K| == |V| == |net.layers|
      && (forall i :: 0 <= i < |K| ==> K[i] !in store.repr && V[i] !in store.repr && K[i] != V[i])
      && (forall i, j :: 0 <= i < j < |K| ==> K[i] != K[j] && V[i] != V[j] && K[i] != V[j] && V[i] != K[j])
    }

    /** Layer `j`'s buffers hold the keys and values of the whole prefix `ids`. */
    ghost predicate HoldsLayer(j: nat, ids: seq<nat>)
      requires net.Valid() && j < |net.layers| && net.Tokens(ids) && |K| == |V| == |net.layers|
      reads `K, `V, `maxT, K[j], V[j]
    {
      LayerCached(net, net.layers[j], K[j][..], V[j][..], maxT, LayerInput(net, j, ids))
    }

    /** Every layer's buffers hold the prefix `ids`. */
    ghost predicate Holds(ids: seq<nat>)
      reads `K, `V, `maxT, store, store.repr, K, V
    {
      Ready() && net.Tokens(ids) && forall j :: 0 <= j < |net.layers| ==> HoldsLayer(j, ids)
    }

    /** Buffers that hold a prefix hold every shorter one: what lies behind it does not matter. */
    lemma PrefixHeld(ids: seq<nat>, n: nat)
      requires Holds(ids) && n <= |ids|
      ensures Holds(ids[..n])
    {
      forall j | 0 <= j < |net.layers| ensures HoldsLayer(j, ids[..n]) {
        hide Ready, Times;
        assert HoldsLayer(j, ids);
        LayerInputCausal(net, j, ids, n);
        CachedPrefix(net, net.layers[j], K[j][..], V[j][..], maxT, LayerInput(net, j, ids), n);
      }
    }

    /** The scratch rows of a step are no part of the model's own state. */
    ghost predicate Scratch(i: nat, x: array<Float>, nrm: array<Float>, tmp: array<Float>, S: nat)
      reads this
    {
      && i < |K| && i < |V|
      && x.Length == nrm.Length == tmp.Length == Times(S, net.Hidden())
      && x != nrm && x != tmp && nrm != tmp
      && x !in store.repr && nrm !in store.repr && tmp !in store.repr
      && K[i] !in {x, nrm, tmp} && V[i] !in {x, nrm, tmp}
    }

    method AttentionHalf(i: nat, x: array<Float>, nrm: array<Float>, tmp: array<Float>, S: nat, pos: nat,
                         ghost ids: seq<nat>)
      requires Ready() && i < |net.layers| && net.Tokens(ids) && pos + S == |ids| <= maxT
      requires Scratch(i, x, nrm, tmp, S)
      requires HoldsLayer(i, ids[..pos])
      requires forall s :: 0 <= s < S ==> Block(x[..], s, S, net.Hidden()) == net.Stream(i, ids)[pos + s]
      modifies K[i], V[i], x, nrm, tmp
      ensures HoldsLayer(i, ids)
      ensures forall s :: 0 <= s < S ==> Block(x[..], s, S, net.Hidden()) == Midway(net, i, ids, pos + s)
    {
      hide Block, SetBlock, Times, LayerCached, Net.AttentionRow;
      var l := net.layers[i];
      ghost var xs := LayerInput(net, i, ids);
      LayerInputCausal(net, i, ids, pos);
      NormInto(net, l.inLn, x, nrm, S);
      Attention(net, l, K[i], V[i], maxT, nrm, S, pos, tmp, xs);
      AddInto(net, x, tmp, S, net.Hidden());
    }

    method MoeHalf(i: nat, x: array<Float>, nrm: array<Float>, tmp: array<Float>, S: nat, pos: nat, ghost ids: seq<nat>)
      requires Ready() && i < |net.layers| && net.Tokens(ids) && pos + S == |ids|
      requires Scratch(i, x, nrm, tmp, S)
      requires forall s :: 0 <= s < S ==> Block(x[..], s, S, net.Hidden()) == Midway(net, i, ids, pos + s)
      modifies x, nrm, tmp, store.repr
      ensures store.Valid()
      ensures forall s :: 0 <= s < S ==> Block(x[..], s, S, net.Hidden()) == net.Stream(i + 1, ids)[pos + s]
    {
      hide Block, SetBlock, Times, Net.MoeRow, Net.Stream, Net.AddRows, Net.ValidLayer, Midway;
      var l := net.layers[i];
      NormInto(net, l.postLn, x, nrm, S);
      ghost var hs := seq(S, s requires 0 <= s < S => net.norm(l.postLn, Midway(net, i, ids, pos + s)));
      forall s | 0 <= s < S ensures Block(nrm[..], s, S, net.Hidden()) == hs[s] {
        assert Block(x[..], s, S, net.Hidden()) == Midway(net, i, ids, pos + s);
      }
      Moe(net, store, i, l, nrm, S, tmp, hs);
      AddInto(net, x, tmp, S, net.Hidden());
      forall s | 0 <= s < S
        ensures Block(x[..], s, S, net.Hidden()) == net.Stream(i + 1, ids)[pos + s]
      {
        LayerSteps(net, i, ids, pos + s);
      }
    }

    /** One layer, for the new rows. */
    method LayerForward(i: nat, x: array<Float>, nrm: array<Float>, tmp: array<Float>, S: nat, pos: nat,
                        ghost ids: seq<nat>)
      requires Ready() && i < |net.layers| && net.Tokens(ids) && pos + S == |ids| <= maxT
      requires Scratch(i, x, nrm, tmp, S)
      requires HoldsLayer(i, ids[..pos])
      requires forall s :: 0 <= s < S ==> Block(x[..], s, S, net.Hidden()) == net.Stream(i, ids)[pos + s]
      modifies K[i], V[i], x, nrm, tmp, store.repr
      ensures Ready() && HoldsLayer(i, ids)
      ensures forall s :: 0 <= s < S ==> Block(x[..], s, S, net.Hidden()) == net.Stream(i + 1, ids)[pos + s]
    {
      hide Block, SetBlock, Times, LayerCached, Net.Stream, LayerInput, Midway, Fits;
      AttentionHalf(i, x, nrm, tmp, S, pos, ids);
      MoeHalf(i, x, nrm, tmp, S, pos, ids);
    }

    /** Layers below `i` hold the prefix `full`, the others still `hist`. */
    ghost predicate Between(i: nat, full: seq<nat>, hist: seq<nat>)
      requires net.Valid() && i <= |net.layers| && net.Tokens(full) && net.Tokens(hist)
      requires |K| == |V| == |net.layers|
      reads `K, `V, `maxT, K, V
    {
      && (forall j :: 0 <= j < i ==> HoldsLayer(j, full))
      && (forall j :: i <= j < |net.layers| ==> HoldsLayer(j, hist))
    }

    ghost predicate AllScratch(x: array<Float>, nrm: array<Float>, tmp: array<Float>, S: nat)
      reads this
    {
      && |K| == |V| && x.Length == Times(S, net.Hidden())
      && forall i :: 0 <= i < |K| ==> Scratch(i, x, nrm, tmp, S)
    }

    /** One layer more holds the whole prefix; no other layer's buffers change. */
    method NextLayer(i: nat, x: array<Float>, nrm: array<Float>, tmp: array<Float>, S: nat, pos: nat,
                     ghost full: seq<nat>, ghost hist: seq<nat>)
      requires Ready() && i < |net.layers| && net.Tokens(full) && net.Tokens(hist) && AllScratch(x, nrm, tmp, S)
      requires pos + S == |full| <= maxT && |hist| == pos && full[..pos] == hist && Between(i, full, hist)
      requires forall s :: 0 <= s < S ==> Block(x[..], s, S, net.Hidden()) == net.Stream(i, full)[pos + s]
      modifies K, V, x, nrm, tmp, store.repr
      ensures Ready() && Between(i + 1, full, hist)
      ensures forall s :: 0 <= s < S ==> Block(x[..], s, S, net.Hidden()) == net.Stream(i + 1, full)[pos + s]
    {
      hide Block, SetBlock, Times, Net.Stream, Net.Valid, HoldsLayer, ExpertStore.Valid;
      ghost var touched: set<object> := {K[i], V[i], x, nrm, tmp} + store.repr;
      forall j | 0 <= j < |K| && j != i ensures K[j] !in touched && V[j] !in touched {
        assert Scratch(j, x, nrm, tmp, S);
      }
      LayerForward(i, x, nrm, tmp, S, pos, full);
      assert forall j :: 0 <= j < i ==> old(HoldsLayer(j, full)) ==> HoldsLayer(j, full);
      assert forall j :: i < j < |net.layers| ==> old(HoldsLayer(j, hist)) ==> HoldsLayer(j, hist);
    }

    /** Runs the new tokens `ids` at positions from `pos` through all layers, the cache holding the
        prefix `hist`: it then holds the extended prefix, and the rows are those of its last layer. */
    method Forward(ids: seq<nat>, pos: nat, ghost hist: seq<nat>) returns (x: array<Float>)
      requires Holds(hist) && |hist| == pos && net.Tokens(hist + ids) && pos + |ids| <= maxT
      modifies K, V, store.repr
      ensures Holds(hist + ids) && net.Valid() && store.Valid()
      ensures fresh(x) && x.Length == Times(|ids|, net.Hidden())
      ensures forall s :: 0 <= s < |ids| ==>
        Block(x[..], s, |ids|, net.Hidden()) == net.Stream(|net.layers|, hist + ids)[pos + s]
    {
      hide Block, SetBlock, Times, HoldsLayer, Fits, ExpertStore.Valid;
      hide Net.Stream, Net.Valid, Net.ValidLayer, Net.Rows, Net.Tokens;
      var S := |ids|;
      ghost var full := hist + ids;
      assert full[..pos] == hist;
      var nrm, tmp;
      x, nrm, tmp := Embed(ids, pos, full);
      for i := 0 to |net.layers|
        invariant Ready() && AllScratch(x, nrm, tmp, S) && Between(i, full, hist)
        invariant forall s :: 0 <= s < S ==> Block(x[..], s, S, net.Hidden()) == net.Stream(i, full)[pos + s]
      {
        NextLayer(i, x, nrm, tmp, S, pos, full, hist);
      }
    }

    /** A step: the logits are those of recomputing the whole prefix. Neither they nor what the cache
        then holds depends on how the prefix was cut into steps. */
    method Step(ids: seq<nat>, pos: nat, ghost hist: seq<nat>) returns (logit: array<Float>)
      requires Holds(hist) && |hist| == pos && ids != []
      requires net.Tokens(hist + ids) && pos + |ids| <= maxT
      modifies this`kvLen, K, V, store.repr
      ensures Holds(hist + ids) && net.Valid() && store.Valid() && kvLen == |hist + ids|
      ensures fresh(logit) && logit[..] == net.Logits(hist + ids)
    {
      hide Block, SetBlock, Times, HoldsLayer, Net.Stream, Net.Logits, Net.Valid, ExpertStore.Valid;
      var x := Forward(ids, pos, hist);
      kvLen := pos + |ids|;
      logit := LogitsAt(x, |ids| - 1, |ids|, pos, hist + ids);
      assert (hist + ids)[..pos + |ids|] == hist + ids;
    }

    /** The same for the logits of every new position. */
    method StepAll(ids: seq<nat>, pos: nat, ghost hist: seq<nat>) returns (lo: array<Float>)
      requires Holds(hist) && |hist| == pos
      requires net.Tokens(hist + ids) && pos + |ids| <= maxT
      modifies K, V, store.repr
      ensures Holds(hist + ids) && net.Valid() && store.Valid()
      ensures fresh(lo) && lo.Length == Times(|ids|, net.vocab)
      ensures forall s :: 0 <= s < |ids| ==>
        Block(lo[..], s, |ids|, net.vocab) == net.Logits((hist + ids)[..pos + s + 1])
    {
      hide Block, SetBlock, Times, LayerCached, Net.Stream, Net.Logits, Net.Valid, Holds, LayerInput;
      var S := |ids|;
      ghost var full := hist + ids;
      var x := Forward(ids, pos, hist);
      ghost var rows := x[..];
      lo := new Float[Times(S, net.vocab)];
      for s := 0 to S
        modifies lo
        invariant x[..] == rows
        invariant forall k :: 0 <= k < s ==> Block(lo[..], k, S, net.vocab) == net.Logits(full[..pos + k + 1])
      {
        var row := LogitsAt(x, s, S, pos, full);
        ghost var before := lo[..];
        StoreBlock(lo, s, S, net.vocab, row[..]);
        RowStored(before, s, S, net.vocab, row[..]);
      }
    }

    /** The embedding rows of the new tokens, and two scratch buffers of the same size. */
    method Embed(ids: seq<nat>, pos: nat, ghost full: seq<nat>)
      returns (x: array<Float>, nrm: array<Float>, tmp: array<Float>)
      requires net.Valid() && net.Tokens(full) && |full| == pos + |ids| && full[pos..] == ids
      ensures fresh(x) && fresh(nrm) && fresh(tmp) && x != nrm && x != tmp && nrm != tmp
      ensures x.Length == nrm.Length == tmp.Length == Times(|ids|, net.Hidden())
      ensures forall s :: 0 <= s < |ids| ==>
        Block(x[..], s, |ids|, net.Hidden()) == net.Stream(0, full)[pos + s]
    {
      hide Block, SetBlock, Times;
      var S, D := |ids|, net.Hidden();
      x, nrm, tmp := new Float[Times(S, D)], new Float[Times(S, D)], new Float[Times(S, D)];
      for s := 0 to S
        invariant forall k :: 0 <= k < s ==> Block(x[..], k, S, D) == net.Stream(0, full)[pos + k]
      {
        ghost var before := x[..];
        assert full[pos..][s] == full[pos + s];
        var row := Block(net.embed, ids[s], net.vocab, D);
        StoreBlock(x, s, S, D, row);
        RowStored(before, s, S, D, row);
      }
    }

    /** Final norm and output projection of one row. */
    method LogitsAt(x: array<Float>, s: nat, S: nat, pos: nat, ghost full: seq<nat>) returns (logit: array<Float>)
      requires net.Valid() && net.Tokens(full) && s < S && |full| == pos + S && x.Length == Times(S, net.Hidden())
      requires forall k :: 0 <= k < S ==>
        Block(x[..], k, S, net.Hidden()) == net.Stream(|net.layers|, full)[pos + k]
      ensures net.Tokens(full[..pos + s + 1])
      ensures fresh(logit) && logit[..] == net.Logits(full[..pos + s + 1])
    {
      hide Net.Stream;
      var D := net.Hidden();
      var last := new Float[Times(1, D)];
      var row := net.norm(net.finalNorm, Block(x[..], s, S, D));
      StoreBlock(last, 0, 1, D, row);
      RowStored(last[..], 0, 1, D, row);
      logit := new Float[Times(1, net.vocab)];
      Matmul(net, logit, last, net.lmHead, 1, D, net.vocab);
      WholeBlock(last[..], D);
      WholeBlock(logit[..], net.vocab);
      LastOfCut(net, full, pos + s);
    }

    /** The scan for the best logit. */
    method ArgMax(logit: array<Float>) returns (best: nat)
      requires net.vocab >= 1 && logit.Length == net.vocab
      ensures best == net.ArgMaxTo(logit[..], net.vocab)
    {
      best := 0;
      var bv := logit[0];
      for i := 1 to net.vocab
        invariant best == net.ArgMaxTo(logit[..], i) && bv == logit[best]
      {
        if net.gt(logit[i], bv) {
          bv, best := logit[i], i;
        }
      }
    }

    /** Fresh, empty key/value buffers for `total` positions. */
    method AllocateKv(total: nat)
      requires net.Valid() && store.Valid() && store.load == net.load && |store.cache| == |net.layers|
      requires this !in store.repr
      modifies this
      ensures Holds([]) && store.Valid() && maxT == total && |K| == |V| == |net.layers|
      ensures forall i :: 0 <= i < |K| ==> fresh(K[i]) && fresh(V[i])
    {
      hide Times, Block;
      var size := Times(Times(net.heads, total), net.headDim);
      var ks: seq<array<Float>>, vs: seq<array<Float>> := [], [];
      for i := 0 to |net.layers|
        invariant |ks| == |vs| == i
        invariant forall j :: 0 <= j < i ==>
          && fresh(ks[j]) && fresh(vs[j]) && ks[j] != vs[j]
          && ks[j].Length == vs[j].Length == size
        invariant forall a, b :: 0 <= a < b < i ==>
          ks[a] != ks[b] && vs[a] != vs[b] && ks[a] != vs[b] && vs[a] != ks[b]
      {
        var k, v := new Float[size], new Float[size];
        ks, vs := ks + [k], vs + [v];
      }
      K, V, maxT, kvLen := ks, vs, total, 0;
    }

    /** Prefill with the prompt, then one token at a time against the cache: the output is that of
        greedy decoding which recomputes every prefix from scratch. */
    method Generate(prompt: seq<nat>, nNew: nat, out: array<nat>)
      requires net.Valid() && store.Valid() && store.load == net.load && |store.cache| == |net.layers|
      requires this !in store.repr && (out as object) !in store.repr
      requires prompt != [] && net.Tokens(prompt) && out.Length >= |prompt| + nNew
      modifies this, out, store.repr
      ensures out[..|prompt| + nNew] == net.Greedy(prompt, nNew)
      ensures out[|prompt| + nNew..] == old(out[|prompt| + nNew..])
      ensures store.Valid()
    {
      hide Net.Valid, Net.Tokens, Net.Logits, Net.Stream, Net.ArgMaxTo, Net.Greedy, Holds, HoldsLayer,
        Net.Hidden, ExpertStore.Valid, Times, Block;
      var np := |prompt|;
      AllocateKv(np + nNew);
      CopyPrompt(prompt, out);
      assert [] + prompt == prompt;
      var logit := Step(prompt, 0, []);
      Decode(prompt, nNew, out, logit);
    }

    /** The tokens after the prompt. */
    method Decode(prompt: seq<nat>, nNew: nat, out: array<nat>, logit0: array<Float>)
      requires Holds(prompt) && prompt != [] && logit0[..] == net.Logits(prompt) && |prompt| + nNew <= maxT
      requires |prompt| + nNew <= out.Length && out[..|prompt|] == prompt && Foreign(out) && this !in store.repr
      modifies out, this`kvLen, K, V, store.repr
      ensures out[..|prompt| + nNew] == net.Greedy(prompt, nNew) && store.Valid()
      ensures forall j :: |prompt| + nNew <= j < out.Length ==> out[j] == old(out[j])
    {
      hide *;
      HeldValid(prompt);
      net.GreedyStep(prompt, 0);
      var len, logit := |prompt|, logit0;
      for s := 0 to nNew
        invariant len == |prompt| + s && store.Valid() && net.Valid() && net.Tokens(prompt) && Foreign(out)
        invariant out[..len] == net.Greedy(prompt, s)
        invariant forall j :: len <= j < out.Length ==> out[j] == old(out[j])
        invariant s < nNew ==> Holds(net.Greedy(prompt, s)) && logit[..] == net.Logits(net.Greedy(prompt, s))
      {
        net.GreedyStep(prompt, s);
        logit := NextToken(out, len, logit, s == nNew - 1, net.Greedy(prompt, s), net.Greedy(prompt, s + 1));
        len := len + 1;
      }
    }

    lemma HeldValid(ids: seq<nat>)
      requires Holds(ids)
      ensures net.Valid() && net.Tokens(ids) && store.Valid() && this !in store.repr
    {
    }

    /** Takes the best token, and steps on with it unless it is the last. */
    method NextToken(out: array<nat>, len: nat, logit: array<Float>, last: bool,
                     ghost before: seq<nat>, ghost after: seq<nat>)
      returns (next: array<Float>)
      requires Holds(before) && |before| == len > 0 && len < out.Length && out[..len] == before && len < maxT
      requires logit[..] == net.Logits(before) && net.Tokens(after)
      requires after == before + [net.ArgMaxTo(net.Logits(before), net.vocab)]
      requires Foreign(out) && this !in store.repr
      modifies out, this`kvLen, K, V, store.repr
      ensures out[..len + 1] == after && store.Valid() && Foreign(out)
      ensures forall j :: len < j < out.Length ==> out[j] == old(out[j])
      ensures !last ==> Holds(after) && next[..] == net.Logits(after)
    {
      HeldValid(before);
      hide Net.Logits, Net.Stream, Net.ArgMaxTo, Net.Valid, Holds, HoldsLayer, Ready, ExpertStore.Valid;
      var best := ArgMax(logit);
      Emit(out, len, best, before);
      if last {
        return logit;
      }
      next := Step([best], len, before);
    }

    /** The buffer is no part of the model. */
    ghost predicate Foreign(out: array<nat>)
      reads `K, `V, store
    {
      && (out as object) !in store.repr
      && (forall i :: 0 <= i < |K| ==> (K[i] as object) != out)
      && (forall i :: 0 <= i < |V| ==> (V[i] as object) != out)
    }

    lemma ForeignIs(out: array<nat>)
      requires Foreign(out)
      ensures (out as object) !in store.repr
      ensures forall i :: 0 <= i < |K| ==> (K[i] as object) != out
      ensures forall i :: 0 <= i < |V| ==> (V[i] as object) != out
    {
    }

    /** Writes the next token. */
    method Emit(out: array<nat>, len: nat, t: nat, ghost before: seq<nat>)
      requires len < out.Length && out[..len] == before && Foreign(out)
      modifies out
      ensures out[..len + 1] == before + [t]
      ensures forall j :: len < j < out.Length ==> out[j] == old(out[j])
      ensures old(Holds(before)) ==> Holds(before)
    {
      hide Holds;
      out[len] := t;
    }

    method CopyPrompt(prompt: seq<nat>, out: array<nat>)
      requires out.Length >= |prompt|
      modifies out
      ensures out[..|prompt|] == prompt && out[|prompt|..] == old(out[|prompt|..])
    {
      for i := 0 to |prompt|
        invariant out[..i] == prompt[..i]
        invariant forall j :: |prompt| <= j < out.Length ==> out[j] == old(out[j])
      {
        out[i] := prompt[i];
      }
    }
  }

  /** A position's last activations are those of the prefix that ends there. */
  lemma LastOfCut(net: Net, full: seq<nat>, p: nat)
    requires net.Valid() && net.Tokens(full) && p < |full|
    ensures net.Stream(|net.layers|, full)[p] == net.Stream(|net.layers|, full[..p + 1])[p]
  {
    hide Net.Stream;
    net.Causal(|net.layers|, full, p + 1);
    assert net.Stream(|net.layers|, full)[..p + 1][p] == net.Stream(|net.layers|, full)[p];
  }

  lemma WholeBlock(s: Row, w: nat)
    requires |s| == Times(1, w)
    ensures |s| == w && Block(s, 0, 1, w) == s
  {
    assert Times(1, w) == Times(0, w) + w;
  }
}
