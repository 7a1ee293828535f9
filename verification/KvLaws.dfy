/** What the rows of the network are, number by number: every formula here names only the kernels, the
    weights and the inner product. */
module KvLaws {
  import opened Blocks
  import opened KvSpec

  /** The inner product grows by one product at a time, from the left. */
  lemma DotAdds(net: Net, x: Row, w: Row, a: Float, b: Float)
    requires |x| == |w|
    ensures net.Dot([], []) == net.zero
    ensures net.Dot(x + [a], w + [b]) == net.add(net.Dot(x, w), net.mul(a, b))
  {
    assert (x + [a])[..|x|] == x && (w + [b])[..|w|] == w;
  }

  /** Each number of a product is the inner product with its own row of the matrix. */
  lemma MatVecAt(net: Net, w: Row, outs: nat, x: Row, o: nat)
    requires |w| == Times(outs, |x|) && o < outs
    ensures o * |x| <= (o + 1) * |x| <= |w|
    ensures net.MatVec(w, outs, x)[o] == net.Dot(x, w[o * |x|..(o + 1) * |x|])
  {
    Bounds(o, outs, |x|);
    TimesIsProduct(o, |x|);
    TimesIsProduct(o + 1, |x|);
  }

  function Column(vs: seq<Row>, n: nat, i: nat): (c: Row)
    requires i < n && forall t :: 0 <= t < |vs| ==> |vs[t]| == n
    ensures |c| == |vs| && forall t :: 0 <= t < |vs| ==> c[t] == vs[t][i]
  {
    seq(|vs|, t requires 0 <= t < |vs| => vs[t][i])
  }

  /** A weighted sum of rows, number by number. */
  lemma {:induction false} MixAt(net: Net, weights: Row, vs: seq<Row>, n: nat, i: nat)
    requires |weights| == |vs| && i < n && forall t :: 0 <= t < |vs| ==> |vs[t]| == n
    ensures net.Mix(weights, vs, n)[i] == net.Dot(weights, Column(vs, n, i))
  {
    if vs != [] {
      var t := |vs| - 1;
      MixAt(net, weights[..t], vs[..t], n, i);
      assert Column(vs, n, i)[..t] == Column(vs[..t], n, i);
    }
  }

  /** One head's attention: the softmax of the scaled scores, weighting the values. */
  lemma AttendHeadAt(net: Net, q: Row, ks: seq<Row>, vs: seq<Row>, i: nat)
    requires net.Valid() && |ks| == |vs| && i < |q|
    requires forall t :: 0 <= t < |ks| ==> |ks[t]| == |q| && |vs[t]| == |q|
    ensures net.AttendHead(q, ks, vs)[i] == net.Dot(net.softmax(net.Scores(q, ks)), Column(vs, |q|, i))
  {
    MixAt(net, net.softmax(net.Scores(q, ks)), vs, |q|, i);
  }

  /** Every head of a rotated row is the rotation of that head alone. */
  lemma {:induction false} RopeHeadsAt(net: Net, row: Row, pos: nat, n: nat, h: nat)
    requires net.Valid() && |row| == net.Hidden() && n <= net.heads && h < net.heads
    ensures Block(net.RopeHeads(row, pos, n), h, net.heads, net.headDim) ==
      (if h < n then net.rope(Block(row, h, net.heads, net.headDim), pos) else Block(row, h, net.heads, net.headDim))
  {
    hide *;
    HasHidden(net);
    if n > 0 {
      RopeHeadsAt(net, row, pos, n - 1, h);
      RopeHeadsAt(net, row, pos, n - 1, n - 1);
      RopeStep(net, row, pos, n);
      RopeBlock(net, net.RopeHeads(row, pos, n - 1), pos, n - 1, h);
    } else {
      RopeNone(net, row, pos);
    }
  }

  lemma RopeNone(net: Net, row: Row, pos: nat)
    requires net.Valid() && |row| == net.Hidden()
    ensures net.RopeHeads(row, pos, 0) == row
  {
  }

  lemma RopeBlock(net: Net, r: Row, pos: nat, m: nat, h: nat)
    requires net.Valid() && |r| == Times(net.heads, net.headDim) && m < net.heads && h < net.heads
    requires |net.rope(Block(r, m, net.heads, net.headDim), pos)| == net.headDim
    ensures Block(SetBlock(r, m, net.heads, net.headDim, net.rope(Block(r, m, net.heads, net.headDim), pos)),
                  h, net.heads, net.headDim) ==
      (if h == m then net.rope(Block(r, m, net.heads, net.headDim), pos) else Block(r, h, net.heads, net.headDim))
  {
    hide *;
    BlockOfSet(r, m, net.heads, net.headDim, net.rope(Block(r, m, net.heads, net.headDim), pos), h);
  }

  lemma HasHidden(net: Net)
    ensures net.Hidden() == Times(net.heads, net.headDim)
    ensures net.Valid() ==> forall x, p :: |net.rope(x, p)| == |x|
  {
  }

  lemma RopeStep(net: Net, row: Row, pos: nat, n: nat)
    requires net.Valid() && |row| == net.Hidden() && 0 < n <= net.heads
    ensures var r := net.RopeHeads(row, pos, n - 1);
      net.RopeHeads(row, pos, n) ==
      SetBlock(r, n - 1, net.heads, net.headDim, net.rope(Block(r, n - 1, net.heads, net.headDim), pos))
  {
  }

  /** Head `h` of a projected, normed and rotated row. */
  function Rotated(net: Net, wn: Row, w: Row, x: Row, pos: nat, h: nat): (r: Row)
    requires net.Valid() && |w| == Times(net.Hidden(), net.Hidden()) && |x| == net.Hidden() && h < net.heads
    ensures |r| == net.headDim
  {
    net.rope(Block(net.norm(wn, net.MatVec(w, net.Hidden(), x)), h, net.heads, net.headDim), pos)
  }

  /** The scores of the last row's query against every key up to it. */
  function ScoresOf(net: Net, l: Layer, xs: seq<Row>, h: nat): (s: Row)
    requires net.Valid() && net.ValidLayer(l) && net.Rows(xs) && xs != [] && h < net.heads
    ensures |s| == |xs|
  {
    var p := |xs| - 1;
    seq(|xs|, t requires 0 <= t < |xs| =>
      net.mul(net.Dot(Rotated(net, l.qn, l.q, xs[p], p, h), Rotated(net, l.kn, l.k, xs[t], t, h)), net.scale))
  }

  function ValuesOf(net: Net, l: Layer, xs: seq<Row>, h: nat, d: nat): (v: Row)
    requires net.Valid() && net.ValidLayer(l) && net.Rows(xs) && h < net.heads && d < net.headDim
    ensures |v| == |xs|
  {
    seq(|xs|, t requires 0 <= t < |xs| =>
      Block(net.MatVec(l.v, net.Hidden(), xs[t]), h, net.heads, net.headDim)[d])
  }

  /** The context row: in head `h`, number `d`, the values' numbers weighted by the softmax of the
      scores of that head. */
  lemma ContextAt(net: Net, l: Layer, xs: seq<Row>, h: nat, d: nat)
    requires net.Valid() && net.ValidLayer(l) && net.Rows(xs) && xs != [] && h < net.heads && d < net.headDim
    ensures Block(net.ContextRow(l, xs), h, net.heads, net.headDim)[d] ==
      net.Dot(net.softmax(ScoresOf(net, l, xs, h)), ValuesOf(net, l, xs, h, d))
  {
    HeadOfContext(net, l, xs, h);
    hide Block, Times, Net.ContextRow, Net.QueryRow, Net.KeyRow, Net.MatVec, Net.RopeHeads, Net.Dot, Net.AttendHead;
    var p := |xs| - 1;
    var q := Block(net.QueryRow(l, xs[p], p), h, net.heads, net.headDim);
    var ks, vs := net.HeadKeys(l, xs, h), net.HeadValues(l, xs, h);
    AttendHeadAt(net, q, ks, vs, d);
    QueryAt(net, l, xs[p], p, h);
    forall t | 0 <= t < |xs| ensures net.Scores(q, ks)[t] == ScoresOf(net, l, xs, h)[t] {
      KeyOf(net, l, xs[t], t, h);
    }
    assert net.Scores(q, ks) == ScoresOf(net, l, xs, h);
    assert Column(vs, net.headDim, d) == ValuesOf(net, l, xs, h, d);
  }

  lemma HeadOfContext(net: Net, l: Layer, xs: seq<Row>, h: nat)
    requires net.Valid() && net.ValidLayer(l) && net.Rows(xs) && xs != [] && h < net.heads
    ensures Block(net.ContextRow(l, xs), h, net.heads, net.headDim) == net.HeadContext(l, xs, h)
  {
    hide Block, Join, Times, Net.HeadContext;
    var rows := seq(net.heads, g requires 0 <= g < net.heads => net.HeadContext(l, xs, g));
    BlockOfJoin(rows, net.headDim, h);
  }

  lemma QueryAt(net: Net, l: Layer, x: Row, pos: nat, h: nat)
    requires net.Valid() && net.ValidLayer(l) && |x| == net.Hidden() && h < net.heads
    ensures Block(net.QueryRow(l, x, pos), h, net.heads, net.headDim) == Rotated(net, l.qn, l.q, x, pos, h)
  {
    hide Block, Times, Net.MatVec, Net.RopeHeads;
    RopeHeadsAt(net, net.norm(l.qn, net.MatVec(l.q, net.Hidden(), x)), pos, net.heads, h);
  }

  lemma KeyOf(net: Net, l: Layer, x: Row, pos: nat, h: nat)
    requires net.Valid() && net.ValidLayer(l) && |x| == net.Hidden() && h < net.heads
    ensures Block(net.KeyRow(l, x, pos), h, net.heads, net.headDim) == Rotated(net, l.kn, l.k, x, pos, h)
  {
    hide Block, Times, Net.MatVec, Net.RopeHeads;
    RopeHeadsAt(net, net.norm(l.kn, net.MatVec(l.k, net.Hidden(), x)), pos, net.heads, h);
  }

  // ---------------------------------------------------------------- experts

  function Weights(picks: seq<(int, Float)>): (w: Row)
    ensures |w| == |picks| && forall k :: 0 <= k < |picks| ==> w[k] == picks[k].1
  {
    seq(|picks|, k requires 0 <= k < |picks| => picks[k].1)
  }

  /** Number `i` of what each picked expert makes of the row. */
  function Outputs(net: Net, layer: nat, x: Row, picks: seq<(int, Float)>, i: nat): (y: Row)
    requires net.Valid() && i < |x|
    ensures |y| == |picks|
    ensures forall k :: 0 <= k < |picks| ==> y[k] == net.expert(net.load(layer, picks[k].0), x)[i]
  {
    seq(|picks|, k requires 0 <= k < |picks| => net.expert(net.load(layer, picks[k].0), x)[i])
  }

  /** The experts' outputs weighted by their routing weights, number by number. */
  lemma {:induction false} MoeAt(net: Net, layer: nat, x: Row, picks: seq<(int, Float)>, i: nat)
    requires net.Valid() && i < |x|
    ensures net.MoeTo(layer, x, picks)[i] == net.Dot(Weights(picks), Outputs(net, layer, x, picks, i))
  {
    if picks != [] {
      var n := |picks| - 1;
      MoeAt(net, layer, x, picks[..n], i);
      assert Weights(picks)[..n] == Weights(picks[..n]);
      assert Outputs(net, layer, x, picks, i)[..n] == Outputs(net, layer, x, picks[..n], i);
    }
  }

  /** The engine asks for the picked experts in the order of the picks, row after row. */
  lemma {:induction false} EidsAt(picks: seq<(int, Float)>, k: nat)
    requires k < |picks|
    ensures |Net.Eids(picks)| == |picks| && Net.Eids(picks)[k] == picks[k].0
  {
    if k < |picks| - 1 {
      EidsAt(picks[..|picks| - 1], k);
    } else if k > 0 {
      EidsAt(picks[..|picks| - 1], k - 1);
    }
  }

  lemma RoutedAdds(net: Net, l: Layer, xs: seq<Row>, x: Row)
    requires net.Valid() && net.ValidLayer(l) && net.Rows(xs + [x]) && net.Rows(xs) && |x| == net.Hidden()
    ensures net.Routed(l, []) == []
    ensures net.Routed(l, xs + [x]) ==
      net.Routed(l, xs) + Net.Eids(net.route(net.MatVec(l.gate, net.experts, x)))
  {
    assert (xs + [x])[..|xs|] == xs;
  }

  // ---------------------------------------------------------------- the stack

  /** Layer 0 reads the tokens' embeddings. */
  lemma EmbeddedAt(net: Net, ids: seq<nat>, t: nat, d: nat)
    requires net.Valid() && net.Tokens(ids) && t < |ids| && d < net.Hidden()
    ensures 0 <= ids[t] * net.Hidden() + d < |net.embed|
    ensures net.Stream(0, ids)[t][d] == net.embed[ids[t] * net.Hidden() + d]
  {
    hide *;
    EmbedIs(net, ids, t);
    var (i, w) := (ids[t], net.Hidden());
    BlockAt(net.embed, i, net.vocab, w, d);
  }

  lemma EmbedIs(net: Net, ids: seq<nat>, t: nat)
    requires net.Valid() && net.Tokens(ids) && t < |ids|
    ensures ids[t] < net.vocab && |net.embed| == Times(net.vocab, net.Hidden())
    ensures net.Stream(0, ids)[t] == Block(net.embed, ids[t], net.vocab, net.Hidden())
  {
    hide Block;
  }

  /** The normed rows a layer's attention reads at position `t`: its inputs up to there. */
  function Normed(net: Net, i: nat, ids: seq<nat>, t: nat): (r: seq<Row>)
    requires net.Valid() && i < |net.layers| && net.Tokens(ids) && t < |ids|
    ensures |r| == t + 1 && net.Rows(r)
  {
    var xs := net.Stream(i, ids);
    assert forall s :: 0 <= s < |xs| ==> |net.norm(net.layers[i].inLn, xs[s])| == net.Hidden();
    seq(t + 1, s requires 0 <= s < t + 1 => net.norm(net.layers[i].inLn, xs[s]))
  }

  /** The residual after attention, number by number. */
  function Mid(net: Net, i: nat, ids: seq<nat>, t: nat): (r: Row)
    requires net.Valid() && i < |net.layers| && net.Tokens(ids) && t < |ids|
    ensures |r| == net.Hidden()
  {
    var x, l := net.Stream(i, ids)[t], net.layers[i];
    var y := net.MatVec(l.o, net.Hidden(), net.ContextRow(l, Normed(net, i, ids, t)));
    seq(net.Hidden(), d requires 0 <= d < net.Hidden() => net.add(x[d], y[d]))
  }

  /** And after the experts, number by number. */
  lemma LayerAt(net: Net, i: nat, ids: seq<nat>, t: nat, d: nat)
    requires net.Valid() && i < |net.layers| && net.Tokens(ids) && t < |ids| && d < net.Hidden()
    ensures var mid := Mid(net, i, ids, t); var x := net.norm(net.layers[i].postLn, mid);
      net.Stream(i + 1, ids)[t][d] ==
      net.add(mid[d], net.MoeTo(i, x, net.route(net.MatVec(net.layers[i].gate, net.experts, x)))[d])
  {
    MidIs(net, i, ids, t);
    hide Net.ContextRow, Net.MatVec, Net.MoeTo, Block, Times, Mid, Net.Attended;
    var below := net.Stream(i, ids);
    assert net.Stream(i + 1, ids)[t] == net.LayerRow(i, below[..t + 1]);
  }

  lemma MidIs(net: Net, i: nat, ids: seq<nat>, t: nat)
    requires net.Valid() && i < |net.layers| && net.Tokens(ids) && t < |ids|
    ensures net.Attended(i, net.Stream(i, ids)[..t + 1]) == Mid(net, i, ids, t)
  {
    hide Net.ContextRow, Net.MatVec, Block, Times, Net.Stream;
    var below := net.Stream(i, ids);
    assert net.NormRows(net.layers[i].inLn, below[..t + 1]) == Normed(net, i, ids, t);
    assert below[..t + 1][t] == below[t];
  }

  /** Each logit is the inner product of the last position's normed row with its token's row. */
  lemma LogitAt(net: Net, ids: seq<nat>, v: nat)
    requires net.Valid() && net.Tokens(ids) && ids != [] && v < net.vocab
    ensures v * net.Hidden() <= (v + 1) * net.Hidden() <= |net.lmHead|
    ensures net.Logits(ids)[v] ==
      net.Dot(net.norm(net.finalNorm, net.Stream(|net.layers|, ids)[|ids| - 1]),
              net.lmHead[v * net.Hidden()..(v + 1) * net.Hidden()])
  {
    hide Net.Stream;
    var x := net.norm(net.finalNorm, net.Stream(|net.layers|, ids)[|ids| - 1]);
    MatVecAt(net, net.lmHead, net.vocab, x, v);
  }
}
