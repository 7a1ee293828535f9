/** The transformer as a function of the whole token prefix, with no cache: every position's
    activations are recomputed from the tokens. Floating-point kernels that act on one row are
    parameters about which only the row's length is known; nothing is assumed of float arithmetic. */
module KvSpec {
  import opened Blocks

  /** An IEEE single. */
  type Float(==, 0, !new)

  /** One expert's quantized weights. */
  type Weights(==, 0, !new)

  type Row = seq<Float>

  datatype Layer = Layer(inLn: Row, postLn: Row, q: Row, k: Row, v: Row, o: Row, qn: Row, kn: Row, gate: Row)

  datatype Net = Net(
    heads: nat, headDim: nat, experts: nat, vocab: nat,
    layers: seq<Layer>, embed: Row, lmHead: Row, finalNorm: Row,
    load: (nat, int) -> Weights,
    zero: Float, scale: Float,
    add: (Float, Float) -> Float, mul: (Float, Float) -> Float, gt: (Float, Float) -> bool,
    norm: (Row, Row) -> Row,
    rope: (Row, nat) -> Row,
    softmax: Row -> Row,
    route: Row -> seq<(int, Float)>,
    expert: (Weights, Row) -> Row)
  {
    function Hidden(): nat {
      Times(heads, headDim)
    }

    ghost predicate ValidLayer(l: Layer) {
      && |l.q| == |l.k| == |l.v| == |l.o| == Times(Hidden(), Hidden())
      && |l.gate| == Times(experts, Hidden())
    }

    ghost predicate Valid() {
      && vocab >= 1
      && |embed| == |lmHead| == Times(vocab, Hidden())
      && (forall l :: 0 <= l < |layers| ==> ValidLayer(layers[l]))
      && (forall w, x :: |norm(w, x)| == |x|)
      && (forall x, p :: |rope(x, p)| == |x|)
      && (forall x :: |softmax(x)| == |x|)
      && (forall w, x :: |expert(w, x)| == |x|)
    }

    // ------------------------------------------------------------ row arithmetic

    /** The accumulating inner product, from the left. */
    function Dot(x: Row, w: Row): Float
      requires |x| == |w|
    {
      if x == [] then zero
      else add(Dot(x[..|x| - 1], w[..|x| - 1]), mul(x[|x| - 1], w[|x| - 1]))
    }

    function MatVec(w: Row, outs: nat, x: Row): (y: Row)
      requires |w| == Times(outs, |x|)
      ensures |y| == outs
    {
      seq(outs, o requires 0 <= o < outs => Dot(x, Block(w, o, outs, |x|)))
    }

    function AddRows(a: Row, b: Row): (r: Row)
      requires |a| == |b|
      ensures |r| == |a| && forall i :: 0 <= i < |a| ==> r[i] == add(a[i], b[i])
    {
      seq(|a|, i requires 0 <= i < |a| => add(a[i], b[i]))
    }

    /** acc + a * x, elementwise. */
    function Axpy(a: Float, x: Row, acc: Row): (r: Row)
      requires |x| == |acc|
      ensures |r| == |acc| && forall i :: 0 <= i < |acc| ==> r[i] == add(acc[i], mul(a, x[i]))
    {
      seq(|acc|, i requires 0 <= i < |acc| => add(acc[i], mul(a, x[i])))
    }

    function Zeros(n: nat): (r: Row)
      ensures |r| == n && forall i :: 0 <= i < n ==> r[i] == zero
    {
      seq(n, i => zero)
    }

    // ------------------------------------------------------------ attention

    /** Rotary embedding of the first `n` heads of a row. */
    function RopeHeads(row: Row, pos: nat, n: nat): (r: Row)
      requires Valid() && |row| == Hidden() && n <= heads
      ensures |r| == Hidden()
    {
      if n == 0 then row
      else
        var r := RopeHeads(row, pos, n - 1);
        SetBlock(r, n - 1, heads, headDim, rope(Block(r, n - 1, heads, headDim), pos))
    }

    function QueryRow(l: Layer, x: Row, pos: nat): (r: Row)
      requires Valid() && ValidLayer(l) && |x| == Hidden()
      ensures |r| == Hidden()
    {
      RopeHeads(norm(l.qn, MatVec(l.q, Hidden(), x)), pos, heads)
    }

    function KeyRow(l: Layer, x: Row, pos: nat): (r: Row)
      requires Valid() && ValidLayer(l) && |x| == Hidden()
      ensures |r| == Hidden()
    {
      RopeHeads(norm(l.kn, MatVec(l.k, Hidden(), x)), pos, heads)
    }

    function ValueRow(l: Layer, x: Row): (r: Row)
      requires ValidLayer(l) && |x| == Hidden()
      ensures |r| == Hidden()
    {
      MatVec(l.v, Hidden(), x)
    }

    function Scores(q: Row, ks: seq<Row>): (s: Row)
      requires forall t :: 0 <= t < |ks| ==> |ks[t]| == |q|
      ensures |s| == |ks| && forall t :: 0 <= t < |ks| ==> s[t] == mul(Dot(q, ks[t]), scale)
    {
      seq(|ks|, t requires 0 <= t < |ks| => mul(Dot(q, ks[t]), scale))
    }

    function Mix(weights: Row, vs: seq<Row>, n: nat): (r: Row)
      requires |weights| == |vs| && forall t :: 0 <= t < |vs| ==> |vs[t]| == n
      ensures |r| == n
    {
      if vs == [] then Zeros(n)
      else
        var t := |vs| - 1;
        Axpy(weights[t], vs[t], Mix(weights[..t], vs[..t], n))
    }

    /** One head's context vector: attention of one query over the keys and values given. */
    function AttendHead(q: Row, ks: seq<Row>, vs: seq<Row>): (r: Row)
      requires Valid() && |ks| == |vs|
      requires forall t :: 0 <= t < |ks| ==> |ks[t]| == |q| && |vs[t]| == |q|
      ensures |r| == |q|
    {
      Mix(softmax(Scores(q, ks)), vs, |q|)
    }

    predicate Rows(xs: seq<Row>) {
      forall t :: 0 <= t < |xs| ==> |xs[t]| == Hidden()
    }

    function HeadKeys(l: Layer, xs: seq<Row>, h: nat): (ks: seq<Row>)
      requires Valid() && ValidLayer(l) && Rows(xs) && h < heads
      ensures |ks| == |xs| && forall t :: 0 <= t < |ks| ==> |ks[t]| == headDim
    {
      seq(|xs|, t requires 0 <= t < |xs| => Block(KeyRow(l, xs[t], t), h, heads, headDim))
    }

    function HeadValues(l: Layer, xs: seq<Row>, h: nat): (vs: seq<Row>)
      requires Valid() && ValidLayer(l) && Rows(xs) && h < heads
      ensures |vs| == |xs| && forall t :: 0 <= t < |vs| ==> |vs[t]| == headDim
    {
      seq(|xs|, t requires 0 <= t < |xs| => Block(ValueRow(l, xs[t]), h, heads, headDim))
    }

    /** The context of the last of the normed rows `xs`, as its heads' vectors. */
    function HeadContext(l: Layer, xs: seq<Row>, h: nat): (r: Row)
      requires Valid() && ValidLayer(l) && Rows(xs) && xs != [] && h < heads
      ensures |r| == headDim
    {
      var p := |xs| - 1;
      AttendHead(Block(QueryRow(l, xs[p], p), h, heads, headDim), HeadKeys(l, xs, h), HeadValues(l, xs, h))
    }

    /** The context row: all heads' context vectors side by side. */
    function ContextRow(l: Layer, xs: seq<Row>): (ctx: Row)
      requires Valid() && ValidLayer(l) && Rows(xs) && xs != []
      ensures |ctx| == Hidden()
    {
      Join(seq(heads, h requires 0 <= h < heads => HeadContext(l, xs, h)), headDim)
    }

    /** Attention output at the last of the normed rows `xs`. */
    function AttentionRow(l: Layer, xs: seq<Row>): (r: Row)
      requires Valid() && ValidLayer(l) && Rows(xs) && xs != []
      ensures |r| == Hidden()
    {
      MatVec(l.o, Hidden(), ContextRow(l, xs))
    }

    // ------------------------------------------------------------ experts

    function MoeTo(layer: nat, x: Row, picks: seq<(int, Float)>): (r: Row)
      requires Valid()
      ensures |r| == |x|
    {
      if picks == [] then Zeros(|x|)
      else
        var (eid, w) := picks[|picks| - 1];
        Axpy(w, expert(load(layer, eid), x), MoeTo(layer, x, picks[..|picks| - 1]))
    }

    function MoeRow(layer: nat, l: Layer, x: Row): (r: Row)
      requires Valid() && ValidLayer(l) && |x| == Hidden()
      ensures |r| == Hidden()
    {
      MoeTo(layer, x, route(MatVec(l.gate, experts, x)))
    }

    /** The experts the rows are routed to, in the order the engine asks for them. */
    function Routed(l: Layer, xs: seq<Row>): seq<int>
      requires Valid() && ValidLayer(l) && Rows(xs)
    {
      if xs == [] then []
      else Routed(l, xs[..|xs| - 1]) + Eids(route(MatVec(l.gate, experts, xs[|xs| - 1])))
    }

    static function Eids(picks: seq<(int, Float)>): seq<int> {
      if picks == [] then [] else Eids(picks[..|picks| - 1]) + [picks[|picks| - 1].0]
    }

    // ------------------------------------------------------------ the stack

    function NormRows(w: Row, xs: seq<Row>): (r: seq<Row>)
      requires Valid() && Rows(xs)
      ensures |r| == |xs| && Rows(r)
      ensures forall t :: 0 <= t < |xs| ==> r[t] == norm(w, xs[t])
    {
      seq(|xs|, t requires 0 <= t < |xs| => norm(w, xs[t]))
    }

    /** The residual stream after attention, at the last of the rows `xs`. */
    function Attended(layer: nat, xs: seq<Row>): (r: Row)
      requires Valid() && layer < |layers| && Rows(xs) && xs != []
      ensures |r| == Hidden()
    {
      AddRows(xs[|xs| - 1], AttentionRow(layers[layer], NormRows(layers[layer].inLn, xs)))
    }

    /** One layer's output at the last of its input rows `xs`. */
    function LayerRow(layer: nat, xs: seq<Row>): (r: Row)
      requires Valid() && layer < |layers| && Rows(xs) && xs != []
      ensures |r| == Hidden()
    {
      var h := Attended(layer, xs);
      AddRows(h, MoeRow(layer, layers[layer], norm(layers[layer].postLn, h)))
    }

    predicate Tokens(ids: seq<nat>) {
      forall i :: 0 <= i < |ids| ==> ids[i] < vocab
    }

    /** The input rows of layer `layer` (its output rows, for the last one), for every position of
        the prefix `ids`, computed from the tokens alone. */
    function Stream(layer: nat, ids: seq<nat>): (xs: seq<Row>)
      requires Valid() && layer <= |layers| && Tokens(ids)
      ensures |xs| == |ids| && Rows(xs)
      decreases layer
    {
      if layer == 0 then seq(|ids|, t requires 0 <= t < |ids| => Block(embed, ids[t], vocab, Hidden()))
      else
        var below := Stream(layer - 1, ids);
        seq(|ids|, t requires 0 <= t < |ids| => LayerRow(layer - 1, below[..t + 1]))
    }

    /** Logits after the prefix `ids`. */
    function Logits(ids: seq<nat>): (r: Row)
      requires Valid() && Tokens(ids) && ids != []
      ensures |r| == vocab
    {
      MatVec(lmHead, vocab, norm(finalNorm, Stream(|layers|, ids)[|ids| - 1]))
    }

    /** Causality: a position's activations do not depend on later tokens. */
    lemma {:induction false} Causal(layer: nat, ids: seq<nat>, n: nat)
      requires Valid() && layer <= |layers| && Tokens(ids) && n <= |ids|
      ensures Stream(layer, ids)[..n] == Stream(layer, ids[..n])
      decreases layer
    {
      if layer > 0 {
        Causal(layer - 1, ids, n);
        var all, cut := Stream(layer - 1, ids), Stream(layer - 1, ids[..n]);
        forall t | 0 <= t < n
          ensures Stream(layer, ids)[t] == Stream(layer, ids[..n])[t]
        {
          assert cut == all[..n];
          assert all[..t + 1] == all[..n][..t + 1];
        }
      }
    }

    // ------------------------------------------------------------ greedy decoding

    /** The scan for the best logit: index of the running best among the first `n`. */
    function ArgMaxTo(logits: Row, n: nat): (b: nat)
      requires 1 <= n <= |logits|
      ensures b < n
    {
      if n == 1 then 0
      else
        var b := ArgMaxTo(logits, n - 1);
        if gt(logits[n - 1], logits[b]) then n - 1 else b
    }

    /** Greedy decoding with every prefix recomputed from scratch. */
    function Greedy(prompt: seq<nat>, n: nat): (out: seq<nat>)
      requires Valid() && Tokens(prompt) && prompt != []
      ensures |out| == |prompt| + n && Tokens(out)
    {
      if n == 0 then prompt
      else
        var before := Greedy(prompt, n - 1);
        before + [ArgMaxTo(Logits(before), vocab)]
    }

    lemma GreedyStep(prompt: seq<nat>, n: nat)
      requires Valid() && Tokens(prompt) && prompt != []
      ensures Greedy(prompt, 0) == prompt
      ensures Greedy(prompt, n + 1) == Greedy(prompt, n) + [ArgMaxTo(Logits(Greedy(prompt, n)), vocab)]
    {
    }

    lemma {:induction false} GreedyExtends(prompt: seq<nat>, n: nat, m: nat)
      requires Valid() && Tokens(prompt) && prompt != [] && m <= n
      ensures Greedy(prompt, n)[..|prompt| + m] == Greedy(prompt, m)
    {
      hide *;
      if m < n {
        GreedyStep(prompt, n - 1);
        GreedyExtends(prompt, n - 1, m);
        var before := Greedy(prompt, n - 1);
        PrefixKept(before, ArgMaxTo(Logits(before), vocab), |prompt| + m);
      } else {
        assert Greedy(prompt, n)[..|prompt| + m] == Greedy(prompt, n);
      }
    }

    /** Every token of the output after the prompt is the scan's choice on the logits of everything
        before it. */
    lemma GreedyTokens(prompt: seq<nat>, n: nat, k: nat)
      requires Valid() && Tokens(prompt) && prompt != [] && k < n
      ensures var out, p := Greedy(prompt, n), |prompt| + k;
        && out[..|prompt|] == prompt
        && Tokens(out[..p]) && out[p] == ArgMaxTo(Logits(out[..p]), vocab)
    {
      hide *;
      GreedyStep(prompt, k);
      GreedyExtends(prompt, n, 0);
      GreedyExtends(prompt, n, k);
      GreedyExtends(prompt, n, k + 1);
      LastOfPrefix(Greedy(prompt, n), |prompt| + k);
    }

    /** And that determines the output. */
    lemma {:induction false} GreedyUnique(prompt: seq<nat>, n: nat, out: seq<nat>)
      requires Valid() && Tokens(prompt) && prompt != []
      requires |out| == |prompt| + n && out[..|prompt|] == prompt && Tokens(out)
      requires forall p :: |prompt| <= p < |out| ==> out[p] == ArgMaxTo(Logits(out[..p]), vocab)
      ensures out == Greedy(prompt, n)
    {
      hide Logits, ArgMaxTo;
      if n == 0 {
        assert out[..|prompt|] == out;
      } else {
        var before := out[..|out| - 1];
        assert before[..|prompt|] == prompt;
        forall p | |prompt| <= p < |before| ensures before[p] == ArgMaxTo(Logits(before[..p]), vocab) {
          assert before[..p] == out[..p];
        }
        GreedyUnique(prompt, n - 1, before);
        assert out == before + [out[|out| - 1]];
      }
    }

    /** `gt` behaves as `>` on the numbers at hand: it orders them strictly, ties being transitive. */
    ghost predicate StrictOrder() {
      && (forall a, b :: gt(a, b) ==> !gt(b, a))
      && (forall a, b, c :: gt(a, b) && !gt(c, b) ==> gt(a, c))
    }

    /** Any comparison of numbers is such an order. */
    lemma ComparisonIsStrict(number: Float -> real)
      requires forall a, b :: gt(a, b) <==> number(a) > number(b)
      ensures StrictOrder()
    {
    }

    /** For logits that `gt` orders, the scan returns the first of the greatest. */
    lemma {:induction false} ArgMaxIsFirstGreatest(logits: Row, n: nat)
      requires StrictOrder() && 1 <= n <= |logits|
      ensures var b := ArgMaxTo(logits, n);
        && (forall i :: 0 <= i < n ==> !gt(logits[i], logits[b]))
        && (forall i :: 0 <= i < b ==> gt(logits[b], logits[i]))
    {
      if n > 1 {
        ArgMaxIsFirstGreatest(logits, n - 1);
      }
    }
  }

  lemma PrefixKept<T>(before: seq<T>, x: T, p: nat)
    requires p <= |before|
    ensures (before + [x])[..p] == before[..p]
  {
  }

  lemma LastOfPrefix<T>(s: seq<T>, p: nat)
    requires p < |s|
    ensures s[..p + 1][p] == s[p]
  {
  }
}
