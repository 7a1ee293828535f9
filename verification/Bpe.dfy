/** Byte-pair encoding of one piece: symbols merged in place, lowest rank first. */
module Bpe {
  import opened Bytes
  import opened ByteLevel
  import opened Chunks
  import opened HashMap
  import opened Probing
  import opened Sequences

  const INT_MAX: nat := 0x7FFF_FFFF

  /** "left\0right". */
  function PairKey(l: Bytes, r: Bytes): Bytes {
    l + [0] + r
  }

  function RankOf(merges: map<Bytes, nat>, l: Bytes, r: Bytes): int {
    if PairKey(l, r) in merges then merges[PairKey(l, r)] else -1
  }

  predicate Mergeable(merges: map<Bytes, nat>, l: Bytes, r: Bytes) {
    0 <= RankOf(merges, l, r) < INT_MAX
  }

  /** The scan over the first `n` adjacent pairs: position and rank of the best, or -1. */
  function BestTo(merges: map<Bytes, nat>, syms: seq<Bytes>, n: nat): (r: (int, int))
    requires n == 0 || n < |syms|
    ensures -1 <= r.0 < n
  {
    if n == 0 then (-1, INT_MAX)
    else
      var (bp, best) := BestTo(merges, syms, n - 1);
      var rk := RankOf(merges, syms[n - 1], syms[n]);
      if 0 <= rk < best then (n - 1, rk) else (bp, best)
  }

  /** The leftmost pair of lowest rank, or -1 if none can be merged. */
  function Best(merges: map<Bytes, nat>, syms: seq<Bytes>): (bp: int)
    ensures bp == -1 || 0 <= bp < |syms| - 1
  {
    BestTo(merges, syms, if syms == [] then 0 else |syms| - 1).0
  }

  lemma {:induction false} BestToIs(merges: map<Bytes, nat>, syms: seq<Bytes>, n: nat)
    requires n == 0 || n < |syms|
    ensures var (bp, best) := BestTo(merges, syms, n);
      && best <= INT_MAX
      && (bp >= 0 ==> Mergeable(merges, syms[bp], syms[bp + 1]) && best == RankOf(merges, syms[bp], syms[bp + 1]))
      && (bp < 0 ==> best == INT_MAX)
      && (forall i :: 0 <= i < n && Mergeable(merges, syms[i], syms[i + 1]) ==>
            bp >= 0 && best <= RankOf(merges, syms[i], syms[i + 1]))
      && (forall i :: 0 <= i < bp && Mergeable(merges, syms[i], syms[i + 1]) ==>
            best < RankOf(merges, syms[i], syms[i + 1]))
  {
    if n > 0 {
      BestToIs(merges, syms, n - 1);
      hide PairKey;
    }
  }

  /** `Best` finds a mergeable pair if there is one, none has a lower rank, and none further left
      has the same. */
  lemma BestIs(merges: map<Bytes, nat>, syms: seq<Bytes>)
    ensures var bp := Best(merges, syms);
      && (bp >= 0 ==> Mergeable(merges, syms[bp], syms[bp + 1]))
      && (forall i :: 0 <= i < |syms| - 1 && Mergeable(merges, syms[i], syms[i + 1]) ==>
            bp >= 0 && RankOf(merges, syms[bp], syms[bp + 1]) <= RankOf(merges, syms[i], syms[i + 1]))
      && (forall i :: 0 <= i < bp && Mergeable(merges, syms[i], syms[i + 1]) ==>
            RankOf(merges, syms[bp], syms[bp + 1]) < RankOf(merges, syms[i], syms[i + 1]))
  {
    BestToIs(merges, syms, if syms == [] then 0 else |syms| - 1);
  }

  function MergeAt(syms: seq<Bytes>, i: nat): (r: seq<Bytes>)
    requires i + 1 < |syms|
    ensures |r| == |syms| - 1
  {
    syms[..i] + [syms[i] + syms[i + 1]] + syms[i + 2..]
  }

  /** Rewriting until no pair can be merged. */
  function Merge(merges: map<Bytes, nat>, syms: seq<Bytes>): (r: seq<Bytes>)
    ensures |r| <= |syms|
    decreases |syms|
  {
    var bp := Best(merges, syms);
    if bp < 0 then syms else Merge(merges, MergeAt(syms, bp))
  }

  /** The ids of the symbols that have one. */
  function Ids(vocab: map<Bytes, nat>, syms: seq<Bytes>): (r: seq<nat>)
    ensures |r| <= |syms|
  {
    if syms == [] then []
    else Ids(vocab, syms[..|syms| - 1]) + if syms[|syms| - 1] in vocab then [vocab[syms[|syms| - 1]]] else []
  }

  /** The ids of one piece: its own, if the whole piece is a token. */
  function PieceIds(vocab: map<Bytes, nat>, merges: map<Bytes, nat>, p: Bytes): seq<nat> {
    var s := Spell(p);
    if s in vocab then [vocab[s]] else Ids(vocab, Merge(merges, Split(s)))
  }

  /** The next pair merged is the leftmost of those with the lowest rank. */
  lemma MergesLowestFirst(merges: map<Bytes, nat>, syms: seq<Bytes>, i: nat)
    requires i + 1 < |syms| && Mergeable(merges, syms[i], syms[i + 1])
    requires forall j :: 0 <= j < |syms| - 1 && Mergeable(merges, syms[j], syms[j + 1]) ==>
      var (a, b) := (RankOf(merges, syms[i], syms[i + 1]), RankOf(merges, syms[j], syms[j + 1]));
      a < b || (a == b && i <= j)
    ensures Merge(merges, syms) == Merge(merges, MergeAt(syms, i))
  {
    BestIs(merges, syms);
    hide PairKey, Best, RankOf;
    var bp := Best(merges, syms);
    assert bp == i;
  }

  /** A piece that is a token as a whole is not cut up. */
  lemma WholePiece(vocab: map<Bytes, nat>, merges: map<Bytes, nat>, p: Bytes)
    ensures Spell(p) in vocab ==> PieceIds(vocab, merges, p) == [vocab[Spell(p)]]
    ensures Spell(p) !in vocab && Known(vocab, Merge(merges, Split(Spell(p)))) ==>
      var (ids, syms) := (PieceIds(vocab, merges, p), Merge(merges, Split(Spell(p))));
      |ids| == |syms| && forall i :: 0 <= i < |ids| ==> ids[i] == vocab[syms[i]]
  {
    if Known(vocab, Merge(merges, Split(Spell(p)))) { IdsOfKnown(vocab, Merge(merges, Split(Spell(p)))); }
  }

  lemma {:induction false} IdsOfKnown(vocab: map<Bytes, nat>, syms: seq<Bytes>)
    requires Known(vocab, syms)
    ensures |Ids(vocab, syms)| == |syms| && forall i :: 0 <= i < |syms| ==> Ids(vocab, syms)[i] == vocab[syms[i]]
  {
    if syms != [] { IdsOfKnown(vocab, syms[..|syms| - 1]); }
  }

  // ---------------------------------------------------------------- what merging keeps

  lemma FlattenJoined<T>(a: seq<seq<T>>, l: seq<T>, r: seq<T>, c: seq<seq<T>>)
    ensures Flatten(a + [l + r] + c) == Flatten(a + [l, r] + c)
  {
    hide Flatten;
    FlattenOne(l + r);
    FlattenTwo(l, r);
    FlattenConcat(a, [l, r]);
    FlattenConcat(a, [l + r]);
    FlattenConcat(a + [l, r], c);
    FlattenConcat(a + [l + r], c);
  }

  lemma Apart(syms: seq<Bytes>, i: nat)
    requires i + 1 < |syms|
    ensures syms == syms[..i] + [syms[i], syms[i + 1]] + syms[i + 2..]
  {
  }

  lemma MergeAtFlatten(syms: seq<Bytes>, i: nat)
    requires i + 1 < |syms|
    ensures Flatten(MergeAt(syms, i)) == Flatten(syms)
  {
    hide Flatten;
    FlattenJoined(syms[..i], syms[i], syms[i + 1], syms[i + 2..]);
    Apart(syms, i);
  }

  /** Merging only moves boundaries: the symbols still spell the same string. */
  lemma {:induction false} MergeFlatten(merges: map<Bytes, nat>, syms: seq<Bytes>)
    ensures Flatten(Merge(merges, syms)) == Flatten(syms)
    decreases |syms|
  {
    hide Flatten, Best, MergeAt;
    var bp := Best(merges, syms);
    if bp >= 0 {
      MergeAtFlatten(syms, bp);
      MergeFlatten(merges, MergeAt(syms, bp));
    }
  }

  /** At the end no adjacent pair can be merged. */
  lemma {:induction false} MergeIsFinal(merges: map<Bytes, nat>, syms: seq<Bytes>, i: nat)
    requires i + 1 < |Merge(merges, syms)|
    ensures !Mergeable(merges, Merge(merges, syms)[i], Merge(merges, syms)[i + 1])
    decreases |syms|
  {
    var bp := Best(merges, syms);
    if bp >= 0 {
      MergeIsFinal(merges, MergeAt(syms, bp), i);
    } else {
      BestIs(merges, syms);
    }
  }

  /** Every pair of NUL-free strings with a rank has its concatenation in the vocabulary. */
  ghost predicate Closed(vocab: map<Bytes, nat>, merges: map<Bytes, nat>) {
    forall l: Bytes, r: Bytes :: 0 !in l && 0 !in r && PairKey(l, r) in merges ==> l + r in vocab
  }

  predicate Known(vocab: map<Bytes, nat>, syms: seq<Bytes>) {
    forall i :: 0 <= i < |syms| ==> 0 !in syms[i] && syms[i] in vocab
  }

  /** Known symbols merge into known symbols. */
  lemma {:induction false} MergeKnown(vocab: map<Bytes, nat>, merges: map<Bytes, nat>, syms: seq<Bytes>)
    requires Closed(vocab, merges) && Known(vocab, syms)
    ensures Known(vocab, Merge(merges, syms))
    decreases |syms|
  {
    var bp := Best(merges, syms);
    if bp >= 0 {
      BestIs(merges, syms);
      var l, r := syms[bp], syms[bp + 1];
      assert PairKey(l, r) in merges;
      assert l + r in vocab;
      var merged := MergeAt(syms, bp);
      forall i | 0 <= i < |merged| ensures 0 !in merged[i] && merged[i] in vocab {
        assert merged[i] == if i < bp then syms[i] else if i == bp then l + r else syms[i + 1];
      }
      MergeKnown(vocab, merges, merged);
    }
  }

  /** The separator makes the key of a pair of NUL-free strings unambiguous. */
  lemma PairKeyInjective(l: Bytes, r: Bytes, l': Bytes, r': Bytes)
    requires 0 !in l && 0 !in r && 0 !in l' && 0 !in r' && PairKey(l, r) == PairKey(l', r')
    ensures l == l' && r == r'
  {
    KeyNoLonger(l, r, l', r');
    KeyNoLonger(l', r', l, r);
    assert PairKey(l, r)[..|l|] == l && PairKey(l', r')[..|l|] == l';
    assert PairKey(l, r)[|l| + 1..] == r && PairKey(l', r')[|l| + 1..] == r';
  }

  lemma KeyNoLonger(l: Bytes, r: Bytes, l': Bytes, r': Bytes)
    requires 0 !in l && PairKey(l, r) == PairKey(l', r')
    ensures |l| <= |l'|
  {
    assert PairKey(l', r')[|l'|] == 0;
    assert forall i :: 0 <= i < |l| ==> PairKey(l, r)[i] == l[i];
  }

  /** A listed merge: its two parts. */
  datatype Pair = Pair(l: Bytes, r: Bytes)

  /** The table built from the list of merges, ranks being positions. */
  function Ranked(list: seq<Pair>): (e: seq<Ment>)
    ensures |e| == |list|
  {
    if list == [] then []
    else
      var n := |list| - 1;
      Ranked(list[..n]) + [Ment(PairKey(list[n].l, list[n].r), n)]
  }

  lemma {:induction false} RankedAt(list: seq<Pair>, i: nat)
    requires i < |list|
    ensures Ranked(list)[i] == Ment(PairKey(list[i].l, list[i].r), i)
  {
    if i < |list| - 1 { RankedAt(list[..|list| - 1], i); }
  }

  /** No string has a NUL, as in C none can. */
  predicate NulFree(list: seq<Pair>) {
    forall i :: 0 <= i < |list| ==> 0 !in list[i].l && 0 !in list[i].r
  }

  /** The rank of a pair is the last position at which it is listed, and -1 exactly if it is not. */
  lemma RankIsPosition(list: seq<Pair>, l: Bytes, r: Bytes)
    requires NulFree(list) && 0 !in l && 0 !in r
    ensures var rk := RankOf(LastValues(Ranked(list)), l, r);
      && (rk == -1 <==> Pair(l, r) !in list)
      && (rk != -1 ==> 0 <= rk < |list| && list[rk] == Pair(l, r))
      && forall j :: rk < j < |list| && 0 <= j ==> list[j] != Pair(l, r)
  {
    hide Ranked, LastValues, PairKey;
    var p := LastValuesIs(Ranked(list), PairKey(l, r));
    forall i | 0 <= i < |list|
      ensures (Ranked(list)[i].k == PairKey(l, r) <==> list[i] == Pair(l, r)) && Ranked(list)[i].v == i
    {
      RankedAt(list, i);
      SameKey(list[i], l, r);
    }
  }

  lemma SameKey(a: Pair, l: Bytes, r: Bytes)
    requires 0 !in a.l && 0 !in a.r && 0 !in l && 0 !in r
    ensures PairKey(a.l, a.r) == PairKey(l, r) <==> a == Pair(l, r)
  {
    hide PairKey;
    if PairKey(a.l, a.r) == PairKey(l, r) { PairKeyInjective(a.l, a.r, l, r); }
  }

  /** If the result of every listed merge is in the vocabulary, the table is closed. */
  lemma {:induction false} ListedIsClosed(vocab: map<Bytes, nat>, list: seq<Pair>)
    requires forall i :: 0 <= i < |list| ==>
      0 !in list[i].l && 0 !in list[i].r && list[i].l + list[i].r in vocab
    ensures Closed(vocab, LastValues(Ranked(list)))
  {
    if list != [] {
      var n := |list| - 1;
      ListedIsClosed(vocab, list[..n]);
      assert Ranked(list)[..n] == Ranked(list[..n]);
      forall l: Bytes, r: Bytes | 0 !in l && 0 !in r && PairKey(l, r) in LastValues(Ranked(list))
        ensures l + r in vocab
      {
        if PairKey(l, r) == PairKey(list[n].l, list[n].r) {
          PairKeyInjective(l, r, list[n].l, list[n].r);
        }
      }
    }
  }

  // ---------------------------------------------------------------- in place

  /** What fits in a buffer of `max` entries. */
  function Clip<T>(xs: seq<T>, max: nat): (r: seq<T>)
    ensures |r| <= max && r <= xs
  {
    if |xs| <= max then xs else xs[..max]
  }

  lemma ClipAppend<T>(a: seq<T>, b: seq<T>, max: nat)
    ensures Clip(Clip(a, max) + b, max) == Clip(a + b, max)
  {
  }

  lemma ClipFits<T>(a: seq<T>, max: nat)
    requires |a| <= max
    ensures Clip(a + [], max) == a
  {
    assert a + [] == a;
  }

  lemma ClipAdd<T>(a: seq<T>, b: seq<T>, c: seq<T>, max: nat)
    ensures Clip(Clip(a + b, max) + c, max) == Clip(a + (b + c), max)
  {
    ClipAppend(a + b, c, max);
    assert a + b + c == a + (b + c);
  }

  method Push<T>(out: array<T>, no: nat, max: nat, id: T) returns (no': nat)
    requires no <= max <= out.Length
    modifies out
    ensures no <= no' <= max && out[..no'] == Clip(old(out[..no]) + [id], max)
    ensures forall k :: no' <= k < out.Length ==> out[k] == old(out[k])
  {
    no' := no;
    if no < max {
      out[no] := id;
      no' := no + 1;
    }
  }

  /** One symbol as a stretch of the string. */
  ghost predicate Span(s: Bytes, off: nat, len: nat, sym: Bytes) {
    len > 0 && off + len <= |s| && s[off..off + len] == sym
  }

  ghost predicate AllSpans(s: Bytes, off: seq<nat>, len: seq<nat>, syms: seq<Bytes>) {
    && |off| == |len| == |syms|
    && forall i :: 0 <= i < |syms| ==> Span(s, off[i], len[i], syms[i])
  }

  ghost predicate Meets(end: nat, off: seq<nat>, len: seq<nat>, i: nat)
    requires |off| == |len| && i < |off|
  {
    off[i] + len[i] == if i == |off| - 1 then end else off[i + 1]
  }

  /** Stretches that follow each other without a gap, from 0 to `end`. */
  ghost predicate Contiguous(end: nat, off: seq<nat>, len: seq<nat>) {
    && |off| == |len|
    && (forall i :: 0 <= i < |off| ==> Meets(end, off, len, i))
    && (if |off| == 0 then end == 0 else off[0] == 0)
  }

  /** The symbols as consecutive stretches of the string: a partition of its first `end` bytes. */
  ghost predicate Spans(s: Bytes, end: nat, off: seq<nat>, len: seq<nat>, syms: seq<Bytes>) {
    AllSpans(s, off, len, syms) && Contiguous(end, off, len)
  }

  lemma SpanJoined(s: Bytes, o: nat, l: nat, r: nat, a: Bytes, b: Bytes)
    requires Span(s, o, l, a) && Span(s, o + l, r, b)
    ensures Span(s, o, l + r, a + b)
  {
  }

  /** Merging two neighbours: the left one grows over the right one, the rest move down. */
  lemma SpansMerge(s: Bytes, end: nat, off: seq<nat>, len: seq<nat>, syms: seq<Bytes>, bp: nat)
    requires Spans(s, end, off, len, syms) && bp + 1 < |syms|
    ensures off[bp] <= off[bp + 1] + len[bp + 1]
    ensures Spans(s, end, RemoveAt<nat>(off, bp + 1),
                  RemoveAt<nat>(len[bp := off[bp + 1] + len[bp + 1] - off[bp]], bp + 1), MergeAt(syms, bp))
  {
    hide Span, RemoveAt, MergeAt;
    assert Meets(end, off, len, bp);
    hide AllSpans, Contiguous;
    ContiguousMerge(end, off, len, bp);
    AllSpansMerge(s, off, len, syms, bp);
  }

  lemma ContiguousMerge(end: nat, off: seq<nat>, len: seq<nat>, bp: nat)
    requires Contiguous(end, off, len) && bp + 1 < |off|
    ensures Contiguous(end, RemoveAt<nat>(off, bp + 1), RemoveAt<nat>(len[bp := len[bp] + len[bp + 1]], bp + 1))
  {
    hide RemoveAt;
    var off', len' := RemoveAt<nat>(off, bp + 1), RemoveAt<nat>(len[bp := len[bp] + len[bp + 1]], bp + 1);
    forall j | 0 <= j < |off'| ensures Meets(end, off', len', j) {
      assert Meets(end, off, len, j) && Meets(end, off, len, j + 1);
    }
  }

  lemma AllSpansMerge(s: Bytes, off: seq<nat>, len: seq<nat>, syms: seq<Bytes>, bp: nat)
    requires AllSpans(s, off, len, syms) && bp + 1 < |syms| && off[bp] + len[bp] == off[bp + 1]
    ensures AllSpans(s, RemoveAt<nat>(off, bp + 1),
                     RemoveAt<nat>(len[bp := len[bp] + len[bp + 1]], bp + 1), MergeAt(syms, bp))
  {
    hide Span, RemoveAt;
    SpanJoined(s, off[bp], len[bp], len[bp + 1], syms[bp], syms[bp + 1]);
    MergeAtIs(syms, bp);
    hide MergeAt;
  }

  lemma MergeAtIs(syms: seq<Bytes>, bp: nat)
    requires bp + 1 < |syms|
    ensures forall j :: 0 <= j < |syms| - 1 ==>
      MergeAt(syms, bp)[j] == if j < bp then syms[j] else if j == bp then syms[j] + syms[j + 1] else syms[j + 1]
  {
    var (left, one, right) := (syms[..bp], [syms[bp] + syms[bp + 1]], syms[bp + 2..]);
    assert MergeAt(syms, bp) == left + one + right;
  }

  lemma SpansAdd(s: Bytes, off: seq<nat>, len: seq<nat>, syms: seq<Bytes>, i: nat, k: nat)
    requires i + k <= |s| && k > 0 && Spans(s, i, off, len, syms)
    ensures Spans(s, i + k, off + [i], len + [k], syms + [s[i..i + k]])
  {
    var syms', off', len' := syms + [s[i..i + k]], off + [i], len + [k];
    assert Span(s, i, k, s[i..i + k]);
    hide Span;
    forall j | 0 <= j < |syms'| ensures Span(s, off'[j], len'[j], syms'[j]) {
      if j < |syms| { assert Span(s, off[j], len[j], syms[j]); }
    }
    var end := i + k;
    forall j | 0 <= j < |syms'| ensures Meets(end, off', len', j) {
      if j < |syms| { assert Meets(i, off, len, j); }
    }
    assert syms != [] ==> off'[0] == off[0];
  }

  lemma SplitFrom(s: Bytes, i: nat)
    requires i < |s|
    ensures var k := U8Next(s[i..]).1; Split(s[i..]) == [s[i..i + k]] + Split(s[i + k..])
  {
    var k := U8Next(s[i..]).1;
    assert s[i..][..k] == s[i..i + k] && s[i..][k..] == s[i + k..];
  }

  lemma Moved<T>(done: seq<T>, x: T, left: seq<T>)
    ensures done + ([x] + left) == (done + [x]) + left
  {
    assert done + ([x] + left) == (done + [x]) + left;
  }

  /** The starting symbols, found by decoding the string. */
  method SplitInto(s: Bytes, soff: array<nat>, slen: array<nat>) returns (ns: nat)
    requires soff != slen && soff.Length == slen.Length == |s| + 1
    modifies soff, slen
    ensures ns <= |s| && Spans(s, |s|, soff[..ns], slen[..ns], Split(s))
  {
    hide Split, U8Next, Spans;
    ns := 0;
    var i := 0;
    ghost var syms: seq<Bytes> := [];
    SpansNone(s, soff[..0], slen[..0]);
    while i < |s|
      invariant ns <= i <= |s| && syms + Split(s[i..]) == Split(s)
      invariant Spans(s, i, soff[..ns], slen[..ns], syms)
    {
      var k := U8Next(s[i..]).1;
      SpansAdd(s, soff[..ns], slen[..ns], syms, i, k);
      SplitFrom(s, i);
      Moved(syms, s[i..i + k], Split(s[i + k..]));
      soff[ns], slen[ns] := i, k;
      ns := ns + 1;
      assert soff[..ns] == soff[..ns - 1] + [i] && slen[..ns] == slen[..ns - 1] + [k];
      syms := syms + [s[i..i + k]];
      i := i + k;
    }
    SplitNone(s);
    assert syms + [] == syms;
  }

  lemma SpansNone(s: Bytes, off: seq<nat>, len: seq<nat>)
    requires |off| == |len| == 0
    ensures Spans(s, 0, off, len, [])
  {
  }

  lemma SplitNone(s: Bytes)
    ensures Split(s[|s|..]) == []
  {
  }

  /** The leftmost pair of lowest rank, looked up pair by pair. */
  method BestPair(merges: HMap, s: Bytes, soff: array<nat>, slen: array<nat>, ns: nat, ghost syms: seq<Bytes>)
    returns (bp: int)
    requires merges.Valid() && ns <= soff.Length && ns <= slen.Length
    requires Spans(s, |s|, soff[..ns], slen[..ns], syms)
    ensures bp == Best(merges.m, syms) && (bp < 0 || bp + 1 < ns)
  {
    hide HMap.Valid, RankOf;
    var best := INT_MAX;
    bp := -1;
    var i := 0;
    while i + 1 < ns
      invariant i == 0 || i < |syms|
      invariant (bp, best) == BestTo(merges.m, syms, i)
      decreases ns - i
    {
      assert Span(s, soff[..ns][i], slen[..ns][i], syms[i]);
      assert Span(s, soff[..ns][i + 1], slen[..ns][i + 1], syms[i + 1]);
      var rk := Rank(merges, s[soff[i]..soff[i] + slen[i]], s[soff[i + 1]..soff[i + 1] + slen[i + 1]]);
      if rk >= 0 && rk < best {
        best, bp := rk, i;
      }
      i := i + 1;
    }
  }

  method Rank(merges: HMap, l: Bytes, r: Bytes) returns (rk: int)
    requires merges.Valid()
    ensures rk == RankOf(merges.m, l, r)
  {
    rk := merges.Get(l + [0] + r);
  }

  /** The entries from `at` up to `j` have moved down one place. */
  ghost predicate Shifted(before: seq<nat>, after: seq<nat>, at: nat, j: nat) {
    && |after| == |before| && j < |before|
    && (forall x :: at <= x < j ==> after[x] == before[x + 1])
    && (forall x :: 0 <= x < |after| && !(at <= x < j) ==> after[x] == before[x])
  }

  lemma ShiftedNone(s: seq<nat>, at: nat)
    requires at < |s|
    ensures Shifted(s, s, at, at)
  {
  }

  lemma ShiftedOne(before: seq<nat>, after: seq<nat>, at: nat, j: nat)
    requires Shifted(before, after, at, j) && at <= j < |after| - 1
    ensures Shifted(before, after[j := after[j + 1]], at, j + 1)
  {
    assert after[j + 1] == before[j + 1];
  }

  lemma ShiftedAll(before: seq<nat>, after: seq<nat>, at: nat)
    requires at < |before| && Shifted(before, after, at, |before| - 1)
    ensures after[..|before| - 1] == RemoveAt<nat>(before, at)
  {
    hide RemoveAt;
    var r := RemoveAt<nat>(before, at);
    forall x | 0 <= x < |r| ensures after[..|before| - 1][x] == r[x] {
      assert after[x] == if at <= x then before[x + 1] else before[x];
    }
  }

  /** Grows one stretch over the next and moves the later ones down. */
  method MergeSpans(soff: array<nat>, slen: array<nat>, ns: nat, bp: nat)
    requires soff != slen && bp + 1 < ns <= soff.Length && ns <= slen.Length
    requires soff[bp] <= soff[bp + 1] + slen[bp + 1]
    modifies soff, slen
    ensures soff[..ns - 1] == RemoveAt<nat>(old(soff[..ns]), bp + 1)
    ensures slen[..ns - 1] ==
      RemoveAt<nat>(old(slen[..ns])[bp := old(soff[bp + 1] + slen[bp + 1] - soff[bp])], bp + 1)
  {
    hide RemoveAt, Shifted;
    ghost var o := soff[..ns];
    slen[bp] := soff[bp + 1] + slen[bp + 1] - soff[bp];
    ghost var l := slen[..ns];
    ShiftedNone(o, bp + 1);
    ShiftedNone(l, bp + 1);
    for j := bp + 1 to ns - 1
      invariant Shifted(o, soff[..ns], bp + 1, j) && Shifted(l, slen[..ns], bp + 1, j)
    {
      ShiftedOne(o, soff[..ns], bp + 1, j);
      ShiftedOne(l, slen[..ns], bp + 1, j);
      soff[j], slen[j] := soff[j + 1], slen[j + 1];
    }
    ShiftedAll(o, soff[..ns], bp + 1);
    ShiftedAll(l, slen[..ns], bp + 1);
  }

  /** The merge loop: the stretches end up as the merged symbols. */
  method MergeAll(merges: HMap, s: Bytes, soff: array<nat>, slen: array<nat>, ns0: nat, ghost syms0: seq<Bytes>)
    returns (ns: nat)
    requires merges.Valid() && soff != slen && ns0 <= soff.Length && ns0 <= slen.Length
    requires Spans(s, |s|, soff[..ns0], slen[..ns0], syms0)
    modifies soff, slen
    ensures merges.Valid() && merges.m == old(merges.m)
    ensures ns <= ns0 && Spans(s, |s|, soff[..ns], slen[..ns], Merge(merges.m, syms0))
  {
    hide HMap.Valid, Best, RemoveAt, MergeAt, Spans;
    ns := ns0;
    ghost var syms := syms0;
    var bp := BestPair(merges, s, soff, slen, ns, syms);
    while bp >= 0
      invariant ns <= ns0 && merges.Valid() && merges.m == old(merges.m)
      invariant Spans(s, |s|, soff[..ns], slen[..ns], syms)
      invariant Merge(merges.m, syms) == Merge(merges.m, syms0)
      invariant bp == Best(merges.m, syms) && (bp < 0 || bp + 1 < ns)
      decreases ns
    {
      SpansMerge(s, |s|, soff[..ns], slen[..ns], syms, bp);
      assert soff[..ns][bp] == soff[bp] && soff[..ns][bp + 1] == soff[bp + 1] && slen[..ns][bp + 1] == slen[bp + 1];
      MergeSpans(soff, slen, ns, bp);
      ns := ns - 1;
      syms := MergeAt(syms, bp);
      bp := BestPair(merges, s, soff, slen, ns, syms);
    }
  }

  lemma IdsAdd(vocab: map<Bytes, nat>, syms: seq<Bytes>, i: nat)
    requires i < |syms|
    ensures Ids(vocab, syms[..i + 1]) == Ids(vocab, syms[..i]) + if syms[i] in vocab then [vocab[syms[i]]] else []
  {
    assert syms[..i + 1][..i] == syms[..i];
  }

  /** Appends the ids of the symbols, as far as they fit. */
  method EmitIds(vocab: HMap, s: Bytes, soff: array<nat>, slen: array<nat>, ns: nat, ghost syms: seq<Bytes>,
                 out: array<nat>, no: nat, max: nat)
    returns (no': nat)
    requires vocab.Valid() && ns <= soff.Length && ns <= slen.Length
    requires Spans(s, |s|, soff[..ns], slen[..ns], syms)
    requires no <= max <= out.Length && out != soff && out != slen
    modifies out
    ensures vocab.Valid() && vocab.m == old(vocab.m)
    ensures no' <= max && out[..no'] == Clip(old(out[..no]) + Ids(vocab.m, syms), max)
    ensures forall k :: no' <= k < out.Length ==> out[k] == old(out[k])
  {
    hide HMap.Valid, Clip;
    no' := no;
    ClipFits(out[..no], max);
    for i := 0 to ns
      invariant vocab.Valid() && vocab.m == old(vocab.m)
      invariant no' <= max && out[..no'] == Clip(old(out[..no]) + Ids(vocab.m, syms[..i]), max)
      invariant forall k :: no' <= k < out.Length ==> out[k] == old(out[k])
    {
      assert Span(s, soff[..ns][i], slen[..ns][i], syms[i]);
      var id := vocab.Get(s[soff[i]..soff[i] + slen[i]]);
      IdsAdd(vocab.m, syms, i);
      assert Ids(vocab.m, syms[..i]) + [] == Ids(vocab.m, syms[..i]);
      if id >= 0 {
        ClipAdd(old(out[..no]), Ids(vocab.m, syms[..i]), [id as nat], max);
        no' := Push(out, no', max, id);
      }
    }
    assert syms[..ns] == syms;
  }

  /** The byte-level spelling, put together from the table. */
  method SpellPiece(byte2str: seq<Bytes>, p: Bytes) returns (s: Bytes)
    requires |byte2str| == 256 && forall b: byte :: byte2str[b] == Glyph(b)
    ensures s == Spell(p)
  {
    hide Glyph;
    s := [];
    for i := 0 to |p|
      invariant s == Spell(p[..i])
    {
      SpellConcat(p[..i], [p[i]]);
      assert p[..i + 1] == p[..i] + [p[i]];
      SpellOne(p[i]);
      s := s + byte2str[p[i]];
    }
    assert p[..|p|] == p;
  }

  lemma SpellOne(b: byte)
    ensures Spell([b]) == Glyph(b)
  {
  }

  /** Appends the ids of one piece, as far as they fit. */
  method BpePiece(vocab: HMap, merges: HMap, byte2str: seq<Bytes>, p: Bytes, out: array<nat>, no: nat, max: nat)
    returns (no': nat)
    requires vocab.Valid() && merges.Valid()
    requires |byte2str| == 256 && forall b: byte :: byte2str[b] == Glyph(b)
    requires no <= max <= out.Length
    modifies out
    ensures vocab.Valid() && merges.Valid() && vocab.m == old(vocab.m) && merges.m == old(merges.m)
    ensures no' <= max && out[..no'] == Clip(old(out[..no]) + PieceIds(vocab.m, merges.m, p), max)
    ensures forall k :: no' <= k < out.Length ==> out[k] == old(out[k])
  {
    hide HMap.Valid, Clip, Spell, Split, Glyph, Merge, Ids, Spans;
    var s := SpellPiece(byte2str, p);
    var whole := vocab.Get(s);
    if whole >= 0 {
      no' := Push(out, no, max, whole);
      return;
    }
    var soff, slen := new nat[|s| + 1], new nat[|s| + 1];
    var ns := SplitInto(s, soff, slen);
    ns := MergeAll(merges, s, soff, slen, ns, Split(s));
    no' := EmitIds(vocab, s, soff, slen, ns, Merge(merges.m, Split(s)), out, no, max);
  }
}
