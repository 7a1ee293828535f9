/** Speculative decoding: a draft of the next tokens is run in one batch, and as much of it is kept as
    greedy decoding would have produced. */
module SpecDecode {
  import opened Blocks
  import opened KvSpec
  import opened KvDecode

  /** The tokens before the first stop token. */
  function UntilStop(tokens: seq<nat>, stops: set<nat>): (r: seq<nat>)
    ensures r <= tokens && forall t :: t in r ==> t !in stops
    ensures |r| < |tokens| ==> tokens[|r|] in stops
  {
    if tokens == [] || tokens[0] in stops then []
    else [tokens[0]] + UntilStop(tokens[1..], stops)
  }

  /** Only one list of tokens has those properties. */
  lemma {:induction false} UntilStopIs(tokens: seq<nat>, stops: set<nat>, r: seq<nat>)
    requires r <= tokens && forall t :: t in r ==> t !in stops
    requires |r| < |tokens| ==> tokens[|r|] in stops
    ensures UntilStop(tokens, stops) == r
  {
    if r != [] {
      assert tokens[0] == r[0];
      UntilStopIs(tokens[1..], stops, r[1..]);
      assert r == [r[0]] + r[1..];
    }
  }

  /** What greedy decoding says after the prompt, up to the first stop token. */
  function Reply(net: Net, prompt: seq<nat>, n: nat, stops: set<nat>): seq<nat>
    requires net.Valid() && net.Tokens(prompt) && prompt != []
  {
    UntilStop(net.Greedy(prompt, n)[|prompt|..], stops)
  }

  /** Tokens that greedy decoding produces are the reply if it can say no more or would stop. */
  lemma ReplyIs(net: Net, prompt: seq<nat>, n: nat, stops: set<nat>, said: seq<nat>)
    requires net.Valid() && net.Tokens(prompt) && prompt != [] && |said| <= n
    requires prompt + said == net.Greedy(prompt, |said|) && forall t :: t in said ==> t !in stops
    requires |said| < n ==> net.ArgMaxTo(net.Logits(net.Greedy(prompt, |said|)), net.vocab) in stops
    ensures Reply(net, prompt, n, stops) == said
  {
    hide *;
    var out := net.Greedy(prompt, n);
    net.GreedyExtends(prompt, n, |said|);
    if |said| < n { net.GreedyTokens(prompt, n, |said|); }
    Tail(out, prompt, said);
    UntilStopIs(out[|prompt|..], stops, said);
    ReplyOf(net, prompt, n, stops);
  }

  lemma ReplyOf(net: Net, prompt: seq<nat>, n: nat, stops: set<nat>)
    requires net.Valid() && net.Tokens(prompt) && prompt != []
    ensures Reply(net, prompt, n, stops) == UntilStop(net.Greedy(prompt, n)[|prompt|..], stops)
  {
  }

  lemma Tail(out: seq<nat>, prompt: seq<nat>, said: seq<nat>)
    requires |prompt| + |said| <= |out| && out[..|prompt| + |said|] == prompt + said
    ensures said <= out[|prompt|..]
    ensures |prompt| + |said| < |out| ==> out[|prompt|..][|said|] == out[|prompt| + |said|]
  {
    assert out[|prompt|..][..|said|] == out[..|prompt| + |said|][|prompt|..];
  }

  /** With no stop tokens it is all of what greedy decoding says. */
  lemma ReplyToTheEnd(net: Net, prompt: seq<nat>, n: nat)
    requires net.Valid() && net.Tokens(prompt) && prompt != []
    ensures prompt + Reply(net, prompt, n, {}) == net.Greedy(prompt, n)
  {
    var out := net.Greedy(prompt, n);
    net.GreedyExtends(prompt, n, 0);
    UntilStopIs(out[|prompt|..], {}, out[|prompt|..]);
  }

  /** A draft all of whose tokens are the scan's choice is what greedy decoding says next. */
  lemma {:induction false} Follows(net: Net, prompt: seq<nat>, said: seq<nat>, draft: seq<nat>)
    requires net.Valid() && net.Tokens(prompt) && prompt != []
    requires prompt + said == net.Greedy(prompt, |said|)
    requires net.Tokens(prompt + said + draft)
    requires forall j :: 0 <= j < |draft| ==>
      draft[j] == net.ArgMaxTo(net.Logits((prompt + said + draft)[..|prompt + said| + j]), net.vocab)
    ensures prompt + (said + draft) == net.Greedy(prompt, |said + draft|)
    decreases |draft|
  {
    hide Net.Logits, Net.Greedy, Net.ArgMaxTo, Net.Valid;
    if draft == [] {
      assert said + draft == said;
    } else {
      var n := |draft| - 1;
      assert prompt + said + draft == prompt + said + draft[..n] + [draft[n]];
      forall j | 0 <= j < n
        ensures draft[..n][j] ==
          net.ArgMaxTo(net.Logits((prompt + said + draft[..n])[..|prompt + said| + j]), net.vocab)
      {
        assert (prompt + said + draft[..n])[..|prompt + said| + j] == (prompt + said + draft)[..|prompt + said| + j];
      }
      Follows(net, prompt, said, draft[..n]);
      net.GreedyStep(prompt, |said| + n);
      assert (prompt + said + draft)[..|prompt + said| + n] == prompt + (said + draft[..n]);
      assert prompt + (said + draft) == prompt + (said + draft[..n]) + [draft[n]];
    }
  }

  /** A row of a batch of logits, in a buffer of its own. */
  method CopyRow(lo: array<Float>, k: nat, S: nat, w: nat) returns (row: array<Float>)
    requires k < S && lo.Length == Times(S, w)
    ensures fresh(row) && row[..] == Block(lo[..], k, S, w) && row.Length == w
  {
    row := new Float[Times(1, w)];
    CopyBlock(row, 0, 1, lo, k, S, w);
    RowStored(row[..], 0, 1, w, Block(lo[..], k, S, w));
    WholeBlock(row[..], w);
  }

  /** The scan's choice after the first `n` of the tokens `full`. */
  function Choice(net: Net, full: seq<nat>, n: nat): nat
    requires net.Valid() && net.Tokens(full) && 0 < n <= |full|
  {
    net.ArgMaxTo(net.Logits(full[..n]), net.vocab)
  }

  /** The rows of a batch of logits are those after each of its tokens, the first one at `kv`. */
  ghost predicate Verified(net: Net, lo: Row, S: nat, full: seq<nat>, kv: nat) {
    && net.Valid() && net.Tokens(full) && |full| == kv + S && |lo| == Times(S, net.vocab)
    && forall s :: 0 <= s < S ==> Block(lo, s, S, net.vocab) == net.Logits(full[..kv + s + 1])
  }

  /** The scan over one row. */
  method ChoiceAt(m: Model, lo: array<Float>, k: nat, S: nat, ghost full: seq<nat>, ghost kv: nat) returns (t: nat)
    requires k < S && Verified(m.net, lo[..], S, full, kv)
    ensures t == Choice(m.net, full, kv + k + 1)
  {
    hide Block, Times, Net.Logits, Net.ArgMaxTo;
    var row := CopyRow(lo, k, S, m.net.vocab);
    t := m.ArgMax(row);
  }

  /** Keeps the draft as long as it is what the scan would have chosen: `k` of its tokens, of which
      none is a stop token. `done` says that the scan has chosen one. */
  method Accept(m: Model, all: array<nat>, draft: seq<nat>, lo: array<Float>, kv: nat, room: nat, stops: set<nat>,
                said0: seq<nat>, ghost full: seq<nat>)
    returns (k: nat, said: seq<nat>, done: bool)
    requires Verified(m.net, lo[..], 1 + |draft|, full, kv) && full[kv + 1..] == draft && |draft| <= room
    requires |full| <= all.Length && all[..kv + 1] == full[..kv + 1] && (lo as object) != all
    modifies all
    ensures k <= |draft| && said == said0 + draft[..k] && all[..kv + 1 + k] == full[..kv + 1 + k]
    ensures forall j :: kv + 1 + k <= j < all.Length ==> all[j] == old(all[j])
    ensures forall j :: 0 <= j < k ==> draft[j] == Choice(m.net, full, kv + 1 + j) && draft[j] !in stops
    ensures done ==> Choice(m.net, full, kv + 1 + k) in stops
    ensures !done && k < |draft| ==> draft[k] != Choice(m.net, full, kv + 1 + k)
  {
    hide Block, Times, Choice, Net.Valid, Net.Logits;
    k, said, done := 0, said0, false;
    while k < |draft| && k < room
      invariant k <= |draft| && said == said0 + draft[..k] && all[..kv + 1 + k] == full[..kv + 1 + k]
      invariant lo[..] == old(lo[..]) && !done
      invariant forall j :: kv + 1 + k <= j < all.Length ==> all[j] == old(all[j])
      invariant forall j :: 0 <= j < k ==> draft[j] == Choice(m.net, full, kv + 1 + j) && draft[j] !in stops
    {
      var t := ChoiceAt(m, lo, k, 1 + |draft|, full, kv);
      assert full[kv + 1..][k] == full[kv + 1 + k];
      if t != draft[k] {
        break;
      }
      if draft[k] in stops {
        done := true;
        break;
      }
      said := said + [draft[k]];
      all[kv + 1 + k] := draft[k];
      k := k + 1;
    }
  }

  const MOST_DRAFTS: nat := 63

  /** How much of a proposed draft is run: no more than wanted, than tokens are still asked for, and
      than the cache has room for. */
  function Clipped(proposed: seq<nat>, limit: nat, room: nat, kv: nat, maxT: nat): (draft: seq<nat>)
    ensures draft <= proposed && |draft| <= room && (kv < maxT ==> kv + 1 + |draft| <= maxT)
  {
    var wanted := if limit > MOST_DRAFTS then MOST_DRAFTS else limit;
    var g := if |proposed| > wanted then wanted else |proposed|;
    var g' := if g > room then room else g;
    var fit: int := if kv + 1 + g' + 1 > maxT then maxT - kv - 2 else g';
    proposed[..if fit < 0 then 0 else fit]
  }

  /** As much of a draft is run as is proposed, wanted and asked for, at most 63 tokens; less only if the
      cache has no room, and then one position is left free. */
  lemma ClippedIs(proposed: seq<nat>, limit: nat, room: nat, kv: nat, maxT: nat)
    ensures var g := |Clipped(proposed, limit, room, kv, maxT)|;
      && g <= |proposed| && g <= limit && g <= 63 && g <= room
      && (g == |proposed| || g == limit || g == 63 || g == room || g == 0 || kv + g + 2 == maxT)
      && (g == 0 && proposed != [] && limit > 0 && room > 0 ==> kv + 2 >= maxT)
      && (g > 0 ==> kv + g + 2 <= maxT)
  {
  }

  /** What has been said is what greedy decoding says, with no stop token in it. */
  ghost predicate Saying(net: Net, prompt: seq<nat>, said: seq<nat>, stops: set<nat>) {
    && net.Valid() && net.Tokens(prompt) && prompt != []
    && prompt + said == net.Greedy(prompt, |said|) && forall i :: 0 <= i < |said| ==> said[i] !in stops
  }

  lemma SaysNext(net: Net, prompt: seq<nat>, said: seq<nat>, stops: set<nat>)
    requires Saying(net, prompt, said, stops)
    ensures net.Tokens(prompt + said) && prompt + said != []
    ensures var next := net.ArgMaxTo(net.Logits(prompt + said), net.vocab);
      next !in stops ==> Saying(net, prompt, said + [next], stops)
  {
    hide Net.Logits, Net.ArgMaxTo;
    net.GreedyStep(prompt, |said|);
    var next := net.ArgMaxTo(net.Logits(prompt + said), net.vocab);
    assert prompt + (said + [next]) == prompt + said + [next];
  }

  lemma SaysDraft(net: Net, prompt: seq<nat>, said: seq<nat>, stops: set<nat>, draft: seq<nat>, k: nat)
    requires Saying(net, prompt, said, stops) && k <= |draft| && net.Tokens(prompt + said + draft)
    requires forall j :: 0 <= j < k ==>
      draft[j] == Choice(net, prompt + said + draft, |prompt + said| + j) && draft[j] !in stops
    ensures Saying(net, prompt, said + draft[..k], stops)
    ensures (prompt + said + draft)[..|prompt + said| + k] == prompt + (said + draft[..k])
  {
    hide Net.Logits, Net.ArgMaxTo, Net.Greedy;
    var full, cut := prompt + said + draft, prompt + said + draft[..k];
    forall j | 0 <= j < k
      ensures draft[..k][j] == net.ArgMaxTo(net.Logits(cut[..|prompt + said| + j]), net.vocab)
    {
      assert cut[..|prompt + said| + j] == full[..|prompt + said| + j];
    }
    Follows(net, prompt, said, draft[..k]);
    assert full[..|prompt + said| + k] == prompt + (said + draft[..k]);
  }

  /** The tokens of what has been said, with the cache holding all of them but the last. */
  ghost predicate Spoken(m: Model, all: array<nat>, prompt: seq<nat>, said: seq<nat>, stops: set<nat>)
    reads m`K, m`V, m`maxT, m.store, m.store.repr, m.K, m.V, all
  {
    && Saying(m.net, prompt, said, stops) && m.Foreign(all) && |prompt + said| <= all.Length
    && all[..|prompt + said|] == prompt + said
  }

  /** One forward pass, over the last token said and a draft. */
  method Round(m: Model, all: array<nat>, prompt: seq<nat>, said0: seq<nat>, draft: seq<nat>, kv: nat, room: nat,
               stops: set<nat>)
    returns (said: seq<nat>, logit: array<Float>, done: bool)
    requires said0 != [] && kv == |prompt + said0| - 1 && Spoken(m, all, prompt, said0, stops)
    requires m.Holds((prompt + said0)[..kv])
    requires m.net.Tokens(draft) && |draft| <= room
    requires kv + 1 + |draft| <= m.maxT && kv + 1 + |draft| <= all.Length
    modifies all, m.K, m.V, m.store.repr
    ensures said0 <= said && |said| <= |said0| + room && Spoken(m, all, prompt, said, stops)
    ensures m.Holds(prompt + said)
    ensures forall j :: |prompt| + |said| <= j < all.Length ==> all[j] == old(all[j])
    ensures m.net.Tokens(prompt + said) && logit[..] == m.net.Logits(prompt + said)
    ensures done ==> m.net.ArgMaxTo(logit[..], m.net.vocab) in stops
  {
    hide *;
    ghost var full, hist := prompt + said0 + draft, (prompt + said0)[..kv];
    SpokenIs(m, all, prompt, said0, stops);
    JoinTokens(m.net, prompt + said0, draft);
    var batch := [said0[|said0| - 1]] + draft;
    JoinBatch(prompt, said0, draft);
    m.HeldValid(hist);
    m.ForeignIs(all);
    var lo := m.StepAll(batch, kv, hist);
    IsVerified(m.net, lo[..], 1 + |draft|, full, kv);
    var k;
    k, said, done := Accept(m, all, draft, lo, kv, room, stops, said0, full);
    SaysDraft(m.net, prompt, said0, stops, draft, k);
    m.PrefixHeld(full, kv + 1 + k);
    logit := CopyRow(lo, k, 1 + |draft|, m.net.vocab);
    ChoiceIs(m.net, full, kv + 1 + k);
    SpokenSo(m, all, prompt, said, stops);
  }

  lemma SpokenSo(m: Model, all: array<nat>, prompt: seq<nat>, said: seq<nat>, stops: set<nat>)
    requires Saying(m.net, prompt, said, stops) && m.Foreign(all)
    requires |prompt + said| <= all.Length && all[..|prompt + said|] == prompt + said
    ensures Spoken(m, all, prompt, said, stops)
  {
  }

  lemma JoinTokens(net: Net, a: seq<nat>, b: seq<nat>)
    requires net.Tokens(a) && net.Tokens(b)
    ensures net.Tokens(a + b)
  {
  }

  lemma JoinBatch(prompt: seq<nat>, said: seq<nat>, draft: seq<nat>)
    requires said != []
    ensures var n := |prompt + said| - 1; (prompt + said)[..n] + ([said[|said| - 1]] + draft) == prompt + said + draft
    ensures (prompt + said + draft)[..|prompt + said|] == prompt + said
    ensures (prompt + said + draft)[|prompt + said|..] == draft
  {
  }

  lemma IsVerified(net: Net, lo: Row, S: nat, full: seq<nat>, kv: nat)
    requires net.Valid() && net.Tokens(full) && |full| == kv + S && |lo| == Times(S, net.vocab)
    requires forall s :: 0 <= s < S ==> Block(lo, s, S, net.vocab) == net.Logits(full[..kv + s + 1])
    ensures Verified(net, lo, S, full, kv)
  {
  }

  lemma ChoiceIs(net: Net, full: seq<nat>, n: nat)
    requires net.Valid() && net.Tokens(full) && 0 < n <= |full|
    ensures net.Tokens(full[..n]) && Choice(net, full, n) == net.ArgMaxTo(net.Logits(full[..n]), net.vocab)
  {
  }

  /** Says the scan's choice, unless it is a stop token. */
  method SayNext(m: Model, all: array<nat>, prompt: seq<nat>, said0: seq<nat>, stops: set<nat>, logit: array<Float>)
    returns (said: seq<nat>, stop: bool)
    requires Spoken(m, all, prompt, said0, stops) && |prompt + said0| < all.Length
    requires m.Holds(prompt + said0) && m.net.Tokens(prompt + said0) && logit[..] == m.net.Logits(prompt + said0)
    modifies all
    ensures Spoken(m, all, prompt, said, stops) && m.Holds(prompt + said0)
    ensures stop ==> said == said0 && m.net.ArgMaxTo(m.net.Logits(prompt + said0), m.net.vocab) in stops
    ensures !stop ==> |said| == |said0| + 1 && (prompt + said)[..|prompt + said0|] == prompt + said0
    ensures forall j :: |prompt + said| <= j < all.Length ==> all[j] == old(all[j])
  {
    hide *;
    SpokenIs(m, all, prompt, said0, stops);
    SaysNext(m.net, prompt, said0, stops);
    m.HeldValid(prompt + said0);
    HasVocab(m.net, prompt + said0);
    var next := m.ArgMax(logit);
    if next in stops {
      return said0, true;
    }
    m.Emit(all, |prompt + said0|, next, prompt + said0);
    said, stop := said0 + [next], false;
    assert prompt + said == prompt + said0 + [next];
    SpokenSo(m, all, prompt, said, stops);
  }

  lemma HasVocab(net: Net, ids: seq<nat>)
    requires net.Valid() && net.Tokens(ids) && ids != []
    ensures net.vocab >= 1 && |net.Logits(ids)| == net.vocab
  {
  }

  lemma Finished(net: Net, prompt: seq<nat>, n: nat, stops: set<nat>, said: seq<nat>)
    requires Saying(net, prompt, said, stops) && |said| <= n && net.Tokens(prompt + said) && prompt + said != []
    requires |said| == n || net.ArgMaxTo(net.Logits(prompt + said), net.vocab) in stops
    ensures said == Reply(net, prompt, n, stops)
  {
    hide Net.Valid, Net.Logits, Net.Greedy, Net.ArgMaxTo, Reply;
    ReplyIs(net, prompt, n, stops, said);
  }

  lemma SpokenIs(m: Model, all: array<nat>, prompt: seq<nat>, said: seq<nat>, stops: set<nat>)
    requires Spoken(m, all, prompt, said, stops)
    ensures m.net.Valid() && Saying(m.net, prompt, said, stops) && m.net.Tokens(prompt + said) && prompt + said != []
    ensures |prompt + said| <= all.Length && all[..|prompt| + |said|] == prompt + said && m.Foreign(all)
  {
    SaysNext(m.net, prompt, said, stops);
  }

  lemma SaysNothing(m: Model, all: array<nat>, prompt: seq<nat>, stops: set<nat>)
    requires m.net.Valid() && m.net.Tokens(prompt) && prompt != [] && m.Foreign(all)
    requires |prompt| <= all.Length && all[..|prompt|] == prompt
    ensures prompt + [] == prompt && Spoken(m, all, prompt, [], stops)
  {
    assert prompt + [] == prompt;
  }

  lemma DraftTokens(net: Net, proposed: seq<nat>, limit: nat, room: nat, kv: nat, maxT: nat)
    requires net.Tokens(proposed)
    ensures net.Tokens(Clipped(proposed, limit, room, kv, maxT)) && net.Tokens([])
  {
  }

  /** Decodes at most `nNew` tokens after the prompt, for any drafts whatever. The tokens said are
      those of greedy decoding up to the first stop token; the buffers hold all of them but perhaps
      the last, whatever rejected drafts have been written behind; and there are no more forward
      passes than tokens. */
  method Speculate(m: Model, all: array<nat>, prompt: seq<nat>, nNew: nat, stops: set<nat>,
                   drafts: (nat, seq<nat>) -> seq<nat>, limit: nat, logit0: array<Float>)
    returns (said: seq<nat>, kv: nat, forwards: nat)
    requires m.Holds(prompt) && prompt != [] && logit0[..] == m.net.Logits(prompt)
    requires |prompt| + nNew <= m.maxT && |prompt| + nNew <= all.Length && all[..|prompt|] == prompt
    requires m.Foreign(all) && forall round, history :: m.net.Tokens(drafts(round, history))
    modifies all, m.K, m.V, m.store.repr
    ensures m.net.Valid() && said == Reply(m.net, prompt, nNew, stops)
    ensures |said| <= nNew && all[..|prompt| + |said|] == prompt + said
    ensures forall j :: |prompt| + |said| <= j < all.Length ==> all[j] == old(all[j])
    ensures |prompt| <= kv <= |prompt| + |said| <= kv + 1 && m.Holds((prompt + said)[..kv])
    ensures forwards <= |said|
  {
    hide *;
    m.HeldValid(prompt);
    SaysNothing(m, all, prompt, stops);
    kv, said, forwards := |prompt|, [], 0;
    var logit, done, stop := logit0, false, false;
    while |said| < nNew && !done
      invariant |said| <= nNew && kv == |prompt| + |said| && forwards <= |said| && Spoken(m, all, prompt, said, stops)
      invariant m.Holds(prompt + said)
      invariant forall j :: |prompt| + |said| <= j < all.Length ==> all[j] == old(all[j])
      invariant m.net.Valid() && m.net.Tokens(prompt + said) && logit[..] == m.net.Logits(prompt + said)
      invariant done ==> m.net.ArgMaxTo(logit[..], m.net.vocab) in stops
      decreases nNew - |said|
    {
      SpokenIs(m, all, prompt, said, stops);
      said, stop := SayNext(m, all, prompt, said, stops, logit);
      SpokenIs(m, all, prompt, said, stops);
      if stop || |said| >= nNew {
        break;
      }
      var room, proposed := nNew - |said|, if limit > 0 then drafts(forwards, all[..kv + 1]) else [];
      var draft := Clipped(proposed, limit, room, kv, m.maxT);
      DraftTokens(m.net, proposed, limit, room, kv, m.maxT);
      said, logit, done := Round(m, all, prompt, said, draft, kv, room, stops);
      forwards := forwards + 1;
      kv := |prompt| + |said|;
    }
    SpokenIs(m, all, prompt, said, stops);
    Finished(m.net, prompt, nNew, stops, said);
    assert kv == |prompt + said| ==> (prompt + said)[..kv] == prompt + said;
  }
}
