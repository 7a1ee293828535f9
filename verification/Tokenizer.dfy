/** Text to token ids and back: added tokens cut out first, the rest cut into pieces and encoded. */
module Tokenizer {
  import opened Bytes
  import opened Bpe
  import opened ByteLevel
  import opened Chunks
  import opened HashMap
  import opened Occurrences
  import opened Pretok
  import opened Probing
  import opened Regex

  /** An added token: matched and written literally. */
  datatype Special = Special(str: Bytes, id: nat)

  // ---------------------------------------------------------------- one chunk

  /** The code points of a byte string, one for each of the characters it splits into. */
  function Codes(p: Bytes): (c: seq<nat>)
    ensures |c| == |Split(p)|
  {
    if p == [] then [] else [U8Next(p).0] + Codes(p[U8Next(p).1..])
  }

  /** The pieces of a chunk from character `i` on. */
  function Pieces(k: Classes, chars: seq<Bytes>, codes: seq<nat>, i: nat): seq<Bytes>
    requires |chars| == |codes| && i <= |codes|
    decreases |codes| - i
  {
    if i == |codes| then []
    else
      var e := PieceEnd(k, codes, i);
      [Flatten(chars[i..e])] + Pieces(k, chars, codes, e)
  }

  function ChunkPieces(k: Classes, p: Bytes): seq<Bytes> {
    Pieces(k, Split(p), Codes(p), 0)
  }

  function IdsOfPieces(vocab: map<Bytes, nat>, merges: map<Bytes, nat>, pieces: seq<Bytes>): seq<nat> {
    if pieces == [] then []
    else
      IdsOfPieces(vocab, merges, pieces[..|pieces| - 1]) + PieceIds(vocab, merges, pieces[|pieces| - 1])
  }

  function ChunkIds(vocab: map<Bytes, nat>, merges: map<Bytes, nat>, k: Classes, p: Bytes): seq<nat> {
    IdsOfPieces(vocab, merges, ChunkPieces(k, p))
  }

  lemma {:induction false} SplitFlatten(p: Bytes)
    ensures Flatten(Split(p)) == p
    decreases |p|
  {
    if p != [] {
      var n := U8Next(p).1;
      hide U8Next;
      SplitFlatten(p[n..]);
      FlattenConcat([p[..n]], Split(p[n..]));
      FlattenOne(p[..n]);
      assert p == p[..n] + p[n..];
    }
  }

  lemma PiecesStep(k: Classes, chars: seq<Bytes>, codes: seq<nat>, i: nat)
    requires |chars| == |codes| && i <= |codes|
    ensures Pieces(k, chars, codes, |codes|) == []
    ensures i < |codes| ==>
      var e := PieceEnd(k, codes, i);
      Pieces(k, chars, codes, i) == [Flatten(chars[i..e])] + Pieces(k, chars, codes, e)
  {
    hide PieceEnd, Flatten;
  }

  lemma {:induction false} PiecesFlatten(k: Classes, chars: seq<Bytes>, codes: seq<nat>, i: nat)
    requires |chars| == |codes| && i <= |codes|
    ensures Flatten(Pieces(k, chars, codes, i)) == Flatten(chars[i..])
    decreases |codes| - i
  {
    hide *;
    PiecesStep(k, chars, codes, i);
    if i < |codes| {
      var e := PieceEnd(k, codes, i);
      PiecesFlatten(k, chars, codes, e);
      FlattenConcat([Flatten(chars[i..e])], Pieces(k, chars, codes, e));
      FlattenOne(Flatten(chars[i..e]));
      FlattenConcat(chars[i..e], chars[e..]);
      assert chars[i..] == chars[i..e] + chars[e..];
    } else {
      FlattenNone<byte>();
      assert chars[i..] == [];
    }
  }

  /** The pieces of a chunk partition it, whatever counts as a letter, a number or a space. */
  lemma PiecesPartition(k: Classes, p: Bytes)
    ensures Flatten(ChunkPieces(k, p)) == p
  {
    hide Flatten, Split, Codes;
    SplitFlatten(p);
    PiecesFlatten(k, Split(p), Codes(p), 0);
    assert Split(p)[0..] == Split(p);
  }

  // ---------------------------------------------------------------- added tokens

  predicate IsAt(sp: seq<Special>, k: nat, text: Bytes, j: nat)
    requires k < |sp|
  {
    sp[k].str != [] && At(text, sp[k].str, j)
  }

  /** The first added token of the list, from its `k`th entry, that stands at `j`; or -1. */
  function TokenAt(sp: seq<Special>, text: Bytes, j: nat, k: nat): (x: int)
    requires k <= |sp|
    ensures x == -1 || (k <= x < |sp| && IsAt(sp, x, text, j))
    ensures forall y :: k <= y < |sp| && IsAt(sp, y, text, j) ==> 0 <= x <= y
    decreases |sp| - k
  {
    if k == |sp| then -1 else if IsAt(sp, k, text, j) then k else TokenAt(sp, text, j, k + 1)
  }

  /** The next place at or after `i` where an added token stands, and which; or (-1, -1). */
  function NextToken(sp: seq<Special>, text: Bytes, i: nat): (r: (int, int))
    requires i <= |text|
    ensures r.0 == -1 || (i <= r.0 < |text| && 0 <= r.1 < |sp| && IsAt(sp, r.1, text, r.0))
    decreases |text| - i
  {
    if i == |text| then (-1, -1)
    else if TokenAt(sp, text, i, 0) >= 0 then (i, TokenAt(sp, text, i, 0))
    else NextToken(sp, text, i + 1)
  }

  /** No added token stands before the place found, and with the list sorted by length, longest
      first, none at that place is longer. */
  lemma {:induction false} NextTokenIsFirstLongest(sp: seq<Special>, text: Bytes, i: nat, j: nat, y: nat)
    requires i <= j < |text| && y < |sp| && IsAt(sp, y, text, j)
    requires forall a, b :: 0 <= a < b < |sp| ==> |sp[a].str| >= |sp[b].str|
    ensures var (pos, x) := NextToken(sp, text, i);
      0 <= pos <= j && 0 <= x < |sp| && (pos == j ==> |sp[y].str| <= |sp[x].str|)
    decreases |text| - i
  {
    hide IsAt;
    if i < j && TokenAt(sp, text, i, 0) < 0 { NextTokenIsFirstLongest(sp, text, i + 1, j, y); }
  }

  // ---------------------------------------------------------------- encoding and decoding

  /** The loaded tables. */
  datatype Tables = Tables(vocab: map<Bytes, nat>, merges: map<Bytes, nat>,
                           id2str: seq<Option<Bytes>>, idAdded: seq<bool>, sp: seq<Special>)

  /** The ids of the text from `i` on. */
  function IdsFrom(t: Tables, k: Classes, text: Bytes, i: nat): (ids: seq<nat>)
    requires i <= |text|
    decreases |text| - i
  {
    if i == |text| then []
    else
      var (pos, x) := NextToken(t.sp, text, i);
      if pos < 0 then ChunkIds(t.vocab, t.merges, k, text[i..])
      else
        ChunkIds(t.vocab, t.merges, k, text[i..pos]) + [t.sp[x].id] + IdsFrom(t, k, text, pos + |t.sp[x].str|)
  }

  /** The bytes of one id: none if unknown, an added token's own, or those the string spells. */
  function IdBytes(t: Tables, id: int): Bytes
    requires |t.id2str| == |t.idAdded|
  {
    if id < 0 || id >= |t.id2str| || t.id2str[id].None? then []
    else if t.idAdded[id] then t.id2str[id].value
    else Unspell(t.id2str[id].value)
  }

  function IdsBytes(t: Tables, ids: seq<int>): Bytes
    requires |t.id2str| == |t.idAdded|
  {
    if ids == [] then [] else IdsBytes(t, ids[..|ids| - 1]) + IdBytes(t, ids[|ids| - 1])
  }

  lemma IdsBytesAdd(t: Tables, a: seq<int>, id: int)
    requires |t.id2str| == |t.idAdded|
    ensures IdsBytes(t, a + [id]) == IdsBytes(t, a) + IdBytes(t, id)
  {
    assert (a + [id])[..|a|] == a;
  }

  lemma {:induction false} IdsBytesConcat(t: Tables, a: seq<int>, b: seq<int>)
    requires |t.id2str| == |t.idAdded|
    ensures IdsBytes(t, a + b) == IdsBytes(t, a) + IdsBytes(t, b)
  {
    hide IdBytes;
    if b == [] {
      assert a + b == a;
    } else {
      IdsBytesLast(t, a, b);
      IdsBytesConcat(t, a, b[..|b| - 1]);
    }
  }

  lemma IdsBytesLast(t: Tables, a: seq<int>, b: seq<int>)
    requires |t.id2str| == |t.idAdded| && b != []
    ensures IdsBytes(t, a + b) == IdsBytes(t, a + b[..|b| - 1]) + IdBytes(t, b[|b| - 1])
  {
    hide IdsBytes, IdBytes;
    LastApart(a, b);
    IdsBytesAdd(t, a + b[..|b| - 1], b[|b| - 1]);
  }

  lemma LastApart(a: seq<int>, b: seq<int>)
    requires b != []
    ensures a + b == (a + b[..|b| - 1]) + [b[|b| - 1]]
  {
  }

  lemma IdsBytesOne(t: Tables, id: int)
    requires |t.id2str| == |t.idAdded|
    ensures IdsBytes(t, [id]) == IdBytes(t, id)
  {
  }

  /** An id that is negative, too large or has no string adds nothing; the string of an added token is
      written as it is. */
  lemma IdBytesIs(t: Tables, id: int)
    requires |t.id2str| == |t.idAdded|
    ensures id < 0 || id >= |t.id2str| ==> IdBytes(t, id) == []
    ensures 0 <= id < |t.id2str| && t.id2str[id].None? ==> IdBytes(t, id) == []
    ensures forall s :: 0 <= id < |t.id2str| && t.id2str[id] == Some(s) && t.idAdded[id] ==> IdBytes(t, id) == s
    ensures forall p :: 0 <= id < |t.id2str| && t.id2str[id] == Some(Spell(p)) && !t.idAdded[id] ==>
      IdBytes(t, id) == p
  {
    forall p: Bytes ensures Unspell(Spell(p)) == p {
      UnspellSpelled(p, []);
      assert Spell(p) + [] == Spell(p) && p + Unspell([]) == p;
    }
  }

  /** An added token gives its own id, between the ids of what stands before it and of what follows. */
  lemma TokenGivesId(t: Tables, k: Classes, text: Bytes, i: nat, j: nat, x: nat)
    requires i <= j < |text| && x < |t.sp| && IsAt(t.sp, x, text, j)
    requires forall y :: 0 <= y < x ==> !IsAt(t.sp, y, text, j)
    requires forall p, y :: i <= p < j && 0 <= y < |t.sp| ==> !IsAt(t.sp, y, text, p)
    ensures j + |t.sp[x].str| <= |text|
    ensures IdsFrom(t, k, text, i) ==
      ChunkIds(t.vocab, t.merges, k, text[i..j]) + [t.sp[x].id] + IdsFrom(t, k, text, j + |t.sp[x].str|)
  {
    hide ChunkIds;
    FirstTokenIs(t.sp, text, i, j, x);
  }

  lemma {:induction false} FirstTokenIs(sp: seq<Special>, text: Bytes, i: nat, j: nat, x: nat)
    requires i <= j < |text| && x < |sp| && IsAt(sp, x, text, j)
    requires forall y :: 0 <= y < x ==> !IsAt(sp, y, text, j)
    requires forall p, y :: i <= p < j && 0 <= y < |sp| ==> !IsAt(sp, y, text, p)
    ensures NextToken(sp, text, i) == (j, x)
    decreases j - i
  {
    hide IsAt;
    if i < j {
      assert TokenAt(sp, text, i, 0) == -1;
      FirstTokenIs(sp, text, i + 1, j, x);
    }
  }

  /** A text in which no added token stands is one chunk. */
  lemma NoTokenOneChunk(t: Tables, k: Classes, text: Bytes)
    requires text != [] && forall p, y :: 0 <= p < |text| && 0 <= y < |t.sp| ==> !IsAt(t.sp, y, text, p)
    ensures IdsFrom(t, k, text, 0) == ChunkIds(t.vocab, t.merges, k, text)
  {
    hide ChunkIds, IsAt;
    var r := NextToken(t.sp, text, 0);
    assert r.0 == -1;
    assert text[0..] == text;
  }

  /** The ids of a chunk are those of its pieces, in order. */
  lemma {:induction false} ChunkIdsAre(vocab: map<Bytes, nat>, merges: map<Bytes, nat>, pieces: seq<Bytes>, p: Bytes)
    ensures IdsOfPieces(vocab, merges, []) == []
    ensures IdsOfPieces(vocab, merges, pieces + [p]) == IdsOfPieces(vocab, merges, pieces) + PieceIds(vocab, merges, p)
  {
    assert (pieces + [p])[..|pieces|] == pieces;
  }

  // ---------------------------------------------------------------- the round trip

  /** Every vocabulary string is written back by its id, and every added token literally. */
  ghost predicate IdsAgree(t: Tables) {
    && |t.id2str| == |t.idAdded|
    && (forall s :: s in t.vocab ==>
          t.vocab[s] < |t.id2str| && t.id2str[t.vocab[s]] == Some(s) && !t.idAdded[t.vocab[s]])
    && (forall x :: 0 <= x < |t.sp| ==>
          t.sp[x].id < |t.id2str| && t.id2str[t.sp[x].id] == Some(t.sp[x].str) && t.idAdded[t.sp[x].id])
  }

  /** All bytes are in the vocabulary, and so is the result of every merge. */
  ghost predicate Complete(t: Tables) {
    (forall b: byte :: Glyph(b) in t.vocab) && Closed(t.vocab, t.merges)
  }

  function SpellAll(qs: seq<Bytes>): (r: seq<Bytes>)
    ensures |r| == |qs| && forall i :: 0 <= i < |qs| ==> r[i] == Spell(qs[i])
  {
    seq(|qs|, i requires 0 <= i < |qs| => Spell(qs[i]))
  }

  lemma {:induction false} UnspellSpell(p: Bytes)
    ensures Unspell(Spell(p)) == p
  {
    UnspellSpelled(p, []);
    assert Spell(p) + [] == Spell(p);
  }

  /** Symbols that spell byte strings decode to those byte strings, if all are in the vocabulary. */
  lemma {:induction false} SymbolsDecode(t: Tables, qs: seq<Bytes>)
    requires IdsAgree(t) && Known(t.vocab, SpellAll(qs))
    ensures IdsBytes(t, Ids(t.vocab, SpellAll(qs))) == Flatten(qs)
  {
    if qs != [] {
      var n, syms := |qs| - 1, SpellAll(qs);
      assert syms[..n] == SpellAll(qs[..n]);
      SymbolsDecode(t, qs[..n]);
      assert syms[n] in t.vocab;
      SymbolDecodes(t, qs[n]);
      IdsBytesConcat(t, Ids(t.vocab, syms[..n]), [t.vocab[syms[n]]]);
    }
  }

  lemma SymbolDecodes(t: Tables, q: Bytes)
    requires IdsAgree(t) && Spell(q) in t.vocab
    ensures IdsBytes(t, [t.vocab[Spell(q)] as int]) == q
  {
    UnspellSpell(q);
    IdsBytesOne(t, t.vocab[Spell(q)]);
  }

  /** The pairs merged inside spellings are spellings again: merging moves byte boundaries only. */
  lemma {:induction false} MergeSpelled(merges: map<Bytes, nat>, qs: seq<Bytes>) returns (r: seq<Bytes>)
    ensures Merge(merges, SpellAll(qs)) == SpellAll(r) && Flatten(r) == Flatten(qs)
    decreases |qs|
  {
    hide Best, Flatten;
    var syms := SpellAll(qs);
    var bp := Best(merges, syms);
    if bp < 0 {
      r := qs;
    } else {
      MergeAtSpelled(qs, bp);
      r := MergeSpelled(merges, MergeAt(qs, bp));
      MergeAtFlatten(qs, bp);
    }
  }

  lemma MergeAtSpelled(qs: seq<Bytes>, bp: nat)
    requires bp + 1 < |qs|
    ensures MergeAt(SpellAll(qs), bp) == SpellAll(MergeAt(qs, bp))
  {
    hide SpellAll, Spell;
    SpellConcat(qs[bp], qs[bp + 1]);
    MergeAtIs(qs, bp);
    MergeAtIs(SpellAll(qs), bp);
    hide MergeAt;
  }

  function Singles(p: Bytes): (qs: seq<Bytes>)
    ensures |qs| == |p| && forall i :: 0 <= i < |p| ==> qs[i] == [p[i]]
  {
    seq(|p|, i requires 0 <= i < |p| => [p[i]])
  }

  lemma {:induction false} SinglesFlatten(p: Bytes)
    ensures Flatten(Singles(p)) == p
  {
    if p != [] {
      var n := |p| - 1;
      assert Singles(p)[..n] == Singles(p[..n]);
      SinglesFlatten(p[..n]);
    }
  }

  lemma {:induction false} GlyphsAreSpelled(p: Bytes)
    ensures Glyphs(p) == SpellAll(Singles(p))
  {
    hide Glyph;
    if p != [] {
      GlyphsAreSpelled(p[1..]);
      SpellOne(p[0]);
      assert Singles(p)[1..] == Singles(p[1..]);
    }
  }

  lemma GlyphsKnown(t: Tables, p: Bytes)
    requires Complete(t)
    ensures Known(t.vocab, Glyphs(p))
  {
    hide Glyph;
    GlyphsAreSpelled(p);
    forall i | 0 <= i < |p| ensures 0 !in Glyphs(p)[i] && Glyphs(p)[i] in t.vocab {
      SpellOne(p[i]);
    }
  }

  lemma PieceDecodes(t: Tables, p: Bytes)
    requires IdsAgree(t) && Complete(t)
    ensures IdsBytes(t, PieceIds(t.vocab, t.merges, p)) == p
  {
    hide Glyphs, Spell, Merge, Ids, Closed, IdsBytes, Flatten, SpellAll, Singles;
    if Spell(p) in t.vocab {
      SymbolDecodes(t, p);
    } else {
      SplitSpelled(p);
      GlyphsKnown(t, p);
      GlyphsAreSpelled(p);
      MergeKnown(t.vocab, t.merges, Glyphs(p));
      var r := MergeSpelled(t.merges, Singles(p));
      SinglesFlatten(p);
      SymbolsDecode(t, r);
    }
  }

  lemma {:induction false} PiecesDecode(t: Tables, pieces: seq<Bytes>)
    requires IdsAgree(t) && Complete(t)
    ensures IdsBytes(t, IdsOfPieces(t.vocab, t.merges, pieces)) == Flatten(pieces)
  {
    assert |t.id2str| == |t.idAdded|;
    hide IdsAgree, Complete, PieceIds;
    if pieces != [] {
      var n := |pieces| - 1;
      PiecesDecode(t, pieces[..n]);
      PieceDecodes(t, pieces[n]);
      IdsBytesConcat(t, IdsOfPieces(t.vocab, t.merges, pieces[..n]), PieceIds(t.vocab, t.merges, pieces[n]));
    }
  }

  lemma ChunkDecodes(t: Tables, k: Classes, p: Bytes)
    requires IdsAgree(t) && Complete(t)
    ensures IdsBytes(t, ChunkIds(t.vocab, t.merges, k, p)) == p
  {
    PiecesDecode(t, ChunkPieces(k, p));
    PiecesPartition(k, p);
  }

  /** Decoding the ids of a text gives the text, for every byte string and every classification. */
  lemma {:induction false} DecodeOfEncode(t: Tables, k: Classes, text: Bytes, i: nat)
    requires IdsAgree(t) && Complete(t) && i <= |text|
    ensures IdsBytes(t, IdsFrom(t, k, text, i)) == text[i..]
    decreases |text| - i
  {
    hide Complete, ChunkIds, IdsBytes;
    if i < |text| {
      var (pos, x) := NextToken(t.sp, text, i);
      if pos < 0 {
        ChunkDecodes(t, k, text[i..]);
      } else {
        var next := pos + |t.sp[x].str|;
        var ids, id := ChunkIds(t.vocab, t.merges, k, text[i..pos]), t.sp[x].id;
        hide NextToken;
        ChunkDecodes(t, k, text[i..pos]);
        IdsBytesOne(t, id);
        assert IdBytes(t, id) == text[pos..next];
        DecodeOfEncode(t, k, text, next);
        IdsBytesConcat(t, ids, [id as int]);
        IdsBytesConcat(t, ids + [id], IdsFrom(t, k, text, next));
        ThreeParts(text, i, pos, next);
      }
    } else {
      assert text[i..] == [];
      NoIds(t);
    }
  }

  lemma NoIds(t: Tables)
    requires |t.id2str| == |t.idAdded|
    ensures IdsBytes(t, []) == []
  {
  }

  lemma ThreeParts(text: Bytes, i: nat, a: nat, b: nat)
    requires i <= a <= b <= |text|
    ensures text[i..a] + text[a..b] + text[b..] == text[i..]
  {
  }

  // ---------------------------------------------------------------- never more ids than bytes

  lemma {:induction false} FlattenAtLeast<T>(cs: seq<seq<T>>)
    requires NoneEmpty(cs)
    ensures |cs| <= |Flatten(cs)|
  {
    if cs != [] { FlattenAtLeast(cs[..|cs| - 1]); }
  }

  lemma {:induction false} SplitNoneEmpty(p: Bytes)
    ensures NoneEmpty(Split(p))
    decreases |p|
  {
    hide U8Next;
    if p != [] {
      SplitNoneEmpty(p[U8Next(p).1..]);
    }
  }

  lemma {:induction false} PiecesNoneEmpty(k: Classes, chars: seq<Bytes>, codes: seq<nat>, i: nat)
    requires |chars| == |codes| && i <= |codes| && NoneEmpty(chars)
    ensures NoneEmpty(Pieces(k, chars, codes, i))
    decreases |codes| - i
  {
    hide PieceEnd, Flatten;
    if i < |codes| {
      var e := PieceEnd(k, codes, i);
      assert forall j :: 0 <= j < e - i ==> chars[i..e][j] == chars[i + j];
      FlattenAtLeast(chars[i..e]);
      PiecesNoneEmpty(k, chars, codes, e);
    }
  }

  lemma PieceIdsFit(vocab: map<Bytes, nat>, merges: map<Bytes, nat>, p: Bytes)
    requires p != []
    ensures |PieceIds(vocab, merges, p)| <= |p|
  {
    SplitSpelled(p);
  }

  lemma {:induction false} PiecesIdsFit(vocab: map<Bytes, nat>, merges: map<Bytes, nat>, pieces: seq<Bytes>)
    requires NoneEmpty(pieces)
    ensures |IdsOfPieces(vocab, merges, pieces)| <= |Flatten(pieces)|
  {
    hide PieceIds;
    if pieces != [] {
      PiecesIdsFit(vocab, merges, pieces[..|pieces| - 1]);
      PieceIdsFit(vocab, merges, pieces[|pieces| - 1]);
    }
  }

  /** A text has at most one id per byte. */
  lemma {:induction false} IdsFit(t: Tables, k: Classes, text: Bytes, i: nat)
    requires i <= |text|
    ensures |IdsFrom(t, k, text, i)| <= |text| - i
    decreases |text| - i
  {
    hide NextToken, ChunkIds;
    if i < |text| {
      var (pos, x) := NextToken(t.sp, text, i);
      if pos < 0 {
        ChunkIdsFit(t, k, text[i..]);
      } else {
        ChunkIdsFit(t, k, text[i..pos]);
        IdsFit(t, k, text, pos + |t.sp[x].str|);
      }
    }
  }

  lemma ChunkIdsFit(t: Tables, k: Classes, p: Bytes)
    ensures |ChunkIds(t.vocab, t.merges, k, p)| <= |p|
  {
    hide IdsOfPieces;
    SplitNoneEmpty(p);
    PiecesNoneEmpty(k, Split(p), Codes(p), 0);
    PiecesIdsFit(t.vocab, t.merges, ChunkPieces(k, p));
    PiecesPartition(k, p);
  }

  /** With buffers no smaller than the text, decoding what was encoded gives back the text:
      for every byte string, valid UTF-8 or not, and whatever the character classes. */
  lemma RoundTrip(t: Tables, k: Classes, text: Bytes, max: nat, max': nat)
    requires IdsAgree(t) && Complete(t) && |text| <= max && |text| <= max'
    ensures Clip(IdsBytes(t, Clip(IdsFrom(t, k, text, 0), max)), max') == text
  {
    hide IdsFrom, IdsBytes, IdsAgree, Complete;
    assert |t.id2str| == |t.idAdded| by { AgreeLength(t); }
    IdsFit(t, k, text, 0);
    DecodeOfEncode(t, k, text, 0);
    assert text[0..] == text;
  }

  lemma AgreeLength(t: Tables)
    requires IdsAgree(t)
    ensures |t.id2str| == |t.idAdded|
  {
  }

  // ---------------------------------------------------------------- loading

  function VocabStr(list: seq<Ment>, id: nat): Option<Bytes> {
    if list == [] then None
    else if list[|list| - 1].v == id then Some(list[|list| - 1].k)
    else VocabStr(list[..|list| - 1], id)
  }

  function AddedStr(added: seq<Special>, id: nat): Option<Bytes> {
    if added == [] then None
    else if added[|added| - 1].id == id then Some(added[|added| - 1].str)
    else AddedStr(added[..|added| - 1], id)
  }

  /** The string of an id: an added token's, or the vocabulary's. */
  function IdStr(list: seq<Ment>, added: seq<Special>, id: nat): Option<Bytes> {
    if AddedStr(added, id).Some? then AddedStr(added, id) else VocabStr(list, id)
  }

  /** The entry loaded last wins, and an added token wins over the vocabulary. */
  lemma LastLoaded(list: seq<Ment>, m: Ment, added: seq<Special>, a: Special, id: nat)
    ensures IdStr([], [], id) == None
    ensures IdStr(list + [m], [], id) == if m.v == id then Some(m.k) else IdStr(list, [], id)
    ensures IdStr(list, added + [a], id) == if a.id == id then Some(a.str) else IdStr(list, added, id)
  {
    assert (list + [m])[..|list|] == list && (added + [a])[..|added|] == added;
  }

  predicate IdsBelow(list: seq<Ment>, added: seq<Special>, n: nat) {
    (forall i :: 0 <= i < |list| ==> list[i].v < n) && (forall i :: 0 <= i < |added| ==> added[i].id < n)
  }

  method CountIds(list: seq<Ment>, added: seq<Special>) returns (n: nat)
    ensures n > 0 && IdsBelow(list, added, n) && (n > 1 ==> !IdsBelow(list, added, n - 1))
  {
    var maxid := 0;
    for i := 0 to |list|
      invariant maxid > 0 ==> exists j :: 0 <= j < |list| && list[j].v == maxid
      invariant forall j :: 0 <= j < i ==> list[j].v <= maxid
    {
      if list[i].v > maxid { maxid := list[i].v; }
    }
    for i := 0 to |added|
      invariant forall j :: 0 <= j < |list| ==> list[j].v <= maxid
      invariant forall j :: 0 <= j < i ==> added[j].id <= maxid
      invariant maxid > 0 ==> !IdsBelow(list, added, maxid)
    {
      if added[i].id > maxid { maxid := added[i].id; }
    }
    n := maxid + 1;
  }

  /** The strings by id, and which of them are added tokens. */
  method LoadIds(list: seq<Ment>, added: seq<Special>) returns (id2str: seq<Option<Bytes>>, idAdded: seq<bool>)
    ensures |id2str| == |idAdded| && IdsBelow(list, added, |id2str|)
    ensures forall id :: 0 <= id < |id2str| ==> id2str[id] == IdStr(list, added, id)
    ensures forall id :: 0 <= id < |id2str| ==> idAdded[id] == AddedStr(added, id).Some?
  {
    var n := CountIds(list, added);
    var strs, flags := new Option<Bytes>[n](_ => None), new bool[n](_ => false);
    for i := 0 to |list|
      invariant forall id :: 0 <= id < n ==> strs[id] == VocabStr(list[..i], id)
      invariant forall id :: 0 <= id < n ==> !flags[id]
    {
      assert list[..i + 1][..i] == list[..i];
      strs[list[i].v] := Some(list[i].k);
    }
    assert list[..|list|] == list;
    for i := 0 to |added|
      invariant forall id :: 0 <= id < n ==> strs[id] == IdStr(list, added[..i], id)
      invariant forall id :: 0 <= id < n ==> flags[id] == AddedStr(added[..i], id).Some?
    {
      assert added[..i + 1][..i] == added[..i];
      strs[added[i].id], flags[added[i].id] := Some(added[i].str), true;
    }
    assert added[..|added|] == added;
    id2str, idAdded := strs[..], flags[..];
  }

  /** No id is used twice. */
  predicate DistinctIds(list: seq<Ment>, added: seq<Special>) {
    && (forall i, j :: 0 <= i < j < |list| ==> list[i].v != list[j].v)
    && (forall i, j :: 0 <= i < j < |added| ==> added[i].id != added[j].id)
    && (forall i, j :: 0 <= i < |list| && 0 <= j < |added| ==> list[i].v != added[j].id)
  }

  /** Another entry or added token keeps that so exactly if its id is new. */
  lemma DistinctIdsAdd(list: seq<Ment>, added: seq<Special>, m: Ment, a: Special)
    ensures DistinctIds([], [])
    ensures DistinctIds(list + [m], added) <==>
      DistinctIds(list, added) && (forall x :: x in list ==> x.v != m.v) && forall y :: y in added ==> y.id != m.v
    ensures DistinctIds(list, added + [a]) <==>
      DistinctIds(list, added) && (forall x :: x in list ==> x.v != a.id) && forall y :: y in added ==> y.id != a.id
  {
    var (l, d) := (list + [m], added + [a]);
    assert l[|list|] == m && forall i :: 0 <= i < |list| ==> l[i] == list[i];
    assert d[|added|] == a && forall i :: 0 <= i < |added| ==> d[i] == added[i];
  }

  lemma {:induction false} VocabStrOf(list: seq<Ment>, added: seq<Special>, s: Bytes)
    requires DistinctIds(list, added) && s in LastValues(list)
    ensures VocabStr(list, LastValues(list)[s]) == Some(s)
    ensures exists i :: 0 <= i < |list| && list[i].v == LastValues(list)[s]
  {
    var n := |list| - 1;
    if list[n].k == s {
      assert list[n].v == LastValues(list)[s];
    } else {
      VocabStrOf(list[..n], added, s);
      var i :| 0 <= i < n && list[..n][i].v == LastValues(list[..n])[s];
      assert list[i].v == LastValues(list)[s] && list[i].v != list[n].v;
    }
  }

  lemma {:induction false} AddedStrNone(added: seq<Special>, id: nat)
    requires forall j :: 0 <= j < |added| ==> added[j].id != id
    ensures AddedStr(added, id) == None
  {
    if added != [] { AddedStrNone(added[..|added| - 1], id); }
  }

  lemma {:induction false} AddedStrOf(added: seq<Special>, j: nat)
    requires j < |added| && forall a, b :: 0 <= a < b < |added| ==> added[a].id != added[b].id
    ensures AddedStr(added, added[j].id) == Some(added[j].str)
  {
    if j < |added| - 1 { AddedStrOf(added[..|added| - 1], j); }
  }

  /** The tables after loading, the added tokens having been sorted. */
  ghost predicate LoadedFrom(t: Tables, list: seq<Ment>, added: seq<Special>) {
    && t.vocab == LastValues(list)
    && |t.id2str| == |t.idAdded| && IdsBelow(list, added, |t.id2str|)
    && (forall id :: 0 <= id < |t.id2str| ==> t.id2str[id] == IdStr(list, added, id))
    && (forall id :: 0 <= id < |t.id2str| ==> t.idAdded[id] == AddedStr(added, id).Some?)
    && multiset(t.sp) == multiset(added)
  }

  /** If no id is used twice, the tables give back every string they were loaded from. */
  lemma LoadedIdsAgree(t: Tables, list: seq<Ment>, added: seq<Special>)
    requires LoadedFrom(t, list, added) && DistinctIds(list, added)
    ensures IdsAgree(t)
  {
    forall s | s in t.vocab
      ensures t.vocab[s] < |t.id2str| && t.id2str[t.vocab[s]] == Some(s) && !t.idAdded[t.vocab[s]]
    {
      VocabStrOf(list, added, s);
      AddedStrNone(added, t.vocab[s]);
    }
    forall x | 0 <= x < |t.sp|
      ensures t.sp[x].id < |t.id2str| && t.id2str[t.sp[x].id] == Some(t.sp[x].str) && t.idAdded[t.sp[x].id]
    {
      assert t.sp[x] in multiset(t.sp);
      var j :| 0 <= j < |added| && added[j] == t.sp[x];
      AddedStrOf(added, j);
    }
  }

  // ---------------------------------------------------------------- the tokenizer

  class Tok {
    const vocab: HMap
    const merges: HMap
    const byte2str: seq<Bytes>
    const cp2byte: seq<int>
    const id2str: seq<Option<Bytes>>
    const idAdded: seq<bool>
    const sp: seq<Special>

    /** Loads the tables; `sp` is the list of added tokens, sorted. */
    constructor (list: seq<Ment>, mergeList: seq<Pair>, added: seq<Special>, sp: seq<Special>, hash: Bytes -> nat)
      requires multiset(sp) == multiset(added)
      ensures Ready() && LoadedFrom(Tab(), list, added)
      ensures Tab().merges == LastValues(Ranked(mergeList)) && Tab().sp == sp
    {
      hide HMap.Valid, Glyph, ByteOf, Cp, LastValues, Ranked, IdStr, AddedStr, IdsBelow;
      var cps, strs, bytes := new nat[256], new Bytes[256], new int[1024];
      BuildByteMap(cps, strs, bytes);
      var v := Load(list, hash);
      var m := Load(Ranked(mergeList), hash);
      var i, a := LoadIds(list, added);
      vocab, merges, byte2str, cp2byte, id2str, idAdded, this.sp := v, m, strs[..], bytes[..], i, a, sp;
    }

    ghost predicate Ready()
      reads vocab, vocab.e, merges, merges.e
    {
      && vocab.Valid() && merges.Valid()
      && |byte2str| == 256 && (forall b: byte :: byte2str[b] == Glyph(b))
      && |cp2byte| == 1024 && (forall c :: 0 <= c < 1024 ==> cp2byte[c] == ByteOf(c))
      && |id2str| == |idAdded|
    }

    ghost function Tab(): Tables
      reads vocab, merges
    {
      Tables(vocab.m, merges.m, id2str, idAdded, sp)
    }

    /** The code points of a chunk and where each starts. */
    method CodePoints(p: Bytes) returns (cp: array<nat>, off: array<nat>, n: nat)
      ensures fresh(cp) && fresh(off) && cp.Length == |p| + 1 && off.Length == |p| + 2
      ensures n <= |p| && cp[..n] == Codes(p) && Offsets(off[..n + 1], Split(p))
    {
      hide Split, Codes, U8Next, Offsets;
      cp, off, n := new nat[|p| + 1], new nat[|p| + 2], 0;
      var i := 0;
      ghost var chars: seq<Bytes> := [];
      OffsetsNone(off[..0]);
      while i < |p|
        invariant n <= i <= |p| && |chars| == n && i == |Flatten(chars)|
        invariant chars + Split(p[i..]) == Split(p) && cp[..n] + Codes(p[i..]) == Codes(p)
        invariant OffsetsTo(off[..n], chars)
      {
        var (c, k) := U8Next(p[i..]);
        SplitFrom(p, i);
        CodesFrom(p, i);
        Moved(chars, p[i..i + k], Split(p[i + k..]));
        Moved(cp[..n], c, Codes(p[i + k..]));
        OffsetsAdd(off[..n], chars, p[i..i + k], i);
        off[n], cp[n] := i, c;
        n := n + 1;
        assert off[..n] == off[..n - 1] + [i] && cp[..n] == cp[..n - 1] + [c];
        chars := chars + [p[i..i + k]];
        i := i + k;
      }
      SplitNone(p);
      CodesNone(p);
      assert chars + [] == chars && cp[..n] + [] == cp[..n];
      off[n] := |p|;
      OffsetsLast(off[..n + 1], off[..n], chars);
    }

    /** Cuts a chunk into pieces and appends their ids, as far as they fit. */
    method PretokChunk(k: Classes, p: Bytes, out: array<nat>, no: nat, max: nat) returns (no': nat)
      requires Ready() && no <= max <= out.Length
      modifies out
      ensures Ready() && Tab() == old(Tab())
      ensures no' <= max && out[..no'] == Clip(old(out[..no]) + ChunkIds(vocab.m, merges.m, k, p), max)
    {
      hide HMap.Valid, Glyph, ByteOf, Split, Codes, Offsets, PieceIds, PieceEnd, Clip, Pieces, IdsOfPieces, Flatten;
      no' := no;
      ghost var base, chars, codes := out[..no], Split(p), Codes(p);
      ClipFits(base, max);
      assert IdsOfPieces(vocab.m, merges.m, []) == [] by { NoPieces(vocab.m, merges.m, k, chars, codes); }
      var cp, off, n := CodePoints(p);
      ghost var offs := off[..n + 1];
      var i := 0;
      ghost var done: seq<Bytes> := [];
      while i < n
        invariant i <= n && Ready() && Tab() == old(Tab())
        invariant cp[..n] == codes && off[..n + 1] == offs
        invariant done + Pieces(k, chars, codes, i) == Pieces(k, chars, codes, 0)
        invariant no' <= max && out[..no'] == Clip(base + IdsOfPieces(vocab.m, merges.m, done), max)
      {
        var start := i;
        i := ScanPiece(k, cp, n, i);
        NextPiece(k, p, offs, start);
        var piece := p[off[start]..off[i]];
        NextIds(vocab.m, merges.m, done, piece, base, max);
        Moved(done, piece, Pieces(k, chars, codes, i));
        no' := BpePiece(vocab, merges, byte2str, piece, out, no', max);
        done := done + [piece];
      }
      NoPieces(vocab.m, merges.m, k, chars, codes);
      assert done + [] == done;
    }

    /** The next place at or after `i` where an added token stands. */
    method FindToken(text: Bytes, i: nat) returns (hitpos: int, hit: int)
      requires i <= |text|
      ensures (hitpos, hit) == NextToken(sp, text, i)
    {
      hitpos, hit := -1, -1;
      var j := i;
      while j < |text| && hitpos < 0
        invariant i <= j <= |text|
        invariant hitpos < 0 ==> hit == -1 && hitpos == -1 && NextToken(sp, text, i) == NextToken(sp, text, j)
        invariant hitpos >= 0 ==> (hitpos, hit) == NextToken(sp, text, i)
      {
        hide At;
        var x := 0;
        while x < |sp|
          invariant x <= |sp| && TokenAt(sp, text, j, 0) == TokenAt(sp, text, j, x)
        {
          if IsAt(sp, x, text, j) {
            hitpos, hit := j, x;
            break;
          }
          x := x + 1;
        }
        j := j + 1;
      }
    }

    /** The ids of a text, as far as they fit. */
    method Encode(k: Classes, text: Bytes, out: array<nat>, max: nat) returns (no: nat)
      requires Ready() && max <= out.Length
      modifies out
      ensures Ready() && Tab() == old(Tab())
      ensures no <= max && out[..no] == Clip(IdsFrom(Tab(), k, text, 0), max)
    {
      hide HMap.Valid, Glyph, ByteOf, Clip, NextToken, ChunkIds;
      no := 0;
      var i := 0;
      ghost var done: seq<nat> := [];
      ghost var t := Tab();
      while i < |text|
        invariant i <= |text| && Ready() && Tab() == t
        invariant done + IdsFrom(t, k, text, i) == IdsFrom(t, k, text, 0)
        invariant no <= max && out[..no] == Clip(done, max)
      {
        var hitpos, hit := FindToken(text, i);
        var end := if hitpos < 0 then |text| else hitpos;
        ghost var ids := ChunkIds(t.vocab, t.merges, k, text[i..end]);
        ClipAppend(done, ids, max);
        if end > i {
          no := PretokChunk(k, text[i..end], out, no, max);
        } else {
          NoBytes(t, k, text[i..end], done, max);
        }
        if hitpos < 0 {
          assert text[i..end] == text[i..];
          return;
        }
        TwoMore(done, ids, sp[hit].id, IdsFrom(t, k, text, hitpos + |sp[hit].str|), max);
        no := Push(out, no, max, sp[hit].id);
        done := done + ids + [sp[hit].id];
        i := hitpos + |sp[hit].str|;
      }
      assert done + [] == done;
    }

    /** The bytes of one id, as far as they fit. */
    method DecodeOne(id: int, out: array<byte>, o0: nat, max: nat) returns (o: nat)
      requires Ready() && o0 <= max <= out.Length
      modifies out
      ensures Ready() && Tab() == old(Tab())
      ensures o <= max && out[..o] == Clip(old(out[..o0]) + IdBytes(Tab(), id), max)
    {
      hide HMap.Valid, Glyph, ByteOf, Clip, Unspell;
      o := o0;
      ghost var base := out[..o];
      ClipFits(base, max);
      if id < 0 || id >= |id2str| || id2str[id].None? {
        return;
      }
      var s := id2str[id].value;
      if idAdded[id] {
        o := AppendLiteral(s, out, o0, max);
      } else {
        o := AppendUnspelled(s, out, o0, max);
      }
    }

    method AppendLiteral(s: Bytes, out: array<byte>, o0: nat, max: nat) returns (o: nat)
      requires o0 <= max <= out.Length
      modifies out
      ensures o <= max && out[..o] == Clip(old(out[..o0]) + s, max)
    {
      o := o0;
      var j := 0;
      while j < |s| && o < max
        invariant j <= |s| && o == o0 + j && o <= max
        invariant out[..o] == old(out[..o0]) + s[..j]
      {
        out[o] := s[j];
        o, j := o + 1, j + 1;
      }
      LiteralDone(old(out[..o0]), s, j, max);
    }

    method AppendUnspelled(s: Bytes, out: array<byte>, o0: nat, max: nat) returns (o: nat)
      requires |cp2byte| == 1024 && forall c :: 0 <= c < 1024 ==> cp2byte[c] == ByteOf(c)
      requires o0 <= max <= out.Length
      modifies out
      ensures o <= max && out[..o] == Clip(old(out[..o0]) + Unspell(s), max)
    {
      hide ByteOf, Clip, Unspell, U8Next;
      o := o0;
      ghost var base, done: Bytes := out[..o], [];
      ClipFits(base, max);
      var j := 0;
      while j < |s|
        invariant j <= |s| && done + Unspell(s[j..]) == Unspell(s)
        invariant o <= max && out[..o] == Clip(base + done, max)
      {
        var (c, k) := U8Next(s[j..]);
        UnspellFrom(s, j);
        ghost var b: Bytes := if c < 1024 && ByteOf(c) >= 0 then [ByteOf(c) as byte] else [];
        ClipAdd(base, done, b, max);
        assert done + (b + Unspell(s[j + k..])) == (done + b) + Unspell(s[j + k..]);
        j := j + k;
        if c < 1024 && cp2byte[c] >= 0 {
          o := Push(out, o, max, cp2byte[c] as byte);
        } else {
          assert done + b == done;
        }
        done := done + b;
      }
      UnspellNone(s);
      assert done + [] == done;
    }

    /** The bytes of a list of ids, as far as they fit, and a NUL if that fits too. */
    method Decode(ids: seq<int>, out: array<byte>, max: nat) returns (o: nat)
      requires Ready() && max <= out.Length
      modifies out
      ensures Ready() && Tab() == old(Tab())
      ensures o <= max && out[..o] == Clip(IdsBytes(Tab(), ids), max)
      ensures o < max ==> out[o] == 0
    {
      hide HMap.Valid, Glyph, ByteOf, Clip, IdBytes;
      o := 0;
      ghost var t := Tab();
      for i := 0 to |ids|
        invariant Ready() && Tab() == t
        invariant o <= max && out[..o] == Clip(IdsBytes(t, ids[..i]), max)
      {
        assert ids[..i + 1] == ids[..i] + [ids[i]];
        IdsBytesAdd(t, ids[..i], ids[i]);
        ClipAppend(IdsBytes(t, ids[..i]), IdBytes(t, ids[i]), max);
        o := DecodeOne(ids[i], out, o, max);
      }
      assert ids[..|ids|] == ids;
      if o < max {
        out[o] := 0;
      }
    }
  }

  lemma NoBytes(t: Tables, k: Classes, p: Bytes, done: seq<nat>, max: nat)
    requires p == []
    ensures Clip(done + ChunkIds(t.vocab, t.merges, k, p), max) == Clip(done, max)
  {
    hide Clip;
    assert done + [] == done;
  }

  lemma TwoMore(done: seq<nat>, ids: seq<nat>, id: nat, rest: seq<nat>, max: nat)
    ensures Clip(Clip(done + ids, max) + [id], max) == Clip(done + ids + [id], max)
    ensures done + (ids + [id] + rest) == (done + ids + [id]) + rest
  {
    ClipAppend(done + ids, [id], max);
  }

  lemma LiteralDone(base: Bytes, s: Bytes, j: nat, max: nat)
    requires j <= |s| && |base| + j <= max && (j == |s| || |base| + j == max)
    ensures base + s[..j] == Clip(base + s, max)
  {
  }

  lemma UnspellFrom(s: Bytes, j: nat)
    requires j < |s|
    ensures var (c, k) := U8Next(s[j..]);
      Unspell(s[j..]) == (if c < 1024 && ByteOf(c) >= 0 then [ByteOf(c) as byte] else []) + Unspell(s[j + k..])
  {
    var k := U8Next(s[j..]).1;
    assert s[j..][k..] == s[j + k..];
  }

  lemma UnspellNone(s: Bytes)
    ensures Unspell(s[|s|..]) == []
  {
  }

  lemma NoPieces(vocab: map<Bytes, nat>, merges: map<Bytes, nat>, k: Classes, chars: seq<Bytes>, codes: seq<nat>)
    requires |chars| == |codes|
    ensures Pieces(k, chars, codes, |codes|) == [] && IdsOfPieces(vocab, merges, []) == []
  {
  }

  lemma NextIds(vocab: map<Bytes, nat>, merges: map<Bytes, nat>, done: seq<Bytes>, piece: Bytes,
                base: seq<nat>, max: nat)
    ensures Clip(Clip(base + IdsOfPieces(vocab, merges, done), max) + PieceIds(vocab, merges, piece), max)
      == Clip(base + IdsOfPieces(vocab, merges, done + [piece]), max)
  {
    hide Clip, PieceIds;
    ClipAdd(base, IdsOfPieces(vocab, merges, done), PieceIds(vocab, merges, piece), max);
    assert (done + [piece])[..|done|] == done;
  }

  /** The bytes between two offsets are the characters between them. */
  lemma BytesBetween(chars: seq<Bytes>, i: nat, e: nat)
    requires i <= e <= |chars|
    ensures var (a, b, p) := (|Flatten(chars[..i])|, |Flatten(chars[..e])|, Flatten(chars));
      a <= b <= |p| && p[a..b] == Flatten(chars[i..e])
  {
    hide Flatten;
    FlattenConcat(chars[..i], chars[i..e]);
    assert chars[..e] == chars[..i] + chars[i..e];
    FlattenConcat(chars[..e], chars[e..]);
    assert chars == chars[..e] + chars[e..];
    BetweenParts(Flatten(chars[..i]), Flatten(chars[i..e]), Flatten(chars[e..]));
  }

  lemma BetweenParts<T>(x: seq<T>, y: seq<T>, z: seq<T>)
    ensures (x + y + z)[|x|..|x + y|] == y
  {
  }

  lemma NextPiece(k: Classes, p: Bytes, off: seq<nat>, i: nat)
    requires i < |Codes(p)| && Offsets(off, Split(p))
    ensures var (chars, codes) := (Split(p), Codes(p)); var e := PieceEnd(k, codes, i);
      && off[i] <= off[e] <= |p|
      && Pieces(k, chars, codes, i) == [p[off[i]..off[e]]] + Pieces(k, chars, codes, e)
  {
    hide Split, Codes, PieceEnd, Flatten;
    SplitFlatten(p);
    BytesBetween(Split(p), i, PieceEnd(k, Codes(p), i));
  }

  /** Each character's offset is the length of what precedes it. */
  ghost predicate OffsetsTo(off: seq<nat>, chars: seq<Bytes>) {
    |off| == |chars| && forall j :: 0 <= j < |off| ==> off[j] == |Flatten(chars[..j])|
  }

  ghost predicate Offsets(off: seq<nat>, chars: seq<Bytes>) {
    |off| == |chars| + 1 && forall j :: 0 <= j < |off| ==> off[j] == |Flatten(chars[..j])|
  }

  lemma OffsetsNone(off: seq<nat>)
    requires |off| == 0
    ensures OffsetsTo(off, [])
  {
  }

  lemma OffsetsAdd(off: seq<nat>, chars: seq<Bytes>, c: Bytes, i: nat)
    requires OffsetsTo(off, chars) && i == |Flatten(chars)|
    ensures OffsetsTo(off + [i], chars + [c]) && |Flatten(chars + [c])| == i + |c|
  {
    hide Flatten;
    FlattenAdd(chars, c);
    var all := chars + [c];
    forall j | 0 <= j < |off| + 1 ensures (off + [i])[j] == |Flatten(all[..j])| {
      assert all[..j] == chars[..j];
      assert chars[..|chars|] == chars;
    }
  }

  lemma OffsetsLast(all: seq<nat>, off: seq<nat>, chars: seq<Bytes>)
    requires OffsetsTo(off, chars) && |all| == |off| + 1 && all[..|off|] == off && all[|off|] == |Flatten(chars)|
    ensures Offsets(all, chars)
  {
    hide Flatten;
    assert chars[..|chars|] == chars;
    forall j | 0 <= j < |all| ensures all[j] == |Flatten(chars[..j])| {
      if j < |off| { assert off[j] == all[j]; }
    }
  }

  lemma CodesFrom(p: Bytes, i: nat)
    requires i < |p|
    ensures var (c, k) := U8Next(p[i..]); Codes(p[i..]) == [c] + Codes(p[i + k..])
  {
    var k := U8Next(p[i..]).1;
    assert p[i..][k..] == p[i + k..];
  }

  lemma CodesNone(p: Bytes)
    ensures Codes(p[|p|..]) == []
  {
  }
}
