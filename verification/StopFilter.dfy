/** Stop sequences across streamed chunks. */
module StopFilter {
  import opened Chunks
  import opened Occurrences

  /** Some stop occurs in `text` at `i`. */
  predicate StopAt<T(==)>(stops: seq<seq<T>>, text: seq<T>, i: nat) {
    exists k :: 0 <= k < |stops| && At(text, stops[k], i)
  }

  predicate HasStop<T(==)>(stops: seq<seq<T>>, text: seq<T>) {
    exists i: nat :: i <= |text| && StopAt(stops, text, i)
  }

  /** The least index at which any stop occurs, or -1: the `min` over all stops of `find`. */
  function FirstStop<T(==)>(stops: seq<seq<T>>, text: seq<T>): (r: int)
    ensures r == -1 || 0 <= r <= |text|
  {
    if stops == [] then -1
    else
      var rest, here := FirstStop(stops[..|stops| - 1], text), Find(text, stops[|stops| - 1]);
      if here < 0 then rest else if rest < 0 || here < rest then here else rest
  }

  lemma HasStopIntro<T>(stops: seq<seq<T>>, text: seq<T>, k: nat, i: nat)
    requires k < |stops| && At(text, stops[k], i)
    ensures StopAt(stops, text, i) && HasStop(stops, text)
  {
    assert StopAt(stops, text, i);
  }

  /** `FirstStop` is not -1 exactly when some stop occurs, and then it is the least such index. */
  lemma {:induction false} FirstStopIs<T>(stops: seq<seq<T>>, text: seq<T>)
    ensures var r := FirstStop(stops, text);
      && (r >= 0 ==> StopAt(stops, text, r) && HasStop(stops, text))
      && (forall i: nat :: StopAt(stops, text, i) ==> 0 <= r <= i)
      && (HasStop(stops, text) ==> r >= 0)
  {
    if stops != [] {
      var init, last, r := stops[..|stops| - 1], stops[|stops| - 1], FirstStop(stops, text);
      FirstStopIs(init, text);
      hide FirstStop, At, Occurs;
      forall i: nat | StopAt(stops, text, i) ensures 0 <= r <= i {
        var k :| 0 <= k < |stops| && At(text, stops[k], i);
        if k < |init| { HasStopIntro(init, text, k, i); } else { OccursIntro(text, last, i); }
      }
      if r >= 0 {
        if r == Find(text, last) {
          HasStopIntro(stops, text, |init|, r);
        } else {
          var k :| 0 <= k < |init| && At(text, init[k], r);
          HasStopIntro(stops, text, k, r);
        }
      }
    }
  }

  // ---------------------------------------------------------------- what the filter means

  /** Everything let through so far: the stream is still open, or was cut. */
  datatype Seen<T> = Open(text: seq<T>) | Cut(text: seq<T>)

  /** One more chunk. The text so far plus the chunk is cut at its first stop, if it has one. */
  function Absorb<T(==)>(stops: seq<seq<T>>, s: Seen<T>, chunk: seq<T>): Seen<T> {
    if s.Cut? then s
    else
      var whole := s.text + chunk;
      var i := FirstStop(stops, whole);
      if i >= 0 then Cut(whole[..i]) else Open(whole)
  }

  function Filtered<T(==)>(stops: seq<seq<T>>, chunks: seq<seq<T>>): Seen<T> {
    if chunks == [] then Open([])
    else Absorb(stops, Filtered(stops, chunks[..|chunks| - 1]), chunks[|chunks| - 1])
  }

  lemma FilteredAdd<T>(stops: seq<seq<T>>, chunks: seq<seq<T>>, c: seq<T>)
    ensures Filtered(stops, chunks + [c]) == Absorb(stops, Filtered(stops, chunks), c)
  {
    assert (chunks + [c])[..|chunks|] == chunks;
  }

  // ---------------------------------------------------------------- the filter

  function MaxLength<T>(stops: seq<seq<T>>): (m: nat)
    ensures forall k :: 0 <= k < |stops| ==> |stops[k]| <= m
  {
    if stops == [] then 0
    else
      var m := MaxLength(stops[..|stops| - 1]);
      if |stops[|stops| - 1]| > m then |stops[|stops| - 1]| else m
  }

  function Keep<T>(stops: seq<seq<T>>): nat {
    if MaxLength(stops) > 0 then MaxLength(stops) - 1 else 0
  }

  /** One character less is held back than the longest stop has, and none without stops. */
  lemma KeepIs<T>(stops: seq<seq<T>>)
    ensures forall k :: 0 <= k < |stops| ==> |stops[k]| <= Keep(stops) + 1
    ensures Keep(stops) > 0 ==> exists k :: 0 <= k < |stops| && |stops[k]| == Keep(stops) + 1
  {
    if MaxLength(stops) > 0 {
      var k := Longest(stops);
    }
  }

  lemma {:induction false} Longest<T>(stops: seq<seq<T>>) returns (k: nat)
    requires MaxLength(stops) > 0
    ensures k < |stops| && |stops[k]| == MaxLength(stops)
  {
    var n := |stops| - 1;
    if |stops[n]| == MaxLength(stops) { k := n; } else { k := Longest(stops[..n]); }
  }

  class StopFilter<T(==)> {
    const stops: seq<seq<T>>
    const keep: nat
    var pending: seq<T>
    var matched: bool
    /** What has been handed to the `emit` callback, call by call. */
    var emitted: seq<seq<T>>
    /** All chunks fed. */
    ghost var fed: seq<seq<T>>

    constructor (stops: seq<seq<T>>)
      ensures Valid() && this.stops == stops && fed == [] && emitted == []
    {
      this.stops := stops;
      keep := Keep(stops);
      pending, matched, emitted, fed := [], false, [], [];
    }

    /** Until a match, what was emitted and what is pending make up the input and only the last
        `keep` characters are held back; what is let through is what `Filtered` says. */
    ghost predicate Valid()
      reads this
    {
      && keep == Keep(stops)
      && (matched <==> Filtered(stops, fed).Cut?)
      && Flatten(emitted) + pending == Filtered(stops, fed).text
      && (matched ==> pending == [])
      && (!matched ==> |pending| == keep || (|pending| < keep && emitted == []))
      && NoneEmpty(emitted)
    }

    /** The callback: `emit` is handed one nonempty piece. */
    method Emit(piece: seq<T>)
      requires piece != [] && NoneEmpty(emitted)
      modifies this`emitted
      ensures NoneEmpty(emitted) && Flatten(emitted) == Flatten(old(emitted)) + piece && emitted != []
    {
      FlattenAdd(emitted, piece);
      emitted := emitted + [piece];
    }

    method Feed(text: seq<T>)
      requires Valid()
      modifies this
      ensures Valid() && fed == old(fed) + [text]
    {
      hide FirstStop, Filtered, Flatten, Keep, NoneEmpty;
      FlattenNone<T>();
      ghost var before := Flatten(emitted);
      FilteredFeed(stops, fed, before, pending, text);
      fed := fed + [text];
      if matched {
        return;
      }
      pending := pending + text;
      var index := FirstStop(stops, pending);
      if index >= 0 {
        if index != 0 {
          Emit(pending[..index]);
        }
        assert Flatten(emitted) == before + pending[..index];
        pending := [];
        matched := true;
        return;
      }
      var safe := |pending| - keep;
      if safe > 0 {
        assert before + pending == before + pending[..safe] + pending[safe..];
        Emit(pending[..safe]);
        pending := pending[safe..];
      }
    }

    /** At the end, exactly the filtered text has been emitted. */
    method Finish()
      requires Valid()
      modifies this
      ensures Flatten(emitted) == Filtered(stops, fed).text
      ensures pending == [] && fed == old(fed) && matched == old(matched) && NoneEmpty(emitted)
    {
      hide Filtered, Flatten, Keep, NoneEmpty;
      if !matched && pending != [] {
        Emit(pending);
      }
      pending := [];
    }
  }

  /** What one more chunk means, in terms of the tail alone. */
  lemma FilteredFeed<T>(stops: seq<seq<T>>, fed: seq<seq<T>>, before: seq<T>, pending: seq<T>, text: seq<T>)
    requires before + pending == Filtered(stops, fed).text
    requires before == [] || |pending| >= Keep(stops) || Filtered(stops, fed).Cut?
    ensures var w := FirstStop(stops, pending + text);
      Filtered(stops, fed + [text]) ==
      if Filtered(stops, fed).Cut? then Filtered(stops, fed)
      else if w >= 0 then Cut(before + (pending + text)[..w])
      else Open(before + (pending + text))
  {
    FilteredAdd(stops, fed, text);
    if Filtered(stops, fed).Open? {
      FilteredOpen(stops, fed);
      FlattenNone<T>();
      hide FirstStop, Filtered, Flatten, HasStop, Keep;
      Window(stops, before, pending, text);
      AbsorbOpen(stops, before, pending, text);
    }
  }

  lemma AbsorbOpen<T>(stops: seq<seq<T>>, before: seq<T>, pending: seq<T>, text: seq<T>)
    requires var w := FirstStop(stops, pending + text);
      FirstStop(stops, before + (pending + text)) == if w < 0 then -1 else |before| + w
    ensures var w := FirstStop(stops, pending + text);
      Absorb(stops, Open(before + pending), text) ==
      if w >= 0 then Cut(before + (pending + text)[..w]) else Open(before + (pending + text))
  {
    hide FirstStop;
    var tail := pending + text;
    var w := FirstStop(stops, tail);
    assert (before + pending) + text == before + tail;
    if w >= 0 { assert (before + tail)[..|before| + w] == before + tail[..w]; }
  }

  /** Looking only at the pending tail finds the same first stop as looking at all the text: no
      stop is in the text so far, so a new one ends in the new chunk and starts within the tail. */
  lemma Window<T>(stops: seq<seq<T>>, before: seq<T>, pending: seq<T>, text: seq<T>)
    requires before == [] || |pending| >= Keep(stops)
    requires before + pending != [] ==> !HasStop(stops, before + pending)
    ensures var w := FirstStop(stops, pending + text);
      FirstStop(stops, before + (pending + text)) == if w < 0 then -1 else |before| + w
  {
    var tail := pending + text;
    var whole := before + tail;
    FirstStopIs(stops, tail);
    FirstStopIs(stops, whole);
    hide FirstStop, HasStop, StopAt, Keep;
    forall i: nat | StopAt(stops, whole, i)
      ensures i >= |before| && StopAt(stops, tail, i - |before|)
    {
      WindowSees(stops, before, pending, text, i);
    }
    forall i: nat | StopAt(stops, tail, i)
      ensures StopAt(stops, whole, |before| + i)
    {
      WindowShows(stops, before, tail, i);
    }
  }

  /** With a long enough window no stop of the whole text begins before it. */
  lemma WindowSees<T>(stops: seq<seq<T>>, before: seq<T>, pending: seq<T>, text: seq<T>, i: nat)
    requires before == [] || |pending| >= Keep(stops)
    requires before + pending != [] ==> !HasStop(stops, before + pending)
    requires StopAt(stops, before + (pending + text), i)
    ensures i >= |before| && StopAt(stops, pending + text, i - |before|)
  {
    hide HasStop, At;
    var tail, whole := pending + text, before + (pending + text);
    var k :| 0 <= k < |stops| && At(whole, stops[k], i);
    assert |stops[k]| <= MaxLength(stops);
    assert whole == (before + pending) + text;
    if i < |before| {
      AtHead(before + pending, text, stops[k], i);
      HasStopIntro(stops, before + pending, k, i);
    } else {
      AtWithin(whole, stops[k], i);
      AtTail(before, tail, stops[k], i - |before|);
      HasStopIntro(stops, tail, k, i - |before|);
    }
  }

  lemma AtWithin<T>(text: seq<T>, pat: seq<T>, i: nat)
    requires At(text, pat, i)
    ensures i + |pat| <= |text|
  {
  }

  lemma WindowShows<T>(stops: seq<seq<T>>, before: seq<T>, tail: seq<T>, i: nat)
    requires StopAt(stops, tail, i)
    ensures StopAt(stops, before + tail, |before| + i)
  {
    hide HasStop, At;
    var k :| 0 <= k < |stops| && At(tail, stops[k], i);
    AtWithin(tail, stops[k], i);
    AtTail(before, tail, stops[k], i);
    HasStopIntro(stops, before + tail, k, |before| + i);
  }

  // ---------------------------------------------------------------- what is let through

  /** An open stream has let through all of its input, and no stop is in it. */
  lemma {:induction false} FilteredOpen<T>(stops: seq<seq<T>>, chunks: seq<seq<T>>)
    requires Filtered(stops, chunks).Open?
    ensures Filtered(stops, chunks).text == Flatten(chunks)
    ensures chunks != [] ==> !HasStop(stops, Flatten(chunks))
  {
    if chunks != [] {
      hide FirstStop;
      var init := chunks[..|chunks| - 1];
      FilteredOpen(stops, init);
      FirstStopIs(stops, Flatten(init) + chunks[|chunks| - 1]);
    }
  }

  /** Cut: at the earliest-starting stop of the shortest chunk-aligned prefix that has a stop. */
  lemma {:induction false} CutAtShortestPrefix<T>(stops: seq<seq<T>>, chunks: seq<seq<T>>) returns (n: nat)
    requires Filtered(stops, chunks).Cut?
    ensures 0 < n <= |chunks|
    ensures HasStop(stops, Flatten(chunks[..n]))
    ensures forall m :: 0 < m < n ==> !HasStop(stops, Flatten(chunks[..m]))
    ensures Filtered(stops, chunks).text == WholeCut(stops, Flatten(chunks[..n]))
  {
    hide FirstStop, HasStop, Flatten;
    var init := chunks[..|chunks| - 1];
    if Filtered(stops, init).Cut? {
      n := CutAtShortestPrefix(stops, init);
      forall m | 0 < m <= n ensures chunks[..m] == init[..m] {
      }
    } else {
      n := |chunks|;
      assert chunks[..n] == chunks == init + [chunks[n - 1]];
      FilteredOpen(stops, init);
      FlattenAdd(init, chunks[n - 1]);
      FirstStopIs(stops, Flatten(chunks));
      forall m | 0 < m < n ensures !HasStop(stops, Flatten(chunks[..m])) {
        assert chunks[..m] == init[..m];
        FlattenPrefix(init, m);
        if HasStop(stops, Flatten(init[..m])) { StopsGrow(stops, Flatten(init[..m]), Flatten(init)); }
      }
    }
  }

  /** The stream is cut exactly when the text fed has a stop. */
  lemma CutIffStop<T>(stops: seq<seq<T>>, chunks: seq<seq<T>>)
    ensures Filtered(stops, chunks).Cut? <==> chunks != [] && HasStop(stops, Flatten(chunks))
  {
    if Filtered(stops, chunks).Open? {
      FilteredOpen(stops, chunks);
    } else {
      var n := CutAtShortestPrefix(stops, chunks);
      FlattenPrefix(chunks, n);
      StopsGrow(stops, Flatten(chunks[..n]), Flatten(chunks));
    }
  }

  lemma StopsGrow<T>(stops: seq<seq<T>>, a: seq<T>, b: seq<T>)
    requires a <= b && HasStop(stops, a)
    ensures HasStop(stops, b)
  {
    var i: nat :| i <= |a| && StopAt(stops, a, i);
    var k :| 0 <= k < |stops| && At(a, stops[k], i);
    assert b == a + b[|a|..];
    AtHead(a, b[|a|..], stops[k], i);
    HasStopIntro(stops, b, k, i);
  }

  /** No nonempty stop is ever let through. */
  lemma NeverEmitsStop<T>(stops: seq<seq<T>>, chunks: seq<seq<T>>, k: nat)
    requires k < |stops| && stops[k] != []
    ensures !Occurs(Filtered(stops, chunks).text, stops[k])
  {
    hide FirstStop, HasStop, Filtered, Flatten;
    var text := Filtered(stops, chunks).text;
    if Occurs(text, stops[k]) {
      var i: nat :| i <= |text| && At(text, stops[k], i);
      HasStopIntro(stops, text, k, i);
      if Filtered(stops, chunks).Open? {
        FilteredOpen(stops, chunks);
        if chunks == [] { FlattenNone<T>(); }
      } else {
        var n := CutAtShortestPrefix(stops, chunks);
        var p := Flatten(chunks[..n]);
        FirstStopIs(stops, p);
        assert p == text + p[|text|..];
        AtHead(text, p[|text|..], stops[k], i);
        HasStopIntro(stops, p, k, i);
      }
    }
  }

  // ---------------------------------------------------------------- independence of chunking

  /** The text cut at its first stop. */
  function WholeCut<T(==)>(stops: seq<seq<T>>, text: seq<T>): seq<T> {
    var i := FirstStop(stops, text);
    if i >= 0 then text[..i] else text
  }

  /** The first stop to be completed when reading `s` starts at the first character of `s`. */
  predicate StartsItself<T(==)>(stops: seq<seq<T>>, s: seq<T>) {
    exists k :: 0 <= k < |stops| && IsFirstInside(stops, k, s)
  }

  /** `stops[k]` is a prefix of `s` before whose last character no stop is complete. */
  predicate IsFirstInside<T(==)>(stops: seq<seq<T>>, k: nat, s: seq<T>)
    requires k < |stops|
  {
    stops[k] <= s && (|stops[k]| > 0 ==> !HasStop(stops, s[..|stops[k]| - 1]))
  }

  predicate AllStartThemselves<T(==)>(stops: seq<seq<T>>) {
    forall k :: 0 <= k < |stops| ==> StartsItself(stops, stops[k])
  }

  /** The result is the same for every way of cutting every text into chunks exactly when each
      stop passes that test, which looks at the stops alone. */
  lemma ChunkingIrrelevant<T(!new)>(stops: seq<seq<T>>)
    ensures (forall chunks :: Filtered(stops, chunks).text == WholeCut(stops, Flatten(chunks)))
       <==> AllStartThemselves(stops)
  {
    if AllStartThemselves(stops) {
      forall chunks ensures Filtered(stops, chunks).text == WholeCut(stops, Flatten(chunks)) {
        SameForAnyChunks(stops, chunks);
      }
    } else {
      var k :| 0 <= k < |stops| && !StartsItself(stops, stops[k]);
      var chunks := SplitShows(stops, k);
      assert Filtered(stops, chunks).text != WholeCut(stops, Flatten(chunks));
    }
  }

  lemma SameForAnyChunks<T>(stops: seq<seq<T>>, chunks: seq<seq<T>>)
    requires AllStartThemselves(stops)
    ensures Filtered(stops, chunks).text == WholeCut(stops, Flatten(chunks))
  {
    hide AllStartThemselves, FirstStop, HasStop, Filtered, Flatten;
    var text := Flatten(chunks);
    FirstStopIs(stops, text);
    if Filtered(stops, chunks).Open? {
      FilteredOpen(stops, chunks);
      if chunks == [] { FlattenNone<T>(); }
    } else {
      var n := CutAtShortestPrefix(stops, chunks);
      var part := Flatten(chunks[..n]);
      FlattenPrefix(chunks, n);
      assert part == text[..|part|];
      FirstStopIs(stops, part);
      SameFirstStop(stops, text, |part|);
    }
  }

  /** Reading further than the first completed stop does not reveal an earlier-starting one. */
  lemma SameFirstStop<T>(stops: seq<seq<T>>, text: seq<T>, p: nat)
    requires AllStartThemselves(stops)
    requires p <= |text| && HasStop(stops, text[..p])
    ensures FirstStop(stops, text) == FirstStop(stops, text[..p])
  {
    hide *;
    var part := text[..p];
    FirstStopIs(stops, part);
    FirstStopIs(stops, text);
    var i, j := FirstStop(stops, text), FirstStop(stops, part);
    StopInWhole(stops, text, p, j);
    StopInPart(stops, text, p, i, j);
  }

  lemma StopInWhole<T>(stops: seq<seq<T>>, text: seq<T>, p: nat, j: nat)
    requires p <= |text| && StopAt(stops, text[..p], j)
    ensures StopAt(stops, text, j)
  {
    hide At, HasStop;
    var part := text[..p];
    var u :| 0 <= u < |stops| && At(part, stops[u], j);
    AtWithin(part, stops[u], j);
    assert text == part + text[p..];
    AtHead(part, text[p..], stops[u], j);
    HasStopIntro(stops, text, u, j);
  }

  /** A stop that begins no later than one complete in the part has one beginning with it there. */
  lemma StopInPart<T>(stops: seq<seq<T>>, text: seq<T>, p: nat, i: nat, j: nat)
    requires AllStartThemselves(stops) && p <= |text| && i <= j
    requires StopAt(stops, text, i) && StopAt(stops, text[..p], j)
    ensures StopAt(stops, text[..p], i)
  {
    hide At, HasStop, StartsItself, IsFirstInside;
    var part := text[..p];
    var u :| 0 <= u < |stops| && At(part, stops[u], j);
    var k :| 0 <= k < |stops| && At(text, stops[k], i);
    AtWithin(part, stops[u], j);
    AtWithin(text, stops[k], i);
    assert text == part + text[p..];
    AtHead(part, text[p..], stops[u], j);
    var e := k;
    if i + |stops[k]| > p {
      var t := FirstInside(stops, stops[k]);
      EndsInPart(stops, text, p, i, k, j, u, t);
      e := t;
    }
    AtHead(part, text[p..], stops[e], i);
    HasStopIntro(stops, part, e, i);
  }

  lemma FirstInside<T>(stops: seq<seq<T>>, s: seq<T>) returns (t: nat)
    requires StartsItself(stops, s)
    ensures t < |stops| && IsFirstInside(stops, t, s)
  {
    t :| 0 <= t < |stops| && IsFirstInside(stops, t, s);
  }

  /** The stop that completes first inside `stops[k]` at `i` completes no later than `stops[u]`
      does at `j`, which lies inside too. */
  lemma EndsInPart<T>(stops: seq<seq<T>>, text: seq<T>, p: nat, i: nat, k: nat, j: nat, u: nat, t: nat)
    requires k < |stops| && u < |stops| && t < |stops| && p <= |text|
    requires At(text, stops[k], i) && At(text, stops[u], j) && i <= j && j + |stops[u]| <= p < i + |stops[k]|
    requires IsFirstInside(stops, t, stops[k])
    ensures i + |stops[t]| <= p && At(text, stops[t], i)
  {
    hide HasStop;
    var s := stops[k];
    InPrefix(text, s, i, |stops[t]|);
    if i + |stops[t]| > p {
      var m := |stops[t]| - 1;
      InPrefix(text, s, i, m);
      AtSlice(text, i, i + m, stops[u], j - i);
      HasStopIntro(stops, s[..m], u, j - i);
    }
  }

  lemma InPrefix<T>(text: seq<T>, s: seq<T>, i: nat, m: nat)
    requires At(text, s, i) && m <= |s|
    ensures text[i..i + m] == s[..m]
  {
    assert text[i..i + |s|][..m] == text[i..i + m];
  }

  /** A stop that fails the test is itself a text on which two chunkings differ. */
  lemma SplitShows<T>(stops: seq<seq<T>>, k: nat) returns (chunks: seq<seq<T>>)
    requires k < |stops| && !StartsItself(stops, stops[k])
    ensures Flatten(chunks) == stops[k]
    ensures Filtered(stops, chunks).text != WholeCut(stops, Flatten(chunks))
  {
    hide StartsItself, HasStop, FirstStop, Filtered, Flatten, StopAt;
    var s := stops[k];
    assert At(s, s, 0);
    HasStopIntro(stops, s, k, 0);
    assert s[..|s|] == s;
    var e := FirstEnd(stops, s, |s|);
    var a, b := s[..e], s[e..];
    FirstStopIs(stops, a);
    FirstStopIs(stops, s);
    if FirstStop(stops, a) == 0 { ZeroMeansItself(stops, s, e); }
    assert [] + a == a && [a] + [b] == [a, b] && a + b == s;
    FilteredStart(stops, a);
    FilteredAdd(stops, [a], b);
    FlattenAdd([a], b);
    chunks := [a, b];
  }

  lemma FilteredStart<T>(stops: seq<seq<T>>, a: seq<T>)
    ensures Filtered(stops, [a]) == Absorb(stops, Open([]), a) && Flatten([a]) == a
  {
    assert [a][..0] == [];
    assert Flatten([a]) == Flatten<T>([]) + a;
  }

  lemma ZeroMeansItself<T>(stops: seq<seq<T>>, s: seq<T>, e: nat)
    requires e <= |s| && (forall m :: 0 <= m < e ==> !HasStop(stops, s[..m]))
    requires FirstStop(stops, s[..e]) == 0
    ensures StartsItself(stops, s)
  {
    var a := s[..e];
    FirstStopIs(stops, a);
    hide HasStop, FirstStop;
    var t :| 0 <= t < |stops| && At(a, stops[t], 0);
    assert stops[t] == a[..|stops[t]|] == s[..|stops[t]|];
    assert IsFirstInside(stops, t, s);
  }

  lemma FirstEnd<T>(stops: seq<seq<T>>, s: seq<T>, n: nat) returns (e: nat)
    requires n <= |s| && HasStop(stops, s[..n])
    ensures e <= n && HasStop(stops, s[..e])
    ensures forall m :: 0 <= m < e ==> !HasStop(stops, s[..m])
  {
    hide HasStop;
    if m :| 0 <= m < n && HasStop(stops, s[..m]) {
      e := FirstEnd(stops, s, m);
    } else {
      e := n;
    }
  }
}
