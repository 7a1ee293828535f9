/** Sentinel framing of an engine's output, read one byte at a time. */
module EngineTurn {
  import opened Bytes
  import opened ByteStreams
  import opened Chunks
  import opened Occurrences

  const END: Bytes := [1, 1, 69, 78, 68, 1, 1, 10]
  const READY: Bytes := [1, 1, 82, 69, 65, 68, 89, 1, 1, 10]

  predicate EndsWith(s: Bytes, suffix: Bytes) {
    |suffix| <= |s| && s[|s| - |suffix|..] == suffix
  }

  /** With no sentinel ending before the last byte, one is there exactly if it ends on it. */
  lemma EndsOnLast(whole: Bytes, sentinel: Bytes)
    requires whole != [] && sentinel != [] && !Occurs(whole[..|whole| - 1], sentinel)
    ensures Occurs(whole, sentinel) <==> EndsWith(whole, sentinel)
  {
    var n := |whole|;
    if Occurs(whole, sentinel) {
      var i: nat :| i <= n && At(whole, sentinel, i);
      if i + |sentinel| < n {
        OccursInPrefix(whole, n - 1, sentinel, i);
      }
      assert whole[i..n] == whole[i..];
    }
    if EndsWith(whole, sentinel) {
      assert whole[n - |sentinel|..] == whole[n - |sentinel|..n];
      OccursIntro(whole, sentinel, n - |sentinel|);
    }
  }

  /** The window of pending bytes is enough to see whether the sentinel ends on the last byte. */
  lemma LastByte(rest: Bytes, n: nat, out: Bytes, pending: Bytes, sentinel: Bytes)
    requires 0 < n <= |rest| && rest[..n] == out + pending && sentinel != []
    requires !Occurs(rest[..n - 1], sentinel)
    requires out == [] || |pending| >= |sentinel|
    ensures EndsWith(pending, sentinel) ==> n >= |sentinel| && Find(rest, sentinel) == n - |sentinel|
    ensures !EndsWith(pending, sentinel) ==> !Occurs(rest[..n], sentinel)
  {
    hide Find, Occurs, At;
    var whole := rest[..n];
    assert whole[..n - 1] == rest[..n - 1];
    EndsOnLast(whole, sentinel);
    if |sentinel| <= |pending| {
      assert whole[n - |sentinel|..] == pending[|pending| - |sentinel|..];
    }
    if EndsWith(pending, sentinel) {
      FirstHere(rest, n, sentinel);
    }
  }

  lemma FirstHere(rest: Bytes, n: nat, sentinel: Bytes)
    requires 0 < n <= |rest| && sentinel != [] && EndsWith(rest[..n], sentinel)
    requires !Occurs(rest[..n - 1], sentinel)
    ensures Find(rest, sentinel) == n - |sentinel|
  {
    hide Find;
    var i := n - |sentinel|;
    AtSlice(rest, 0, n, sentinel, i);
    OccursIntro(rest, sentinel, i);
    var f := Find(rest, sentinel);
    if f < i {
      OccursInPrefix(rest, n - 1, sentinel, f);
    }
  }

  lemma TakeByte(rest: Bytes, n: nat, out: Bytes, pending: Bytes)
    requires n < |rest| && out + pending == rest[..n]
    ensures out + (pending + [rest[n]]) == rest[..n + 1]
  {
    assert rest[..n + 1] == rest[..n] + [rest[n]];
  }

  lemma TakeData(rest: Bytes, n: nat, out: Bytes, pending: Bytes, k: nat)
    requires k <= |pending| && n <= |rest| && out + pending == rest[..n]
    ensures out + pending[..|pending| - k] == rest[..n - k]
  {
    assert rest[..n - k] == rest[..n][..n - k];
  }

  lemma Regroup(out: Bytes, pending: Bytes, k: nat)
    requires k <= |pending|
    ensures out + pending == (out + pending[..k]) + pending[k..]
  {
  }

  lemma OccursNowhere(rest: Bytes, n: nat, sentinel: Bytes)
    requires |rest| == n && !Occurs(rest[..n], sentinel)
    ensures Find(rest, sentinel) < 0
  {
    hide Occurs;
    assert rest[..n] == rest;
  }

  /** What a failed turn has not delivered is no longer than the sentinel. */
  lemma LostAtMost(rest: Bytes, n: nat, out: Bytes, pending: Bytes, k: nat)
    requires |rest| == n && out + pending == rest[..n] && |pending| <= k
    ensures out <= rest && |rest| <= |out| + k
  {
    assert rest[..n] == rest;
  }

  /** The reading loop. On what is left of the stream: if the sentinel occurs, what is delivered
      is exactly what precedes its first occurrence and the stream is left just after it;
      otherwise the whole stream is consumed and the turn fails, having delivered all of it but at
      most as many bytes as the sentinel has. */
  method ReadTurn(stream: ByteStream, sentinel: Bytes) returns (ok: bool, delivered: seq<Bytes>)
    requires stream.pos <= |stream.data| && sentinel != []
    modifies stream
    ensures stream.pos <= |stream.data|
    ensures var rest := stream.data[old(stream.pos)..];
      var f := Find(rest, sentinel);
      && ok == (f >= 0)
      && (ok ==> Flatten(delivered) == rest[..f] && stream.pos == old(stream.pos) + f + |sentinel|)
      && (!ok ==> Flatten(delivered) <= rest && |rest| <= |Flatten(delivered)| + |sentinel|)
      && (!ok ==> stream.pos == |stream.data|)
    ensures NoneEmpty(delivered)
  {
    ghost var rest, p0 := stream.data[stream.pos..], stream.pos;
    delivered := [];
    var pending: Bytes := [];
    while true
      invariant p0 <= stream.pos <= |stream.data|
      invariant Flatten(delivered) + pending == rest[..stream.pos - p0]
      invariant !Occurs(rest[..stream.pos - p0], sentinel)
      invariant |pending| == |sentinel| || (|pending| < |sentinel| && delivered == [])
      invariant NoneEmpty(delivered)
      decreases |stream.data| - stream.pos
    {
      hide Find, Occurs, Flatten, NoneEmpty;
      ghost var n, out := stream.pos - p0, Flatten(delivered);
      var b := stream.ReadByte();
      if b == [] {
        LostAtMost(rest, n, out, pending, |sentinel|);
        OccursNowhere(rest, n, sentinel);
        return false, delivered;
      }
      TakeByte(rest, n, out, pending);
      pending := pending + b;
      if delivered == [] { FlattenNone<byte>(); }
      LastByte(rest, n + 1, out, pending, sentinel);
      if EndsWith(pending, sentinel) {
        TakeData(rest, n + 1, out, pending, |sentinel|);
        delivered, pending := Flush(delivered, pending, |pending| - |sentinel|);
        return true, delivered;
      }
      if |pending| > |sentinel| {
        Regroup(out, pending, |pending| - |sentinel|);
        delivered, pending := Flush(delivered, pending, |pending| - |sentinel|);
      }
    }
  }

  /** Delivers the first `k` pending bytes, if there are any. */
  method Flush(delivered: seq<Bytes>, pending: Bytes, k: nat) returns (delivered': seq<Bytes>, pending': Bytes)
    requires k <= |pending| && NoneEmpty(delivered)
    ensures Flatten(delivered') == Flatten(delivered) + pending[..k] && NoneEmpty(delivered')
    ensures pending' == pending[k..]
  {
    hide Flatten, NoneEmpty;
    delivered' := delivered;
    if pending[..k] != [] {
      FlattenAdd(delivered, pending[..k]);
      delivered' := delivered + [pending[..k]];
    }
    pending' := pending[k..];
  }

  // ---------------------------------------------------------------- payloads

  /** A sentinel with no border frames every payload that does not contain it; one with a border
      fails on some payload, which is shorter than the sentinel itself. */
  lemma FramesEveryPayload(sentinel: Bytes)
    requires sentinel != []
    ensures (forall payload: Bytes, rest: Bytes :: !Occurs(payload, sentinel) ==>
              Find(payload + sentinel + rest, sentinel) == |payload|)
       <==> Unbordered(sentinel)
  {
    hide Find;
    if Unbordered(sentinel) {
      forall payload: Bytes, rest: Bytes | !Occurs(payload, sentinel)
        ensures Find(payload + sentinel + rest, sentinel) == |payload|
      {
        FramesPayload(payload, sentinel, rest);
      }
    } else {
      var d :| 0 < d < |sentinel| && Border(sentinel, d);
      Straddles(sentinel, d);
      var payload := sentinel[..|sentinel| - d];
      assert Find(payload + sentinel + [], sentinel) != |payload|;
    }
  }

  lemma FramesPayload(payload: Bytes, sentinel: Bytes, rest: Bytes)
    requires sentinel != [] && Unbordered(sentinel) && !Occurs(payload, sentinel)
    ensures Find(payload + sentinel + rest, sentinel) == |payload|
  {
    hide Find;
    var text, p := payload + sentinel + rest, |payload|;
    assert At(text, sentinel, p);
    OccursIntro(text, sentinel, p);
    assert text[..p] == payload;
    var f := Find(text, sentinel);
    if f < p {
      if f + |sentinel| <= p {
        OccursInPrefix(text, p, sentinel, f);
      } else {
        OverlapIsBorder(text, sentinel, f, p);
      }
    }
  }

  lemma Straddles(sentinel: Bytes, d: nat)
    requires Border(sentinel, d)
    ensures var payload := sentinel[..|sentinel| - d];
      !Occurs(payload, sentinel) && Find(payload + sentinel + [], sentinel) == 0
  {
    hide Find;
    var n := |sentinel|;
    var payload := sentinel[..n - d];
    var text := payload + sentinel + [];
    assert text[0..n] == payload + sentinel[..d];
    assert sentinel == payload + sentinel[n - d..];
    assert At(text, sentinel, 0);
  }

  /** The two sentinels in use have no border: each ends with the only newline in it. */
  lemma SentinelsUnbordered()
    ensures Unbordered(END) && Unbordered(READY)
  {
    forall d | 0 < d < |END| ensures !Border(END, d) {
      assert END[..d][d - 1] != END[|END| - d..][d - 1];
    }
    forall d | 0 < d < |READY| ensures !Border(READY, d) {
      assert READY[..d][d - 1] != READY[|READY| - d..][d - 1];
    }
  }
}
