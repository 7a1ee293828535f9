/** Lists of pieces handed on one by one. */
module Chunks {
  function Flatten<T>(chunks: seq<seq<T>>): seq<T> {
    if chunks == [] then [] else Flatten(chunks[..|chunks| - 1]) + chunks[|chunks| - 1]
  }

  predicate NoneEmpty<T>(chunks: seq<seq<T>>) {
    forall k :: 0 <= k < |chunks| ==> |chunks[k]| > 0
  }

  lemma FlattenNone<T>()
    ensures Flatten<T>([]) == []
  {
  }

  lemma FlattenAdd<T>(chunks: seq<seq<T>>, c: seq<T>)
    ensures Flatten(chunks + [c]) == Flatten(chunks) + c
    ensures NoneEmpty(chunks) && c != [] ==> NoneEmpty(chunks + [c])
  {
    assert (chunks + [c])[..|chunks|] == chunks;
  }

  lemma {:induction false} FlattenPrefix<T>(chunks: seq<seq<T>>, m: nat)
    requires m <= |chunks|
    ensures Flatten(chunks[..m]) <= Flatten(chunks)
  {
    if m < |chunks| {
      FlattenPrefix(chunks[..|chunks| - 1], m);
      assert chunks[..|chunks| - 1][..m] == chunks[..m];
    } else {
      assert chunks[..m] == chunks;
    }
  }

  lemma {:induction false} FlattenConcat<T>(a: seq<seq<T>>, b: seq<seq<T>>)
    ensures Flatten(a + b) == Flatten(a) + Flatten(b)
  {
    if b == [] {
      assert a + b == a;
    } else {
      FlattenConcatInit(a, b);
      FlattenConcat(a, b[..|b| - 1]);
    }
  }

  lemma FlattenConcatInit<T>(a: seq<seq<T>>, b: seq<seq<T>>)
    requires b != []
    ensures Flatten(a + b) == Flatten(a + b[..|b| - 1]) + b[|b| - 1]
  {
    hide Flatten;
    FlattenAdd(a + b[..|b| - 1], b[|b| - 1]);
    assert a + b == a + b[..|b| - 1] + [b[|b| - 1]];
  }

  lemma FlattenOne<T>(x: seq<T>)
    ensures Flatten([x]) == x
  {
    FlattenAdd([], x);
    assert [] + [x] == [x];
  }

  lemma FlattenTwo<T>(x: seq<T>, y: seq<T>)
    ensures Flatten([x, y]) == x + y
  {
    FlattenOne(x);
    FlattenAdd([x], y);
    assert [x] + [y] == [x, y];
  }
}
