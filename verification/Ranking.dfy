/** Sorting candidates by score, and taking the best one again and again. */
module Ranking {
  import opened Sequences

  /** A score; a masked one is below every other. */
  datatype Score = NegInf | Fin(v: real)

  /** What a search for the best starts from. */
  const FLOOR: real := -1000000000000000000000000000000.0

  predicate Candidate(c: seq<Score>, e: nat) {
    e < |c| && c[e].Fin? && c[e].v > FLOOR
  }

  /** Higher score first, lower index first among equals. */
  predicate Before(c: seq<Score>, a: nat, b: nat)
    requires Candidate(c, a) && Candidate(c, b)
  {
    c[a].v > c[b].v || (c[a].v == c[b].v && a < b)
  }

  predicate AllCandidates(c: seq<Score>, o: seq<nat>) {
    forall i :: 0 <= i < |o| ==> Candidate(c, o[i])
  }

  function Insert(c: seq<Score>, o: seq<nat>, e: nat): (r: seq<nat>)
    requires AllCandidates(c, o) && Candidate(c, e)
    ensures |r| == |o| + 1 && AllCandidates(c, r)
  {
    if o == [] then [e]
    else if Before(c, e, o[0]) then [e] + o
    else
      assert AllCandidates(c, o[1..]);
      [o[0]] + Insert(c, o[1..], e)
  }

  /** The candidates among the first `n`, sorted. */
  function OrderTo(c: seq<Score>, n: nat): (o: seq<nat>)
    requires n <= |c|
    ensures AllCandidates(c, o)
  {
    if n == 0 then []
    else if Candidate(c, n - 1) then Insert(c, OrderTo(c, n - 1), n - 1)
    else OrderTo(c, n - 1)
  }

  /** All candidates, sorted. */
  function Order(c: seq<Score>): (o: seq<nat>)
    ensures AllCandidates(c, o)
  {
    OrderTo(c, |c|)
  }

  predicate Sorted(c: seq<Score>, o: seq<nat>)
    requires AllCandidates(c, o)
  {
    forall i, j :: 0 <= i < j < |o| ==> Before(c, o[i], o[j])
  }

  /** Exactly the candidates among the first `n`. */
  predicate Lists(c: seq<Score>, o: seq<nat>, n: nat) {
    && (forall i :: 0 <= i < |o| ==> o[i] < n)
    && (forall e :: 0 <= e < n && Candidate(c, e) ==> e in o)
  }

  lemma {:induction false} InsertIn(c: seq<Score>, o: seq<nat>, e: nat, x: nat)
    requires AllCandidates(c, o) && Candidate(c, e)
    ensures x in Insert(c, o, e) <==> x == e || x in o
  {
    if o != [] && !Before(c, e, o[0]) {
      InsertIn(c, o[1..], e, x);
      assert o == [o[0]] + o[1..];
    }
  }

  lemma {:induction false} InsertSorted(c: seq<Score>, o: seq<nat>, e: nat)
    requires AllCandidates(c, o) && Candidate(c, e) && Sorted(c, o) && e !in o
    ensures Sorted(c, Insert(c, o, e))
  {
    if o == [] || Before(c, e, o[0]) {
    } else {
      var rest := o[1..];
      InsertSorted(c, rest, e);
      var r := Insert(c, rest, e);
      forall j | 0 <= j < |r| ensures Before(c, o[0], r[j]) {
        InsertIn(c, rest, e, r[j]);
      }
    }
  }

  lemma {:induction false} OrderToIs(c: seq<Score>, n: nat)
    requires n <= |c|
    ensures Sorted(c, OrderTo(c, n)) && Lists(c, OrderTo(c, n), n)
  {
    if n > 0 {
      OrderToIs(c, n - 1);
      var o := OrderTo(c, n - 1);
      if Candidate(c, n - 1) {
        InsertSorted(c, o, n - 1);
        InsertLists(c, o, n);
      }
    }
  }

  lemma InsertLists(c: seq<Score>, o: seq<nat>, n: nat)
    requires 0 < n <= |c| && AllCandidates(c, o) && Candidate(c, n - 1) && Lists(c, o, n - 1)
    ensures Lists(c, Insert(c, o, n - 1), n)
  {
    var r := Insert(c, o, n - 1);
    forall i | 0 <= i < |r| ensures r[i] < n {
      InsertIn(c, o, n - 1, r[i]);
    }
    forall e | 0 <= e < n && Candidate(c, e) ensures e in r {
      InsertIn(c, o, n - 1, e);
    }
  }

  lemma SortedDistinct(c: seq<Score>, o: seq<nat>)
    requires AllCandidates(c, o) && Sorted(c, o)
    ensures Distinct(o)
  {
    forall i, j | 0 <= i < j < |o| ensures o[i] != o[j] {
      assert Before(c, o[i], o[j]);
    }
  }

  /** The sorted list of the candidates is the only one. */
  lemma {:induction false} SortedUnique(c: seq<Score>, o: seq<nat>, p: seq<nat>)
    requires AllCandidates(c, o) && AllCandidates(c, p) && Sorted(c, o) && Sorted(c, p)
    requires forall e :: e in o <==> e in p
    ensures o == p
  {
    if o == [] {
      if p != [] { HeadIn(o, p); }
    } else {
      assert o[0] in p && p != [] && p[0] in o;
      assert o[0] == p[0];
      SortedDistinct(c, o);
      SortedDistinct(c, p);
      var o', p' := o[1..], p[1..];
      forall e ensures e in o' <==> e in p' {
        InRest(o, e);
        InRest(p, e);
      }
      SortedUnique(c, o', p');
    }
  }

  lemma HeadIn(o: seq<nat>, p: seq<nat>)
    requires p != [] && forall e :: e in o <==> e in p
    ensures p[0] in o
  {
  }

  lemma InRest(o: seq<nat>, e: int)
    requires o != [] && Distinct(o)
    ensures e in o[1..] <==> e in o && e != o[0]
  {
    assert o == [o[0]] + o[1..];
  }

  // ---------------------------------------------------------------- the best, again and again

  /** The first of the best candidates among the first `n` that are not taken, or -1. */
  function BestTo(c: seq<Score>, taken: seq<int>, n: nat): (b: int)
    requires n <= |c|
    ensures b == -1 || (0 <= b < n && Candidate(c, b) && b !in taken)
    ensures forall e: nat :: e < n && Candidate(c, e) && e !in taken ==> b == e || (b >= 0 && Before(c, b, e))
  {
    if n == 0 then -1
    else
      var b := BestTo(c, taken, n - 1);
      if n - 1 !in taken && Candidate(c, n - 1) && (b < 0 || c[n - 1].v > c[b].v) then n - 1 else b
  }

  function Best(c: seq<Score>, taken: seq<int>): (b: int)
    ensures b == -1 || (0 <= b < |c| && Candidate(c, b) && b !in taken)
  {
    BestTo(c, taken, |c|)
  }

  /** The best of what the first `r` of the order leave is the next of the order. */
  lemma BestIsNext(c: seq<Score>, r: nat)
    requires r <= |Order(c)|
    ensures Best(c, Order(c)[..r]) == if r < |Order(c)| then Order(c)[r] else -1
  {
    var o := Order(c);
    OrderToIs(c, |c|);
    SortedDistinct(c, o);
    hide OrderTo, BestTo;
    var b := Best(c, o[..r]);
    if r < |o| {
      assert o[r] !in o[..r] && Candidate(c, o[r]);
      forall x | 0 <= x < r ensures o[x] != b {
        assert o[..r][x] == o[x];
      }
      if b != o[r] {
        NextIsFirst(c, o, r, b);
      }
    } else {
      assert o[..r] == o;
    }
  }

  lemma NextIsFirst(c: seq<Score>, o: seq<nat>, r: nat, b: int)
    requires AllCandidates(c, o) && Sorted(c, o) && r < |o|
    requires b in o && b != o[r] && forall x :: 0 <= x < r ==> o[x] != b
    ensures Candidate(c, b) && Before(c, o[r], b) && !Before(c, b, o[r])
  {
    var i :| 0 <= i < |o| && o[i] == b;
    assert Before(c, o[r], o[i]);
  }

  lemma {:induction false} BestSame(c: seq<Score>, taken: seq<int>, taken': seq<int>, n: nat)
    requires n <= |c| && forall e: nat :: e in taken <==> e in taken'
    ensures BestTo(c, taken, n) == BestTo(c, taken', n)
  {
    if n > 0 { BestSame(c, taken, taken', n - 1); }
  }

  /** What `k` searches in a row write, each passing over what the ones before it found; -1 where
      nothing is left to find. */
  function Picks(c: seq<Score>, k: nat): (p: seq<int>)
    ensures |p| == k
  {
    if k == 0 then [] else Picks(c, k - 1) + [Best(c, Picks(c, k - 1))]
  }

  function Holes(n: nat): (h: seq<int>)
    ensures |h| == n && forall i :: 0 <= i < n ==> h[i] == -1
  {
    seq(n, i => -1)
  }

  /** The searches find the candidates in order, and then nothing. */
  lemma {:induction false} PicksAre(c: seq<Score>, k: nat)
    ensures k <= |Order(c)| ==> Picks(c, k) == Order(c)[..k]
    ensures k > |Order(c)| ==> Picks(c, k) == Order(c) + Holes(k - |Order(c)|)
  {
    hide Order, Best;
    var o := Order(c);
    if k > 0 {
      PicksAre(c, k - 1);
      if k - 1 <= |o| {
        BestIsNext(c, k - 1);
        assert k <= |o| ==> o[..k] == o[..k - 1] + [o[k - 1]];
        assert k - 1 == |o| ==> o[..k - 1] == o && [-1] == Holes(1);
      } else {
        BestPastHoles(c, k - 1 - |o|);
        assert Holes(k - |o|) == Holes(k - 1 - |o|) + [-1];
      }
    }
  }

  lemma BestPastHoles(c: seq<Score>, n: nat)
    ensures Best(c, Order(c) + Holes(n)) == -1
  {
    BestIsNext(c, |Order(c)|);
    hide Order;
    assert Order(c)[..|Order(c)|] == Order(c);
    BestSame(c, Order(c) + Holes(n), Order(c), |c|);
  }

  /** No search comes back empty exactly if there are as many candidates as searches. */
  lemma NoHoleIff(c: seq<Score>, k: nat)
    ensures -1 !in Picks(c, k) <==> k <= |Order(c)|
  {
    PicksAre(c, k);
    hide Order, Picks;
    if k > |Order(c)| {
      assert (Order(c) + Holes(k - |Order(c)|))[|Order(c)|] == -1;
    }
  }

  // ---------------------------------------------------------------- how many there are

  function Count(c: seq<Score>, n: nat): (k: nat)
    requires n <= |c|
    ensures k <= n
  {
    if n == 0 then 0 else Count(c, n - 1) + if Candidate(c, n - 1) then 1 else 0
  }

  lemma {:induction false} OrderCount(c: seq<Score>, n: nat)
    requires n <= |c|
    ensures |OrderTo(c, n)| == Count(c, n)
  {
    if n > 0 { OrderCount(c, n - 1); }
  }

  /** The first `k` of the order: distinct candidates, best first, and every other candidate comes
      after all of them. */
  lemma TopIs(c: seq<Score>, k: nat)
    requires k <= |Order(c)|
    ensures var top := Order(c)[..k];
      && AllCandidates(c, top) && Sorted(c, top) && Distinct(top)
      && forall e: nat, i :: Candidate(c, e) && e !in top && 0 <= i < k ==> Before(c, top[i], e)
  {
    var o := Order(c);
    OrderToIs(c, |c|);
    hide OrderTo;
    var top := o[..k];
    SortedDistinct(c, top);
    forall e: nat, i | Candidate(c, e) && e !in top && 0 <= i < k ensures Before(c, top[i], e) {
      var j :| 0 <= j < |o| && o[j] == e;
      NotAmong(o, k, j);
      assert Before(c, o[i], o[j]);
    }
  }

  lemma NotAmong(o: seq<nat>, k: nat, j: nat)
    requires j < |o| && k <= |o| && o[j] !in o[..k]
    ensures k <= j
  {
    assert forall x :: 0 <= x < k ==> o[..k][x] == o[x];
  }
}
