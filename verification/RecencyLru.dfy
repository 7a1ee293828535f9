/** The abstract least-recently-used cache that both expert caches implement: a list of
    entries with distinct keys, least recently used first. */
module RecencyLru {
  import opened Sequences

  datatype Entry<K, V> = Entry(key: K, value: V)

  function Keys<K, V>(items: seq<Entry<K, V>>): (ks: seq<K>)
    ensures |ks| == |items|
    ensures forall i :: 0 <= i < |items| ==> ks[i] == items[i].key
  {
    seq(|items|, i requires 0 <= i < |items| => items[i].key)
  }

  /** One access: a cached key becomes the most recent one with its value kept; an absent
      one is added as the most recent, and the least recent entry goes if that is one too many. */
  function Access<K(==), V>(items: seq<Entry<K, V>>, cap: nat, k: K, v: V): seq<Entry<K, V>> {
    var i := IndexOf(Keys(items), k);
    if i < |items| then RemoveAt(items, i) + [items[i]]
    else if |items| < cap then items + [Entry(k, v)]
    else (items + [Entry(k, v)])[1..]
  }

  predicate Loaded<K, V(==)>(items: seq<Entry<K, V>>, load: K -> V) {
    forall i :: 0 <= i < |items| ==> items[i].value == load(items[i].key)
  }

  // ---------------------------------------------------------------- whole traces

  /** The cache after a trace of accesses, `load` being the loader. */
  function AccessAll<K(==), V>(items: seq<Entry<K, V>>, cap: nat, load: K -> V, trace: seq<K>): seq<Entry<K, V>> {
    if trace == [] then items
    else
      var k := trace[|trace| - 1];
      Access(AccessAll(items, cap, load, trace[..|trace| - 1]), cap, k, load(k))
  }

  lemma AccessAllStep<K, V>(items: seq<Entry<K, V>>, cap: nat, load: K -> V, trace: seq<K>, k: K)
    ensures AccessAll(items, cap, load, trace + [k]) == Access(AccessAll(items, cap, load, trace), cap, k, load(k))
  {
    assert (trace + [k])[..|trace|] == trace;
  }

  /** How many accesses of the trace find their key cached. */
  function HitCount<K(==), V>(items: seq<Entry<K, V>>, cap: nat, load: K -> V, trace: seq<K>): (h: nat)
    ensures h <= |trace|
  {
    if trace == [] then 0
    else
      var prefix := trace[..|trace| - 1];
      HitCount(items, cap, load, prefix)
      + if trace[|trace| - 1] in Keys(AccessAll(items, cap, load, prefix)) then 1 else 0
  }

  /** The same from an empty cache. */
  function Run<K(==), V>(cap: nat, load: K -> V, trace: seq<K>): seq<Entry<K, V>> {
    AccessAll([], cap, load, trace)
  }

  function Hits<K(==), V>(cap: nat, load: K -> V, trace: seq<K>): nat {
    HitCount([], cap, load, trace)
  }

  /** One past the last position of `k` in the trace; 0 if it never occurs. */
  function LastUse<K(==)>(trace: seq<K>, k: K): (p: nat)
    ensures p <= |trace|
  {
    if trace == [] then 0
    else if trace[|trace| - 1] == k then |trace|
    else LastUse(trace[..|trace| - 1], k)
  }

  lemma {:induction false} LastUseIs<K>(trace: seq<K>, k: K)
    ensures var p := LastUse(trace, k);
      && (p == 0 <==> k !in trace)
      && (p > 0 ==> trace[p - 1] == k)
      && k !in trace[p..]
  {
    if trace != [] {
      var prefix, p := trace[..|trace| - 1], LastUse(trace, k);
      LastUseIs(prefix, k);
      assert trace == prefix + [trace[|trace| - 1]];
      if p < |trace| { assert trace[p..] == prefix[p..] + [trace[|trace| - 1]]; }
    }
  }

  /** Reference definition, free of any cache: the distinct keys of the trace ordered by
      their last use. */
  predicate ByLastUse<K(==)>(ks: seq<K>, trace: seq<K>) {
    && (forall i :: 0 <= i < |ks| ==> ks[i] in trace)
    && (forall k | k in trace :: k in ks)
    && (forall i, j :: 0 <= i < j < |ks| ==> LastUse(trace, ks[i]) < LastUse(trace, ks[j]))
  }

  function Recency<K(==)>(trace: seq<K>): seq<K> {
    if trace == [] then [] else Bump(Recency(trace[..|trace| - 1]), trace[|trace| - 1])
  }

  /** `k` moved, or added, to the end. */
  function Bump<K(==)>(ks: seq<K>, k: K): (r: seq<K>)
    ensures |r| == if k in ks then |ks| else |ks| + 1
    ensures r[|r| - 1] == k
  {
    var i := IndexOf(ks, k);
    (if i < |ks| then RemoveAt(ks, i) else ks) + [k]
  }

  /** The last `n` elements, or all of them. */
  function Last<T>(s: seq<T>, n: nat): (r: seq<T>)
    ensures |r| == if |s| <= n then |s| else n
    ensures |s| <= n ==> r == s
  {
    if |s| <= n then s else s[|s| - n..]
  }

  lemma LastUseStep<K>(prefix: seq<K>, k: K, x: K)
    ensures LastUse(prefix + [k], x) == if x == k then |prefix| + 1 else LastUse(prefix, x)
  {
    assert (prefix + [k])[..|prefix|] == prefix;
  }

  lemma BumpKeeps<K>(ks: seq<K>, k: K, x: K)
    requires x in ks || x == k
    ensures x in Bump(ks, k)
  {
    var r := Bump(ks, k);
    if x == k {
      assert r[|r| - 1] == x;
    } else {
      var i, j := IndexOf(ks, k), IndexOf(ks, x);
      if i < j { assert r[j - 1] == x; } else { assert r[j] == x; }
    }
  }

  /** `Recency` meets the reference definition. */
  lemma {:induction false} RecencyIsByLastUse<K>(trace: seq<K>)
    ensures ByLastUse(Recency(trace), trace)
  {
    if trace != [] {
      var prefix, k := trace[..|trace| - 1], trace[|trace| - 1];
      assert trace == prefix + [k];
      RecencyIsByLastUse(prefix);
      BumpByLastUse(Recency(prefix), prefix, k);
    }
  }

  lemma BumpStamp<K>(ks: seq<K>, prefix: seq<K>, k: K, a: nat)
    requires ByLastUse(ks, prefix) && a < |Bump(ks, k)| - 1
    ensures var a' := if a < IndexOf(ks, k) then a else a + 1;
      Bump(ks, k)[a] == ks[a'] && LastUse(prefix + [k], ks[a']) == LastUse(prefix, ks[a'])
  {
    var a' := if a < IndexOf(ks, k) then a else a + 1;
    LastUseStep(prefix, k, ks[a']);
    ByLastUseDistinct(ks, prefix);
    if k !in ks { assert ks[a'] in ks; }
  }

  lemma BumpByLastUse<K>(ks: seq<K>, prefix: seq<K>, k: K)
    requires ByLastUse(ks, prefix)
    ensures ByLastUse(Bump(ks, k), prefix + [k])
  {
    var r, trace := Bump(ks, k), prefix + [k];
    forall x | x in trace ensures x in r {
      BumpKeeps(ks, k, x);
    }
    LastUseStep(prefix, k, k);
    forall a | 0 <= a < |r| ensures r[a] in trace {
      if a < |r| - 1 { BumpStamp(ks, prefix, k, a); }
    }
    forall a, b | 0 <= a < b < |r| ensures LastUse(trace, r[a]) < LastUse(trace, r[b]) {
      BumpStamp(ks, prefix, k, a);
      if b < |r| - 1 { BumpStamp(ks, prefix, k, b); }
    }
  }

  lemma ByLastUseDistinct<K>(ks: seq<K>, trace: seq<K>)
    requires ByLastUse(ks, trace)
    ensures Distinct(ks)
  {
    forall i, j | 0 <= i < j < |ks| ensures ks[i] != ks[j] {
      assert LastUse(trace, ks[i]) < LastUse(trace, ks[j]);
    }
  }

  /** The reference definition determines the list. */
  lemma {:induction false} ByLastUseUnique<K>(a: seq<K>, b: seq<K>, trace: seq<K>)
    requires ByLastUse(a, trace) && ByLastUse(b, trace)
    ensures a == b
  {
    ByLastUsePrefix(a, b, trace, |a|);
    ByLastUsePrefix(b, a, trace, |b|);
  }

  lemma {:induction false} ByLastUsePrefix<K>(a: seq<K>, b: seq<K>, trace: seq<K>, n: nat)
    requires ByLastUse(a, trace) && ByLastUse(b, trace) && n <= |a|
    ensures n <= |b| && forall m :: 0 <= m < n ==> a[m] == b[m]
  {
    hide LastUse, IndexOf;
    if n > 0 {
      ByLastUsePrefix(a, b, trace, n - 1);
      ByLastUseDistinct(a, trace);
      ByLastUseDistinct(b, trace);
      assert a[n - 1] in trace;
      var i := IndexOf(b, a[n - 1]);
      assert n - 1 <= i;
      assert b[n - 1] in trace;
      var j := IndexOf(a, b[n - 1]);
      assert n - 1 <= j;
      assert LastUse(trace, b[n - 1]) <= LastUse(trace, b[i]);
      assert LastUse(trace, a[n - 1]) <= LastUse(trace, a[j]);
    }
  }

  lemma AccessKeys<K, V>(items: seq<Entry<K, V>>, cap: nat, k: K, v: V)
    ensures Keys(Access(items, cap, k, v)) ==
      if k in Keys(items) || |items| < cap then Bump(Keys(items), k) else Bump(Keys(items), k)[1..]
  {
    var ks, after := Keys(items), Keys(Access(items, cap, k, v));
    var want := if k in ks || |items| < cap then Bump(ks, k) else Bump(ks, k)[1..];
    assert |after| == |want|;
    forall m | 0 <= m < |after| ensures after[m] == want[m] {
    }
  }

  lemma IndexOfInLast<K>(rec: seq<K>, n: nat, k: K)
    requires Distinct(rec)
    ensures var ks := Last(rec, n);
      if k in ks then IndexOf(rec, k) == |rec| - |ks| + IndexOf(ks, k)
      else IndexOf(rec, k) < |rec| - |ks| || k !in rec
  {
    var ks, p := Last(rec, n), IndexOf(rec, k);
    var off := |rec| - |ks|;
    if k in ks {
      assert rec[off + IndexOf(ks, k)] == k;
    } else if k in rec {
      assert forall m :: off <= m < |rec| ==> rec[m] == ks[m - off];
    }
  }

  /** One access on a cache that holds the last `cap` of a recency list. */
  lemma BumpLast<K>(rec: seq<K>, cap: nat, k: K)
    requires cap >= 1 && Distinct(rec)
    ensures var ks := Last(rec, cap);
      Last(Bump(rec, k), cap) == if k in ks || |ks| < cap then Bump(ks, k) else Bump(ks, k)[1..]
  {
    IndexOfInLast(rec, cap, k);
    BumpLastAt(rec, cap, k);
  }

  lemma BumpLastAt<K>(rec: seq<K>, cap: nat, k: K)
    requires cap >= 1
    requires var ks := Last(rec, cap);
      if k in ks then IndexOf(rec, k) == |rec| - |ks| + IndexOf(ks, k)
      else IndexOf(rec, k) < |rec| - |ks| || k !in rec
    ensures var ks := Last(rec, cap);
      Last(Bump(rec, k), cap) == if k in ks || |ks| < cap then Bump(ks, k) else Bump(ks, k)[1..]
  {
    var ks := Last(rec, cap);
    var pre := rec[..|rec| - |ks|];
    assert rec == pre + ks;
    if k in ks || k !in rec {
      BumpSuffix(pre, ks, k);
      if pre == [] { assert pre + Bump(ks, k) == Bump(ks, k); }
      else { LastOfConcat(pre, Bump(ks, k), cap); }
    } else {
      BumpPrefix(pre, ks, k);
      LastOfConcat(RemoveAt(pre, IndexOf(rec, k)), Bump(ks, k), cap);
    }
  }

  lemma BumpSuffix<K>(pre: seq<K>, ks: seq<K>, k: K)
    requires if k in ks then IndexOf(pre + ks, k) == |pre| + IndexOf(ks, k) else k !in pre + ks
    ensures Bump(pre + ks, k) == pre + Bump(ks, k)
  {
    if k in ks {
      assert RemoveAt(pre + ks, |pre| + IndexOf(ks, k)) == pre + RemoveAt(ks, IndexOf(ks, k));
    }
  }

  lemma BumpPrefix<K>(pre: seq<K>, ks: seq<K>, k: K)
    requires IndexOf(pre + ks, k) < |pre| && k !in ks
    ensures Bump(pre + ks, k) == RemoveAt(pre, IndexOf(pre + ks, k)) + Bump(ks, k)
  {
    var p := IndexOf(pre + ks, k);
    assert RemoveAt(pre + ks, p) == RemoveAt(pre, p) + ks;
  }

  lemma LastOfConcat<T>(y: seq<T>, z: seq<T>, n: nat)
    requires n <= |z|
    ensures Last(y + z, n) == Last(z, n)
  {
  }

  /** At every capacity the cache holds exactly the `cap` most recently used distinct keys of
      the trace, in recency order. */
  lemma {:induction false} ContentsAreLastUsed<K, V>(cap: nat, load: K -> V, trace: seq<K>)
    requires cap >= 1
    ensures Keys(Run(cap, load, trace)) == Last(Recency(trace), cap)
  {
    if trace != [] {
      var prefix, k := trace[..|trace| - 1], trace[|trace| - 1];
      ContentsAreLastUsed(cap, load, prefix);
      RecencyIsByLastUse(prefix);
      ByLastUseDistinct(Recency(prefix), prefix);
      AccessKeys(Run(cap, load, prefix), cap, k, load(k));
      BumpLast(Recency(prefix), cap, k);
    }
  }

  /** Each entry holds the value its loader gives. */
  lemma {:induction false} ContentsAreLoaded<K, V>(cap: nat, load: K -> V, trace: seq<K>)
    ensures Loaded(Run(cap, load, trace), load)
  {
    if trace != [] {
      var prefix, k := trace[..|trace| - 1], trace[|trace| - 1];
      ContentsAreLoaded(cap, load, prefix);
      AccessLoads(Run(cap, load, prefix), cap, k, load);
    }
  }

  lemma AccessLoads<K, V>(items: seq<Entry<K, V>>, cap: nat, k: K, load: K -> V)
    requires Loaded(items, load)
    ensures Loaded(Access(items, cap, k, load(k)), load)
  {
  }

  /** LRU has no anomaly: a larger cache always holds at least what a smaller one does. */
  lemma Inclusion<K, V>(c1: nat, c2: nat, load: K -> V, trace: seq<K>, k: K)
    requires 1 <= c1 <= c2
    requires k in Keys(Run(c1, load, trace))
    ensures k in Keys(Run(c2, load, trace))
  {
    ContentsAreLastUsed(c1, load, trace);
    ContentsAreLastUsed(c2, load, trace);
    LastNested(Recency(trace), c1, c2, k);
  }

  lemma LastNested<T>(s: seq<T>, n: nat, m: nat, x: T)
    requires n <= m && x in Last(s, n)
    ensures x in Last(s, m)
  {
    var small, large := Last(s, n), Last(s, m);
    assert large == large[..|large| - |small|] + small;
  }

  /** So hits never decrease as capacity grows. */
  lemma {:induction false} HitsGrow<K, V>(c1: nat, c2: nat, load: K -> V, trace: seq<K>)
    requires 1 <= c1 <= c2
    ensures Hits(c1, load, trace) <= Hits(c2, load, trace)
  {
    if trace != [] {
      var prefix := trace[..|trace| - 1];
      HitsGrow(c1, c2, load, prefix);
      if trace[|trace| - 1] in Keys(Run(c1, load, prefix)) {
        Inclusion(c1, c2, load, prefix, trace[|trace| - 1]);
      }
    }
  }
}
