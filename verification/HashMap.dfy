/** The tokenizer's hash map from byte strings to numbers. */
module HashMap {
  import opened Bytes
  import opened Probing
  import opened Sequences

  datatype Ment = Ment(k: Bytes, v: nat)

  function Keys(e: seq<Option<Ment>>): (ks: seq<Option<Bytes>>)
    ensures |ks| == |e|
    ensures forall h :: 0 <= h < |e| ==> ks[h] == if e[h].Some? then Some(e[h].value.k) else None
  {
    seq(|e|, h requires 0 <= h < |e| => if e[h].Some? then Some(e[h].value.k) else None)
  }

  ghost function Starts(hash: Bytes -> nat, cap: nat): Bytes -> nat
    requires cap > 0
  {
    (k: Bytes) => hash(k) % cap
  }

  /** The table represents `m`: no gaps, one slot per key, and the map's value in it. */
  ghost predicate Represents(e: seq<Option<Ment>>, hash: Bytes -> nat, m: map<Bytes, nat>) {
    && |e| > 0
    && Chained(Keys(e), Starts(hash, |e|))
    && Count(Keys(e)) == |m|
    && ValuesRight(e, m)
    && KeysApart(e)
    && Listed(Keys(e), m)
  }

  ghost predicate ValuesRight(e: seq<Option<Ment>>, m: map<Bytes, nat>) {
    forall h :: 0 <= h < |e| && e[h].Some? ==> e[h].value.k in m && m[e[h].value.k] == e[h].value.v
  }

  ghost predicate KeysApart(e: seq<Option<Ment>>) {
    forall g, h :: 0 <= g < h < |e| && e[g].Some? && e[h].Some? ==> e[g].value.k != e[h].value.k
  }

  ghost predicate Listed(ks: seq<Option<Bytes>>, m: map<Bytes, nat>) {
    forall k :: k in m ==> Some(k) in ks
  }

  lemma EmptyRepresents(e: seq<Option<Ment>>, hash: Bytes -> nat)
    requires |e| > 0 && forall h :: 0 <= h < |e| ==> e[h].None?
    ensures Represents(e, hash, map[])
  {
    CountNone(Keys(e));
  }

  /** Nothing but other keys on the way: the key is at distance `d` or beyond. */
  predicate OthersBefore(e: seq<Option<Ment>>, a: nat, k: Bytes, d: nat)
    requires a < |e| && d <= |e|
  {
    forall x :: 0 <= x < d ==> e[Slot(a, x, |e|)].Some? && e[Slot(a, x, |e|)].value.k != k
  }

  /** A probe that ends at a free slot has shown the key to be absent. */
  lemma FreeMeansAbsent(e: seq<Option<Ment>>, hash: Bytes -> nat, m: map<Bytes, nat>, k: Bytes, d: nat)
    requires Represents(e, hash, m) && d < |e|
    requires var a := hash(k) % |e|; OthersBefore(e, a, k, d) && e[Slot(a, d, |e|)].None?
    ensures k !in m
  {
    hide Count, Chained;
    var ks, a := Keys(e), hash(k) % |e|;
    if k in m {
      var h := WhereIs(ks, Some(k));
      assert Slot(a, Dist(a, h, |e|), |e|) == h;
      PassedAll(ks, Starts(hash, |e|), a, d, h);
    }
  }

  /** Writing the value at a key's own slot. */
  lemma UpdateRepresents(e: seq<Option<Ment>>, hash: Bytes -> nat, m: map<Bytes, nat>, k: Bytes, v: nat, h: nat)
    requires Represents(e, hash, m) && h < |e| && e[h].Some? && e[h].value.k == k
    ensures Represents(e[h := Some(Ment(k, v))], hash, m[k := v])
  {
    hide Count, Chained;
    assert Keys(e[h := Some(Ment(k, v))]) == Keys(e);
    assert m[k := v].Keys == m.Keys;
    assert |m[k := v]| == |m| by { assert |m.Keys| == |m|; }
  }

  lemma OthersTaken(e: seq<Option<Ment>>, a: nat, k: Bytes, d: nat)
    requires a < |e| && d <= |e| && OthersBefore(e, a, k, d)
    ensures Taken(Keys(e), a, d)
  {
  }

  /** Taking the free slot that ends a new key's probe. */
  lemma InsertRepresents(e: seq<Option<Ment>>, hash: Bytes -> nat, m: map<Bytes, nat>, k: Bytes, v: nat, d: nat)
    requires Represents(e, hash, m) && d < |e|
    requires var a := hash(k) % |e|; OthersBefore(e, a, k, d) && e[Slot(a, d, |e|)].None?
    ensures Represents(e[Slot(hash(k) % |e|, d, |e|) := Some(Ment(k, v))], hash, m[k := v])
  {
    hide Count, Chained, OthersBefore, ValuesRight, KeysApart, Listed, Slot, Dist;
    FreeMeansAbsent(e, hash, m, k, d);
    OthersTaken(e, hash(k) % |e|, k, d);
    var ks, start := Keys(e), Starts(hash, |e|);
    var at := Slot(start(k), d, |e|);
    var after := e[at := Some(Ment(k, v))];
    assert Keys(after) == ks[at := Some(k)];
    ChainedAfter(ks, start, k, d);
    CountAfter(ks, at, k);
    assert m[k := v].Keys == m.Keys + {k};
    InsertListed(ks, m, k, v, at);
    InsertValues(e, m, k, v, at);
  }

  lemma InsertValues(e: seq<Option<Ment>>, m: map<Bytes, nat>, k: Bytes, v: nat, at: nat)
    requires at < |e| && e[at].None? && k !in m && ValuesRight(e, m) && KeysApart(e)
    ensures ValuesRight(e[at := Some(Ment(k, v))], m[k := v]) && KeysApart(e[at := Some(Ment(k, v))])
  {
  }

  lemma InsertListed(ks: seq<Option<Bytes>>, m: map<Bytes, nat>, k: Bytes, v: nat, at: nat)
    requires at < |ks| && ks[at].None? && Listed(ks, m)
    ensures Listed(ks[at := Some(k)], m[k := v])
  {
    var after := ks[at := Some(k)];
    forall x | x in m[k := v] ensures Some(x) in after {
      if x == k {
        assert after[at] == Some(k);
      } else {
        var h := WhereIs(ks, Some(x));
        assert after[h] == Some(x);
      }
    }
  }

  class HMap {
    const e: array<Option<Ment>>
    const hash: Bytes -> nat
    ghost var m: map<Bytes, nat>

    constructor (cap: nat, hash: Bytes -> nat)
      requires cap > 0 && PowerOfTwo(cap)
      ensures fresh(e) && e.Length == cap && this.hash == hash && Valid() && m == map[]
    {
      var slots := new Option<Ment>[cap](_ => None);
      e, this.hash, m := slots, hash, map[];
      new;
      EmptyRepresents(e[..], hash);
    }

    /** A free slot is always left, so every probe ends. */
    ghost predicate Valid()
      reads this, e
    {
      PowerOfTwo(e.Length) && Represents(e[..], hash, m) && |m| < e.Length
    }

    /** Probes to the key's slot, or to the free slot where its probe ends. */
    method Probe(k: Bytes) returns (h: nat, ghost d: nat)
      requires Valid()
      ensures h < e.Length && d < e.Length
      ensures h == Slot(hash(k) % e.Length, d, e.Length) && OthersBefore(e[..], hash(k) % e.Length, k, d)
      ensures e[h].Some? ==> e[h].value.k == k
    {
      hide Chained, Count, BitAnd, PowerOfTwo;
      var cap := e.Length;
      MaskIsMod(hash(k), cap);
      h := BitAnd(hash(k), cap - 1);
      d := 0;
      CountFree(Keys(e[..]));
      while e[h].Some? && e[h].value.k != k
        invariant d < cap && h == Slot(hash(k) % cap, d, cap)
        invariant OthersBefore(e[..], hash(k) % cap, k, d)
        decreases cap - d
      {
        StepIsNext(hash(k) % cap, d, cap);
        assert OthersBefore(e[..], hash(k) % cap, k, d + 1);
        NotRound(Keys(e[..]), hash(k) % cap, d + 1);
        MaskIsStep(h, cap);
        h := BitAnd(h + 1, cap - 1);
        d := d + 1;
      }
    }

    method Put(k: Bytes, v: nat)
      requires Valid() && (k in m || |m| + 1 < e.Length)
      modifies this, e
      ensures Valid() && m == old(m)[k := v]
    {
      hide Represents;
      ghost var s := e[..];
      var h, d := Probe(k);
      if e[h].Some? {
        UpdateRepresents(s, hash, m, k, v, h);
        KeyInMap(s, hash, m, h);
        assert m[k := v].Keys == m.Keys;
      } else {
        InsertRepresents(s, hash, m, k, v, d);
        FreeMeansAbsent(s, hash, m, k, d);
        assert m[k := v].Keys == m.Keys + {k};
      }
      e[h] := Some(Ment(k, v));
      m := m[k := v];
      assert e[..] == s[h := Some(Ment(k, v))];
    }

    /** The value of a key, or -1. */
    method Get(k: Bytes) returns (v: int)
      requires Valid()
      ensures v == if k in m then m[k] else -1
    {
      hide Represents;
      var h, d := Probe(k);
      if e[h].Some? {
        KeyInMap(e[..], hash, m, h);
        return e[h].value.v;
      }
      FreeMeansAbsent(e[..], hash, m, k, d);
      return -1;
    }
  }

  lemma KeyInMap(e: seq<Option<Ment>>, hash: Bytes -> nat, m: map<Bytes, nat>, h: nat)
    requires Represents(e, hash, m) && h < |e| && e[h].Some?
    ensures e[h].value.k in m && m[e[h].value.k] == e[h].value.v
  {
  }

  /** The map a list of pairs leaves behind: the last value of each key. */
  function LastValues(pairs: seq<Ment>): (m: map<Bytes, nat>)
    ensures |m| <= |pairs|
  {
    if pairs == [] then map[]
    else
      var p, m := pairs[|pairs| - 1], LastValues(pairs[..|pairs| - 1]);
      assert m[p.k := p.v].Keys == m.Keys + {p.k};
      m[p.k := p.v]
  }

  /** Every key has the value that was listed for it last, and no other key has one. */
  lemma {:induction false} LastValuesIs(pairs: seq<Ment>, k: Bytes) returns (p: int)
    ensures -1 <= p < |pairs| && (p >= 0 <==> k in LastValues(pairs))
    ensures p >= 0 ==> pairs[p].k == k && LastValues(pairs)[k] == pairs[p].v
    ensures forall j :: p < j < |pairs| ==> pairs[j].k != k
  {
    p := -1;
    if pairs != [] {
      var n := |pairs| - 1;
      if pairs[n].k == k {
        p := n;
      } else {
        p := LastValuesIs(pairs[..n], k);
      }
    }
  }

  /** Fills a new table with a list of pairs, twice the room being enough. */
  method Load(pairs: seq<Ment>, hash: Bytes -> nat) returns (t: HMap)
    ensures fresh(t) && fresh(t.e) && t.Valid() && t.m == LastValues(pairs)
  {
    hide Represents, PowerOfTwo;
    var cap := Capacity(|pairs|);
    t := new HMap(cap, hash);
    for i := 0 to |pairs|
      invariant fresh(t) && fresh(t.e) && t.Valid() && t.e.Length == cap
      invariant t.m == LastValues(pairs[..i])
    {
      assert pairs[..i + 1][..i] == pairs[..i];
      t.Put(pairs[i].k, pairs[i].v);
    }
    assert pairs[..|pairs|] == pairs;
  }
}
