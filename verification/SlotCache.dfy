/** The C engine's per-layer expert cache: a slot array searched linearly, whose victim is the
    slot with the smallest time stamp. It refines the recency list of `RecencyLru`. */
module SlotCache {
  import opened RecencyLru
  import opened Sequences

  datatype Slot<W> = Slot(eid: int, weights: W, used: nat)

  /** What holds of one layer after every access, `ss` being its filled slots and `order` their
      indices by increasing time stamp: expert ids and stamps are distinct, no stamp is beyond
      the clock, and each slot holds the weights of its expert. */
  ghost predicate Fits<W>(ss: seq<Slot<W>>, order: seq<nat>, clock: nat, load: int -> W) {
    && |order| == |ss|
    && (forall j :: 0 <= j < |order| ==> order[j] < |ss|)
    && (forall i, j :: 0 <= i < j < |order| ==> ss[order[i]].used < ss[order[j]].used)
    && (forall i :: 0 <= i < |ss| ==> i in order)
    && (forall i :: 0 <= i < |ss| ==> ss[i].used <= clock)
    && (forall i, j :: 0 <= i < j < |ss| ==> ss[i].eid != ss[j].eid)
    && (forall i :: 0 <= i < |ss| ==> ss[i].weights == load(ss[i].eid))
  }

  /** The abstract cache: the slots' entries, least recently used first. */
  ghost function Entries<W>(ss: seq<Slot<W>>, order: seq<nat>): (items: seq<Entry<int, W>>)
    requires forall j :: 0 <= j < |order| ==> order[j] < |ss|
    ensures |items| == |order|
    ensures forall j :: 0 <= j < |order| ==>
      items[j] == Entry(ss[order[j]].eid, ss[order[j]].weights)
  {
    seq(|order|, j requires 0 <= j < |order| => Entry(ss[order[j]].eid, ss[order[j]].weights))
  }

  lemma OrderDistinct<W>(ss: seq<Slot<W>>, order: seq<nat>, clock: nat, load: int -> W)
    requires Fits(ss, order, clock, load)
    ensures Distinct(order)
  {
    forall i, j | 0 <= i < j < |order| ensures order[i] != order[j] {
      assert ss[order[i]].used < ss[order[j]].used;
    }
  }

  /** A slot's expert is cached, at the position its stamp gives it. */
  lemma KeyAt<W>(ss: seq<Slot<W>>, order: seq<nat>, clock: nat, load: int -> W, k: nat)
    requires Fits(ss, order, clock, load) && k < |order|
    ensures IndexOf(Keys(Entries(ss, order)), ss[order[k]].eid) == k
  {
    OrderDistinct(ss, order, clock, load);
    var ks := Keys(Entries(ss, order));
    assert ks[k] == ss[order[k]].eid;
    var i := IndexOf(ks, ks[k]);
    assert ks[i] == ss[order[i]].eid;
  }

  lemma KeyAbsent<W>(ss: seq<Slot<W>>, order: seq<nat>, eid: int)
    requires forall j :: 0 <= j < |order| ==> order[j] < |ss|
    requires forall j :: 0 <= j < |ss| ==> ss[j].eid != eid
    ensures eid !in Keys(Entries(ss, order))
  {
    var ks := Keys(Entries(ss, order));
    forall j | 0 <= j < |ks| ensures ks[j] != eid {
      assert ks[j] == ss[order[j]].eid;
    }
  }

  /** `i` moved from position `k` of the order to its end still lists every index. */
  lemma MovedStillLists(order: seq<nat>, k: nat, j: nat)
    requires k < |order| && j in order
    ensures j in RemoveAt(order, k) + [order[k]]
  {
    var p := IndexOf(order, j);
    var moved := RemoveAt(order, k) + [order[k]];
    if j == order[k] { assert moved[|moved| - 1] == j; }
    else if p < k { assert moved[p] == j; }
    else { assert moved[p - 1] == j; }
  }

  /** Restamping the slot at position `k` of the order, and giving it a new tenant or not. */
  lemma RestampFits<W>(ss: seq<Slot<W>>, order: seq<nat>, clock: nat, load: int -> W, k: nat, s: Slot<W>)
    requires Fits(ss, order, clock, load) && k < |order|
    requires s.used == clock + 1 && s.weights == load(s.eid)
    requires forall j :: 0 <= j < |ss| && j != order[k] ==> ss[j].eid != s.eid
    ensures Fits(ss[order[k] := s], RemoveAt(order, k) + [order[k]], clock + 1, load)
  {
    OrderDistinct(ss, order, clock, load);
    var ss', moved := ss[order[k] := s], RemoveAt(order, k) + [order[k]];
    forall i | 0 <= i < |ss'| ensures i in moved {
      MovedStillLists(order, k, i);
    }
    forall i, j | 0 <= i < j < |moved| ensures ss'[moved[i]].used < ss'[moved[j]].used {
      var i' := if i < k then i else i + 1;
      assert moved[i] == order[i'];
      if j < |moved| - 1 {
        var j' := if j < k then j else j + 1;
        assert moved[j] == order[j'];
      }
    }
  }

  lemma RestampEntries<W>(ss: seq<Slot<W>>, order: seq<nat>, k: nat, s: Slot<W>)
    requires Distinct(order) && k < |order| && forall j :: 0 <= j < |order| ==> order[j] < |ss|
    ensures Entries(ss[order[k] := s], RemoveAt(order, k) + [order[k]]) ==
      RemoveAt(Entries(ss, order), k) + [Entry(s.eid, s.weights)]
  {
    var moved := RemoveAt(order, k) + [order[k]];
    var got, items := Entries(ss[order[k] := s], moved), Entries(ss, order);
    forall j | 0 <= j < |moved| - 1
      ensures got[j] == RemoveAt(items, k)[j]
    {
      var j' := if j < k then j else j + 1;
      assert moved[j] == order[j'] && order[j'] != order[k];
    }
  }

  lemma ExtendFits<W>(ss: seq<Slot<W>>, order: seq<nat>, clock: nat, load: int -> W, s: Slot<W>)
    requires Fits(ss, order, clock, load)
    requires s.used == clock + 1 && s.weights == load(s.eid)
    requires forall j :: 0 <= j < |ss| ==> ss[j].eid != s.eid
    ensures Fits(ss + [s], order + [|ss|], clock + 1, load)
    ensures Entries(ss + [s], order + [|ss|]) == Entries(ss, order) + [Entry(s.eid, s.weights)]
  {
    var order' := order + [|ss|];
    forall i | 0 <= i < |ss| + 1 ensures i in order' {
      if i < |ss| { assert i in order; } else { assert order'[|ss|] == i; }
    }
  }

  lemma EmptyFits<W>(load: int -> W)
    ensures Fits([], [], 0, load) && Entries<W>([], []) == []
  {
  }

  lemma LaterClock<W>(ss: seq<Slot<W>>, order: seq<nat>, clock: nat, load: int -> W)
    requires Fits(ss, order, clock, load)
    ensures Fits(ss, order, clock + 1, load)
  {
  }

  /** One layer's slots. */
  class LayerCache<W(0)> {
    const slots: array<Slot<W>>
    var n: nat
    ghost var order: seq<nat>

    constructor (cap: nat)
      requires cap >= 1
      ensures fresh(slots) && slots.Length == cap && n == 0 && order == []
    {
      slots := new Slot<W>[cap];
      n := 0;
      order := [];
    }

    ghost predicate Valid(clock: nat, load: int -> W)
      reads this, slots
    {
      1 <= slots.Length && n <= slots.Length && Fits(slots[..n], order, clock, load)
    }

    ghost function Items(): seq<Entry<int, W>>
      requires n <= slots.Length && forall j :: 0 <= j < |order| ==> order[j] < n
      reads this, slots
    {
      Entries(slots[..n], order)
    }

    /** The scan for a slot holding `eid`. */
    method Lookup(eid: int) returns (i: nat)
      requires n <= slots.Length
      ensures i <= n
      ensures i < n ==> slots[i].eid == eid
      ensures i == n ==> forall j :: 0 <= j < n ==> slots[j].eid != eid
    {
      i := 0;
      while i < n
        invariant i <= n
        invariant forall j :: 0 <= j < i ==> slots[j].eid != eid
      {
        if slots[i].eid == eid {
          return;
        }
        i := i + 1;
      }
    }

    /** The scan for the victim finds the head of the recency list. */
    method Oldest(ghost clock: nat, ghost load: int -> W) returns (lru: nat)
      requires Valid(clock, load) && n >= 1
      ensures lru == order[0]
    {
      lru := 0;
      for i := 1 to n
        invariant lru < n
        invariant forall j :: 0 <= j < i ==> slots[lru].used <= slots[j].used
      {
        if slots[i].used < slots[lru].used {
          lru := i;
        }
      }
      ghost var ss := slots[..n];
      assert lru in order;
      ghost var k :| 0 <= k < n && order[k] == lru;
      assert ss[lru].used <= ss[order[0]].used;
    }

    /** A hit: stamp slot `i`. */
    method Touch(i: nat, eid: int, clock: nat, ghost load: int -> W)
      requires Valid(clock, load) && i < n && slots[i].eid == eid
      modifies this`order, slots
      ensures Valid(clock + 1, load)
      ensures eid in Keys(old(Items()))
      ensures Items() == Access(old(Items()), slots.Length, eid, load(eid))
      ensures i < n && slots[i] == Slot(eid, load(eid), clock + 1)
      ensures slots[..] == old(slots[..])[i := slots[i]]
    {
      ghost var ss, k := slots[..n], IndexOf(order, i);
      ghost var s := ss[i].(used := clock + 1);
      assert i in order;
      OrderDistinct(ss, order, clock, load);
      KeyAt(ss, order, clock, load, k);
      RestampFits(ss, order, clock, load, k, s);
      RestampEntries(ss, order, k, s);
      slots[i] := slots[i].(used := clock + 1);
      order := RemoveAt(order, k) + [i];
      assert slots[..n] == ss[i := s];
    }

    /** A miss: fill the next free slot, or replace the least recently used one. */
    method Fill(eid: int, w: W, clock: nat, ghost load: int -> W) returns (i: nat)
      requires Valid(clock, load) && w == load(eid)
      requires forall j :: 0 <= j < n ==> slots[j].eid != eid
      modifies this, slots
      ensures Valid(clock + 1, load)
      ensures eid !in Keys(old(Items()))
      ensures Items() == Access(old(Items()), slots.Length, eid, w)
      ensures n == if old(n) < slots.Length then old(n) + 1 else old(n)
      ensures i == if old(n) < slots.Length then old(n) else old(order)[0]
      ensures i < n && slots[i] == Slot(eid, w, clock + 1)
      ensures slots[..] == old(slots[..])[i := slots[i]]
    {
      ghost var ss, s := slots[..n], Slot(eid, w, clock + 1);
      KeyAbsent(ss, order, eid);
      if n < slots.Length {
        ExtendFits(ss, order, clock, load, s);
        i := n;
        n := n + 1;
        slots[i] := Slot(eid, w, clock + 1);
        order := order + [i];
        assert slots[..n] == ss + [s];
      } else {
        i := Oldest(clock, load);
        OrderDistinct(ss, order, clock, load);
        RestampFits(ss, order, clock, load, 0, s);
        RestampEntries(ss, order, 0, s);
        slots[i] := Slot(eid, w, clock + 1);
        order := RemoveAt(order, 0) + [i];
        assert slots[..n] == ss[i := s];
      }
    }

    method Get(eid: int, clock: nat, load: int -> W) returns (i: nat, hit: bool)
      requires Valid(clock, load)
      modifies this, slots
      ensures Valid(clock + 1, load)
      ensures hit <==> eid in Keys(old(Items()))
      ensures Items() == Access(old(Items()), slots.Length, eid, load(eid))
      ensures i < n && slots[i] == Slot(eid, load(eid), clock + 1)
    {
      hide Access, Entries;
      i := Lookup(eid);
      hit := i < n;
      if hit {
        Touch(i, eid, clock, load);
      } else {
        i := Fill(eid, load(eid), clock, load);
      }
    }
  }

  method EmptyCaches<W(0)>(layers: nat, cap: nat) returns (cs: seq<LayerCache<W>>, ghost owned: set<object>)
    requires cap >= 1
    ensures |cs| == layers && fresh(owned)
    ensures forall a :: 0 <= a < layers ==>
      && cs[a] in owned && cs[a].slots in owned
      && cs[a].slots.Length == cap && cs[a].n == 0 && cs[a].order == []
    ensures forall a, b :: 0 <= a < b < layers ==> cs[a] != cs[b] && cs[a].slots != cs[b].slots
  {
    cs, owned := [], {};
    for l := 0 to layers
      invariant |cs| == l && fresh(owned)
      invariant forall a :: 0 <= a < l ==>
        && cs[a] in owned && cs[a].slots in owned
        && cs[a].slots.Length == cap && cs[a].n == 0 && cs[a].order == []
      invariant forall a, b :: 0 <= a < b < l ==> cs[a] != cs[b] && cs[a].slots != cs[b].slots
    {
      var c := new LayerCache<W>(cap);
      cs := cs + [c];
      owned := owned + {c, c.slots};
    }
  }

  /** All layers' caches with the engine's one clock and its counters. The clock is shared, so
      stamps grow across layers as well as within one. */
  class ExpertStore<W(0)> {
    const cache: seq<LayerCache<W>>
    const load: (nat, int) -> W
    var clock: nat
    var hits: nat
    var miss: nat

    ghost const repr: set<object>

    constructor (layers: nat, cap: nat, load: (nat, int) -> W)
      requires cap >= 1
      ensures Valid() && fresh(repr) && this.load == load
      ensures |cache| == layers && clock == 0
      ensures forall l :: 0 <= l < layers ==> cache[l].slots.Length == cap && Items(l) == []
    {
      var cs, owned := EmptyCaches<W>(layers, cap);
      cache := cs;
      this.load := load;
      clock, hits, miss := 0, 0, 0;
      repr := {this} + owned;
      new;
      hide Fits, Entries;
      forall l | 0 <= l < layers
        ensures cache[l].Valid(clock, Loader(l)) && cache[l].Items() == []
      {
        EmptyFits(Loader(l));
        assert cache[l].slots[..cache[l].n] == [];
      }
    }

    ghost predicate Valid()
      reads this, repr
    {
      && this in repr
      && (forall l :: 0 <= l < |cache| ==> cache[l] in repr && cache[l].slots in repr)
      && (forall a, b :: 0 <= a < b < |cache| ==>
            cache[a] != cache[b] && cache[a].slots != cache[b].slots)
      && (forall l :: 0 <= l < |cache| ==> cache[l].Valid(clock, Loader(l)))
      && hits + miss == clock
    }

    ghost function Loader(l: nat): int -> W {
      eid => load(l, eid)
    }

    ghost function Items(l: nat): seq<Entry<int, W>>
      requires l < |cache| && cache[l].Valid(clock, Loader(l))
      reads this, cache[l], cache[l].slots
    {
      cache[l].Items()
    }

    /** Fetches one expert: afterwards the returned slot holds its weights, whatever the cache
        did, and that layer's recency list took one access while the others kept theirs. */
    method ExpertGet(layer: nat, eid: int) returns (i: nat)
      requires Valid() && layer < |cache|
      modifies repr
      ensures Valid()
      ensures i < cache[layer].n <= cache[layer].slots.Length
      ensures cache[layer].slots[i] == Slot(eid, load(layer, eid), clock)
      ensures clock == old(clock) + 1
      ensures hits == old(hits) + if eid in Keys(old(Items(layer))) then 1 else 0
      ensures Items(layer) ==
        Access(old(Items(layer)), cache[layer].slots.Length, eid, load(layer, eid))
      ensures forall l :: 0 <= l < |cache| && l != layer ==> Items(l) == old(Items(l))
    {
      hide Fits, Entries, Access;
      var hit;
      i, hit := cache[layer].Get(eid, clock, e => load(layer, e));
      if hit {
        hits := hits + 1;
      } else {
        miss := miss + 1;
      }
      clock := clock + 1;
      forall l | 0 <= l < |cache| && l != layer
        ensures cache[l].Valid(clock, Loader(l)) && Items(l) == old(Items(l))
      {
        LaterClock(cache[l].slots[..cache[l].n], cache[l].order, clock - 1, Loader(l));
      }
    }
  }
}
