/** The hash index over tensor names, against the linear scan it replaces. */
module TensorIndex {
  import opened Probing
  import opened Sequences

  /** The table's integers as optional positions: -1 is a free slot. */
  function Slots(table: seq<int>): (s: seq<Option<nat>>)
    ensures |s| == |table|
    ensures forall h :: 0 <= h < |s| ==> s[h] == if table[h] < 0 then None else Some(table[h])
  {
    seq(|table|, h requires 0 <= h < |table| => if table[h] < 0 then None else Some(table[h] as nat))
  }

  /** Where a tensor's probe starts: `hash & (hcap - 1)`. */
  ghost function Starts<N(!new)>(names: seq<N>, hash: N -> nat, cap: nat): nat -> nat
    requires cap > 0
  {
    (i: nat) => if i < |names| then hash(names[i]) % cap else 0
  }

  /** After the first `n` tensors: no gaps, each of them in exactly one slot, and among tensors of
      one name the earlier sits nearer to where the probe starts. */
  ghost predicate Indexed<N(!new)>(names: seq<N>, hash: N -> nat, s: seq<Option<nat>>, n: nat) {
    && |s| > 0 && n <= |names|
    && Chained(s, Starts(names, hash, |s|))
    && Count(s) == n
    && (forall h :: 0 <= h < |s| && s[h].Some? ==> s[h].value < n)
    && (forall j :: 0 <= j < n ==> Some(j) in s)
    && EarlierNearer(names, hash, s)
  }

  ghost predicate EarlierNearer<N(!new)>(names: seq<N>, hash: N -> nat, s: seq<Option<nat>>)
    requires |s| > 0
  {
    && (forall h :: 0 <= h < |s| && s[h].Some? ==> s[h].value < |names|)
    && forall g, h :: 0 <= g < |s| && 0 <= h < |s| && Earlier(names, s[g], s[h]) ==>
         Dist(hash(names[s[g].value]) % |s|, g, |s|) < Dist(hash(names[s[g].value]) % |s|, h, |s|)
  }

  /** Two tensors of one name, the first of them before the second. */
  predicate Earlier<N(==)>(names: seq<N>, x: Option<nat>, y: Option<nat>) {
    x.Some? && y.Some? && x.value < y.value < |names| && names[x.value] == names[y.value]
  }

  lemma EmptyIndexed<N(!new)>(names: seq<N>, hash: N -> nat, s: seq<Option<nat>>)
    requires |s| > 0 && forall h :: 0 <= h < |s| ==> s[h].None?
    ensures Indexed(names, hash, s, 0)
  {
    CountNone(s);
  }

  /** The next tensor goes to the free slot that ends its probe. */
  lemma InsertIndexed<N(!new)>(names: seq<N>, hash: N -> nat, s: seq<Option<nat>>, n: nat, d: nat)
    requires Indexed(names, hash, s, n) && n < |names| && d < |s|
    requires var a := hash(names[n]) % |s|; Taken(s, a, d) && s[Slot(a, d, |s|)].None?
    ensures Indexed(names, hash, s[Slot(hash(names[n]) % |s|, d, |s|) := Some(n)], n + 1)
  {
    var start := Starts(names, hash, |s|);
    var at := Slot(start(n), d, |s|);
    var after := s[at := Some(n)];
    ChainedAfter(s, start, n, d);
    CountAfter(s, at, n);
    InsertNearer(names, hash, s, n, d);
    hide Chained, Count, EarlierNearer, Taken, Slot, Dist, Starts;
    AllStillIn(s, after, n, at);
  }

  lemma AllStillIn(s: seq<Option<nat>>, after: seq<Option<nat>>, n: nat, at: nat)
    requires at < |s| && s[at].None? && forall j :: 0 <= j < n ==> Some(j) in s
    requires after == s[at := Some(n)]
    ensures forall j :: 0 <= j < n + 1 ==> Some(j) in after
  {
    forall j | 0 <= j < n + 1 ensures Some(j) in after {
      if j < n {
        var h := WhereIs(s, Some(j));
        assert after[h] == Some(j);
      } else {
        assert after[at] == Some(n);
      }
    }
  }

  lemma InsertNearer<N(!new)>(names: seq<N>, hash: N -> nat, s: seq<Option<nat>>, n: nat, d: nat)
    requires Indexed(names, hash, s, n) && n < |names| && d < |s|
    requires s[Slot(hash(names[n]) % |s|, d, |s|)].None?
    ensures EarlierNearer(names, hash, s[Slot(hash(names[n]) % |s|, d, |s|) := Some(n)])
  {
    hide Count, Taken;
    var start := Starts(names, hash, |s|);
    var a := start(n);
    var at := Slot(a, d, |s|);
    var after := s[at := Some(n)];
    forall g, h | 0 <= g < |s| && 0 <= h < |s| && Earlier(names, after[g], after[h])
      ensures Dist(hash(names[after[g].value]) % |s|, g, |s|) < Dist(hash(names[after[g].value]) % |s|, h, |s|)
    {
      assert g != at;
      if h == at {
        assert start(s[g].value) == a && Dist(a, at, |s|) == d;
        PassedAll(s, start, a, d, g);
      } else {
        assert Earlier(names, s[g], s[h]);
      }
    }
  }

  /** A slot whose tensor has the name, reached past slots whose tensors do not, holds the lowest
      tensor of that name. */
  lemma FoundIsFirst<N(!new)>(names: seq<N>, hash: N -> nat, s: seq<Option<nat>>, name: N, d: nat)
    requires Indexed(names, hash, s, |names|) && d < |s|
    requires var a := hash(name) % |s|;
      && s[Slot(a, d, |s|)].Some? && names[s[Slot(a, d, |s|)].value] == name
      && (forall e :: 0 <= e < d ==> s[Slot(a, e, |s|)].Some? && names[s[Slot(a, e, |s|)].value] != name)
    ensures s[Slot(hash(name) % |s|, d, |s|)].value == IndexOf(names, name)
  {
    IndexOfFirst(names, name);
    hide Chained, Count, IndexOf;
    var a := hash(name) % |s|;
    var h := Slot(a, d, |s|);
    var g := WhereIs(s, Some(IndexOf(names, name)));
    assert Slot(a, Dist(a, g, |s|), |s|) == g && Dist(a, h, |s|) == d;
    assert d <= Dist(a, g, |s|);
    assert !Earlier(names, s[g], s[h]);
  }

  /** A probe that ends at a free slot has shown the name to be absent. */
  lemma FreeMeansAbsent<N(!new)>(names: seq<N>, hash: N -> nat, s: seq<Option<nat>>, name: N, d: nat)
    requires Indexed(names, hash, s, |names|) && d < |s|
    requires var a := hash(name) % |s|;
      && s[Slot(a, d, |s|)].None?
      && (forall e :: 0 <= e < d ==> s[Slot(a, e, |s|)].Some? && names[s[Slot(a, e, |s|)].value] != name)
    ensures IndexOf(names, name) == |names|
  {
    hide Chained, Count, IndexOf;
    var a, j := hash(name) % |s|, IndexOf(names, name);
    if j < |names| {
      var g := WhereIs(s, Some(j));
      assert Slot(a, Dist(a, g, |s|), |s|) == g;
      PassedAll(s, Starts(names, hash, |s|), a, d, g);
    }
  }

  class Shards<N(==, !new)> {
    const names: seq<N>
    const hash: N -> nat
    /** `hidx`: slots holding -1 or a tensor's position. */
    const table: array<int>

    /** Builds the index: each tensor goes to the first free slot of its probe, in file order and
        with no look at names, so duplicates are all kept. */
    constructor (names: seq<N>, hash: N -> nat)
      ensures this.names == names && this.hash == hash && fresh(table) && Valid()
    {
      var cap := Capacity(|names|);
      var hidx := new int[cap](_ => -1);
      this.names, this.hash, this.table := names, hash, hidx;
      new;
      EmptyIndexed(names, hash, Slots(hidx[..]));
      for i := 0 to |names|
        invariant table == hidx && hidx.Length == cap && Indexed(names, hash, Slots(hidx[..]), i)
      {
        var h := FreeSlot(hidx, names, hash, i);
        ghost var before := Slots(hidx[..]);
        hidx[h] := i;
        assert Slots(hidx[..]) == before[h := Some(i)];
      }
    }

    ghost predicate Valid()
      reads table
    {
      PowerOfTwo(table.Length) && 2 * |names| <= table.Length && Indexed(names, hash, Slots(table[..]), |names|)
    }

    /** The probing lookup terminates and returns exactly what the linear scan returns: the lowest
        tensor of that name, or none. */
    method Find(name: N) returns (i: int)
      requires Valid()
      ensures i == if IndexOf(names, name) < |names| then IndexOf(names, name) else -1
    {
      hide Chained, IndexOf, BitAnd, PowerOfTwo;
      var cap := table.Length;
      ghost var s, a, d := Slots(table[..]), hash(name) % cap, 0;
      MaskIsMod(hash(name), cap);
      var h := BitAnd(hash(name), cap - 1);
      TableHasFree(names, hash, s, |names|);
      while table[h] >= 0
        invariant d < cap && h == Slot(a, d, cap)
        invariant forall e :: 0 <= e < d ==> s[Slot(a, e, cap)].Some? && names[s[Slot(a, e, cap)].value] != name
        decreases cap - d
      {
        if names[table[h]] == name {
          FoundIsFirst(names, hash, s, name, d);
          return table[h];
        }
        StepIsNext(a, d, cap);
        NotRound(s, a, d + 1);
        MaskIsStep(h, cap);
        h, d := BitAnd(h + 1, cap - 1), d + 1;
      }
      FreeMeansAbsent(names, hash, s, name, d);
      return -1;
    }
  }

  lemma TableHasFree<N(!new)>(names: seq<N>, hash: N -> nat, s: seq<Option<nat>>, n: nat)
    requires Indexed(names, hash, s, n) && n < |s|
    ensures HasFree(s)
  {
    CountFree(s);
  }

  /** The first free slot of tensor `i`'s probe. */
  method FreeSlot<N(!new)>(hidx: array<int>, names: seq<N>, hash: N -> nat, i: nat) returns (h: nat)
    requires PowerOfTwo(hidx.Length) && 2 * |names| <= hidx.Length
    requires i < |names| && Indexed(names, hash, Slots(hidx[..]), i)
    ensures h < hidx.Length && Slots(hidx[..])[h].None?
    ensures Indexed(names, hash, Slots(hidx[..])[h := Some(i)], i + 1)
  {
    hide Chained, BitAnd, PowerOfTwo;
    var cap := hidx.Length;
    ghost var s, a, d := Slots(hidx[..]), hash(names[i]) % cap, 0;
    MaskIsMod(hash(names[i]), cap);
    h := BitAnd(hash(names[i]), cap - 1);
    TableHasFree(names, hash, s, i);
    while hidx[h] >= 0
      invariant d < cap && h == Slot(a, d, cap) && Taken(s, a, d)
      decreases cap - d
    {
      StepIsNext(a, d, cap);
      NotRound(s, a, d + 1);
      MaskIsStep(h, cap);
      h, d := BitAnd(h + 1, cap - 1), d + 1;
    }
    InsertIndexed(names, hash, s, i, d);
  }
}
