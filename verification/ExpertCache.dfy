/** The Python expert cache over an OrderedDict, and the streaming loop that uses it. */
module ExpertCache {
  import opened Bytes
  import opened RecencyLru
  import opened Sequences

  datatype Fetched = Value(data: Bytes) | LoadError

  /** Where expert bytes come from: `available` says whether reading an expert succeeds. */
  datatype Disk<!K> = Disk(read: K -> Bytes, available: K -> bool)

  class ExpertCache<K(==)> {
    const capacity: nat
    /** The OrderedDict, oldest insertion first. */
    var items: seq<Entry<K, Bytes>>
    var hits: nat
    var misses: nat
    var evictions: nat

    ghost predicate Valid(disk: Disk<K>)
      reads this
    {
      && 1 <= capacity && |items| <= capacity
      && Distinct(Keys(items))
      && Loaded(items, disk.read)
      && evictions + |items| <= misses
    }

    constructor (capacity: nat)
      requires capacity > 0
      ensures this.capacity == capacity && items == []
      ensures hits == misses == evictions == 0
      ensures forall disk: Disk<K> :: Valid(disk)
    {
      this.capacity := capacity;
      items := [];
      hits, misses, evictions := 0, 0, 0;
    }

    /** A cached expert is a hit and is not read again; a failed read counts as a miss and
        leaves the cache as it was. Every other call is one `Access`, and an eviction happens
        exactly when a miss finds the cache full. */
    method GetOrLoad(k: K, disk: Disk<K>) returns (r: Fetched)
      requires Valid(disk)
      modifies this
      ensures Valid(disk)
      ensures k in Keys(old(items)) ==>
        && r == Value(disk.read(k)) && hits == old(hits) + 1
        && misses == old(misses) && evictions == old(evictions)
      ensures k !in Keys(old(items)) ==>
        && hits == old(hits) && misses == old(misses) + 1
        && r == (if disk.available(k) then Value(disk.read(k)) else LoadError)
        && evictions == old(evictions) +
             if disk.available(k) && |old(items)| == capacity then 1 else 0
      ensures items == if r.Value? then Access(old(items), capacity, k, disk.read(k)) else old(items)
    {
      var i := IndexOf(Keys(items), k);
      AccessDistinct(items, capacity, k, disk.read(k));
      AccessLoads(items, capacity, k, disk.read);
      if i < |items| {
        hits := hits + 1;
        var value := items[i];
        items := RemoveAt(items, i);
        items := items + [value];
        return Value(value.value);
      }
      misses := misses + 1;
      if !disk.available(k) {
        return LoadError;
      }
      items := items + [Entry(k, disk.read(k))];
      if |items| > capacity {
        items := items[1..];
        evictions := evictions + 1;
      }
      return Value(disk.read(k));
    }
  }

  lemma AccessDistinct<K, V>(items: seq<Entry<K, V>>, cap: nat, k: K, v: V)
    requires cap >= 1 && |items| <= cap && Distinct(Keys(items))
    ensures Distinct(Keys(Access(items, cap, k, v))) && |Access(items, cap, k, v)| <= cap
  {
    AccessKeys(items, cap, k, v);
    BumpDistinct(Keys(items), k);
    RestDistinct(Bump(Keys(items), k));
    hide Distinct, Bump;
  }

  lemma BumpDistinct<K>(ks: seq<K>, k: K)
    requires Distinct(ks)
    ensures Distinct(Bump(ks, k))
  {
    var p := IndexOf(ks, k);
    forall i | 0 <= i < |ks| && i != p ensures ks[i] != k {
      if p == |ks| { assert ks[i] in ks; }
    }
  }

  lemma RestDistinct<K>(ks: seq<K>)
    requires Distinct(ks) && ks != []
    ensures Distinct(ks[1..])
  {
  }

  // ---------------------------------------------------------------- streaming

  datatype Status = Completed | Cancelled | UnknownExpert | ReadFailed

  datatype StreamRun = StreamRun(output: seq<Bytes>, tokens: nat, bytesRead: nat, status: Status)

  /** Whether one routed expert goes through, and otherwise why not. */
  predicate Passes<K(==)>(disk: Disk<K>, known: set<K>, cancelled: nat -> bool, items: seq<Entry<K, Bytes>>,
                      k: K, step: nat)
  {
    !cancelled(step) && k in known && (k in Keys(items) || disk.available(k))
  }

  /** Why an expert does not go through: the cancellation is asked about first, then whether the
      expert is known, and only then is it read. */
  predicate Ends<K(==)>(disk: Disk<K>, known: set<K>, cancelled: nat -> bool, items: seq<Entry<K, Bytes>>,
                        k: K, step: nat, status: Status)
  {
    match status
    case Cancelled => cancelled(step)
    case UnknownExpert => !cancelled(step) && k !in known
    case ReadFailed => !cancelled(step) && k in known && k !in Keys(items) && !disk.available(k)
    case Completed => false
  }

  /** It goes through exactly if nothing ends the run. */
  lemma PassesIff<K>(disk: Disk<K>, known: set<K>, cancelled: nat -> bool, items: seq<Entry<K, Bytes>>, k: K, step: nat)
    ensures Passes(disk, known, cancelled, items, k, step) <==>
      forall status :: !Ends(disk, known, cancelled, items, k, step, status)
  {
    assert Ends(disk, known, cancelled, items, k, step, Cancelled) <==> cancelled(step);
    assert Ends(disk, known, cancelled, items, k, step, UnknownExpert) <==> !cancelled(step) && k !in known;
    assert Ends(disk, known, cancelled, items, k, step, ReadFailed) <==>
      !cancelled(step) && k in known && k !in Keys(items) && !disk.available(k);
  }

  predicate AllPass<K(==)>(disk: Disk<K>, known: set<K>, cancelled: nat -> bool, items: seq<Entry<K, Bytes>>,
                           cap: nat, trace: seq<K>)
  {
    trace == [] ||
    var prefix, k := trace[..|trace| - 1], trace[|trace| - 1];
    && AllPass(disk, known, cancelled, items, cap, prefix)
    && Passes(disk, known, cancelled, AccessAll(items, cap, disk.read, prefix), k, |prefix|)
  }

  /** The bytes read from disk along a trace: those of its misses only. */
  function MissBytes<K(==)>(items: seq<Entry<K, Bytes>>, cap: nat, read: K -> Bytes, trace: seq<K>): nat {
    if trace == [] then 0
    else
      var prefix, k := trace[..|trace| - 1], trace[|trace| - 1];
      MissBytes(items, cap, read, prefix)
      + if k in Keys(AccessAll(items, cap, read, prefix)) then 0 else |read(k)|
  }

  function Reads<K>(disk: Disk<K>, ks: seq<K>): seq<Bytes> {
    if ks == [] then [] else Reads(disk, ks[..|ks| - 1]) + [disk.read(ks[|ks| - 1])]
  }

  /** One expert more. */
  lemma NextStreamed<K>(disk: Disk<K>, known: set<K>, cancelled: nat -> bool, items0: seq<Entry<K, Bytes>>, cap: nat,
                        routing: seq<K>, i: nat)
    requires i < |routing|
    ensures var now, k := AccessAll(items0, cap, disk.read, routing[..i]), routing[i];
      && AccessAll(items0, cap, disk.read, routing[..i + 1]) == Access(now, cap, k, disk.read(k))
      && MissBytes(items0, cap, disk.read, routing[..i + 1]) ==
         MissBytes(items0, cap, disk.read, routing[..i]) + (if k in Keys(now) then 0 else |disk.read(k)|)
      && HitCount(items0, cap, disk.read, routing[..i + 1]) ==
         HitCount(items0, cap, disk.read, routing[..i]) + (if k in Keys(now) then 1 else 0)
      && Reads(disk, routing[..i + 1]) == Reads(disk, routing[..i]) + [disk.read(k)]
      && (AllPass(disk, known, cancelled, items0, cap, routing[..i]) && Passes(disk, known, cancelled, now, k, i) ==>
            AllPass(disk, known, cancelled, items0, cap, routing[..i + 1]))
  {
    assert routing[..i + 1][..i] == routing[..i];
    hide Access, Keys, Passes;
  }

  lemma NoneStreamed<K>(disk: Disk<K>, known: set<K>, cancelled: nat -> bool, items0: seq<Entry<K, Bytes>>, cap: nat)
    ensures AccessAll(items0, cap, disk.read, []) == items0 && MissBytes(items0, cap, disk.read, []) == 0
    ensures HitCount(items0, cap, disk.read, []) == 0 && Reads(disk, []) == []
    ensures AllPass(disk, known, cancelled, items0, cap, [])
  {
  }

  /** Streams experts in routing order. It stops at the first one that does not go through, with
      the cache, the counters and the bytes read those of the experts before it; the output is
      handed over only when all went through. */
  method Stream<K(==)>(cache: ExpertCache<K>, disk: Disk<K>, known: set<K>, cancelled: nat -> bool, routing: seq<K>)
    returns (run: StreamRun)
    requires cache.Valid(disk)
    modifies cache
    ensures cache.Valid(disk)
    ensures run.tokens <= |routing|
    ensures var done := routing[..run.tokens];
      && cache.items == AccessAll(old(cache.items), cache.capacity, disk.read, done)
      && run.bytesRead == MissBytes(old(cache.items), cache.capacity, disk.read, done)
      && cache.hits == old(cache.hits) + HitCount(old(cache.items), cache.capacity, disk.read, done)
      && cache.hits + cache.misses == old(cache.hits + cache.misses) + run.tokens
           + if run.status.ReadFailed? then 1 else 0
    ensures AllPass(disk, known, cancelled, old(cache.items), cache.capacity, routing[..run.tokens])
    ensures run.status.Completed? <==> run.tokens == |routing|
    ensures run.tokens < |routing| ==>
      Ends(disk, known, cancelled, cache.items, routing[run.tokens], run.tokens, run.status)
    ensures run.output == if run.status.Completed? then Reads(disk, routing) else []
  {
    var outputs, tokens, bytesRead := [], 0, 0;
    ghost var items0, cap := cache.items, cache.capacity;
    hide AccessAll, Access, MissBytes, HitCount, Reads, AllPass, ExpertCache.Valid, Keys;
    NoneStreamed(disk, known, cancelled, items0, cap);
    assert routing[..0] == [];
    for i := 0 to |routing|
      invariant cache.Valid(disk)
      invariant tokens == i && outputs == Reads(disk, routing[..i])
      invariant cache.items == AccessAll(items0, cap, disk.read, routing[..i])
      invariant bytesRead == MissBytes(items0, cap, disk.read, routing[..i])
      invariant cache.hits == old(cache.hits) + HitCount(items0, cap, disk.read, routing[..i])
      invariant cache.hits + cache.misses == old(cache.hits + cache.misses) + i
      invariant AllPass(disk, known, cancelled, items0, cap, routing[..i])
    {
      var k := routing[i];
      NextStreamed(disk, known, cancelled, items0, cap, routing, i);
      if cancelled(i) {
        return StreamRun([], tokens, bytesRead, Cancelled);
      }
      if k !in known {
        return StreamRun([], tokens, bytesRead, UnknownExpert);
      }
      var wasMiss := k !in Keys(cache.items);
      var data := cache.GetOrLoad(k, disk);
      if data.LoadError? {
        return StreamRun([], tokens, bytesRead, ReadFailed);
      }
      if wasMiss {
        bytesRead := bytesRead + |data.data|;
      }
      outputs := outputs + [data.data];
      tokens := tokens + 1;
    }
    assert routing[..|routing|] == routing;
    return StreamRun(outputs, tokens, bytesRead, Completed);
  }
}
