/** The values of the binary protocol, and their canonical form. */
module Values {
  import opened Bytes
  import opened BigEndian
  import opened Sequences
  import opened Utf8

  const MAX_FRAME_BYTES: nat := 8 * 1024 * 1024
  const MAX_DEPTH: nat := 32
  const MAX_ITEMS: nat := 100_000

  /** The eight bytes of an IEEE double. */
  type Double = b: Bytes | |b| == 8 witness [0, 0, 0, 0, 0, 0, 0, 0]

  /** A dict is its entries in insertion order. */
  datatype Value =
    | Null | Bool(b: bool) | Int(i: int) | Float(bits: Double) | Text(s: Str) | Blob(data: Bytes)
    | List(items: seq<Value>)
    | Map(entries: seq<Entry>)

  datatype Entry = Entry(key: Str, value: Value)

  // ---------------------------------------------------------------- measures and limits

  /** How many values the reader will count: all but map keys. */
  function Nodes(v: Value): (n: nat)
    ensures n >= 1
    decreases v, 1
  {
    match v
    case List(items) => 1 + NodesItems(items)
    case Map(entries) => 1 + NodesEntries(entries)
    case _ => 1
  }

  function NodesItems(vs: seq<Value>): (n: nat)
    ensures n >= |vs|
    decreases vs, 0
  {
    if vs == [] then 0 else Nodes(vs[0]) + NodesItems(vs[1..])
  }

  function NodesEntries(es: seq<Entry>): (n: nat)
    ensures n >= |es|
    decreases es, 0
  {
    if es == [] then 0 else Nodes(es[0].value) + NodesEntries(es[1..])
  }

  predicate TextFits(s: Str) {
    Encodable(s) && |Put(s)| <= MAX_FRAME_BYTES
  }

  /** Within the protocol's limits at this nesting depth: no surrogates, 64-bit integers, and the
      bounds on sizes, container lengths and depth. */
  predicate Fits(v: Value, depth: nat)
    decreases v, 1
  {
    depth <= MAX_DEPTH &&
    match v
    case Int(i) => FitsI64(i)
    case Text(s) => TextFits(s)
    case Blob(data) => |data| <= MAX_FRAME_BYTES
    case List(items) => |items| <= MAX_ITEMS && FitsItems(items, depth + 1)
    case Map(entries) => |entries| <= MAX_ITEMS && FitsEntries(entries, depth + 1)
    case _ => true
  }

  predicate FitsItems(vs: seq<Value>, depth: nat)
    decreases vs, 0
  {
    vs == [] || (Fits(vs[0], depth) && FitsItems(vs[1..], depth))
  }

  predicate FitsEntries(es: seq<Entry>, depth: nat)
    decreases es, 0
  {
    es == [] || (TextFits(es[0].key) && Fits(es[0].value, depth) && FitsEntries(es[1..], depth))
  }

  predicate HasKey(es: seq<Entry>, k: Str) {
    exists i :: 0 <= i < |es| && es[i].key == k
  }

  /** What being a Python dict means: no key twice, at any level. */
  predicate IsDict(v: Value)
    decreases v, 1
  {
    match v
    case List(items) => AreDicts(items)
    case Map(entries) => EntriesAreDicts(entries)
    case _ => true
  }

  predicate AreDicts(vs: seq<Value>)
    decreases vs, 0
  {
    vs == [] || (IsDict(vs[0]) && AreDicts(vs[1..]))
  }

  predicate EntriesAreDicts(es: seq<Entry>)
    decreases es, 0
  {
    es == [] || (!HasKey(es[1..], es[0].key) && IsDict(es[0].value) && EntriesAreDicts(es[1..]))
  }

  // ---------------------------------------------------------------- sorting by key

  /** Python's order of strings: by code points, a proper prefix first. */
  predicate Less(a: seq<int>, b: seq<int>) {
    b != [] && (a == [] || a[0] < b[0] || (a[0] == b[0] && Less(a[1..], b[1..])))
  }

  /** The two differ first at `k`, and the first of them is the lesser there. */
  predicate DiffersAt(a: seq<int>, b: seq<int>, k: nat) {
    k < |a| && k < |b| && a[..k] == b[..k] && a[k] < b[k]
  }

  /** One comes before the other exactly if it is a proper prefix of it or is the lesser where they
      first differ. */
  lemma {:induction false} LessIs(a: seq<int>, b: seq<int>)
    ensures Less(a, b) <==> a < b || exists k :: DiffersAt(a, b, k)
  {
    if a != [] && b != [] && a[0] == b[0] {
      LessIs(a[1..], b[1..]);
      assert a == [a[0]] + a[1..] && b == [b[0]] + b[1..];
      if k: nat :| DiffersAt(a[1..], b[1..], k) { LaterDiffers(a, b, k); }
      if k: nat :| DiffersAt(a, b, k) { EarlierDiffers(a, b, k); }
      assert a < b <==> a[1..] < b[1..];
    } else if a != [] && b != [] && a[0] < b[0] {
      assert DiffersAt(a, b, 0);
    } else if a != [] && b != [] {
      NotBefore(a, b);
    }
  }

  lemma NotBefore(a: seq<int>, b: seq<int>)
    requires a != [] && b != []
    ensures a[0] > b[0] ==> forall k: nat :: !DiffersAt(a, b, k)
    ensures a[0] != b[0] ==> !(a < b)
  {
    forall k: nat | DiffersAt(a, b, k) ensures a[0] <= b[0] { FirstDiffers(a, b, k); }
  }

  lemma FirstDiffers(a: seq<int>, b: seq<int>, k: nat)
    requires DiffersAt(a, b, k)
    ensures a[0] <= b[0]
  {
    if k > 0 { assert a[..k][0] == b[..k][0]; }
  }

  lemma LaterDiffers(a: seq<int>, b: seq<int>, k: nat)
    requires a != [] && b != [] && a[0] == b[0] && DiffersAt(a[1..], b[1..], k)
    ensures DiffersAt(a, b, k + 1)
  {
    assert a[..k + 1] == [a[0]] + a[1..][..k] && b[..k + 1] == [b[0]] + b[1..][..k];
  }

  lemma EarlierDiffers(a: seq<int>, b: seq<int>, k: nat)
    requires a != [] && b != [] && a[0] == b[0] && DiffersAt(a, b, k)
    ensures k > 0 && DiffersAt(a[1..], b[1..], k - 1)
  {
    assert a[1..][..k - 1] == a[..k][1..] && b[1..][..k - 1] == b[..k][1..];
  }

  lemma {:induction false} LessTrans(a: seq<int>, b: seq<int>, c: seq<int>)
    requires Less(a, b) && Less(b, c)
    ensures Less(a, c)
  {
    if a != [] && a[0] == b[0] && b[0] == c[0] { LessTrans(a[1..], b[1..], c[1..]); }
  }

  function Insert(e: Entry, es: seq<Entry>): seq<Entry> {
    if es == [] || !Less(es[0].key, e.key) then [e] + es
    else [es[0]] + Insert(e, es[1..])
  }

  function Sort(es: seq<Entry>): seq<Entry> {
    if es == [] then [] else Insert(es[0], Sort(es[1..]))
  }

  predicate Ascending(es: seq<Entry>) {
    |es| < 2 || (Less(es[0].key, es[1].key) && Ascending(es[1..]))
  }

  /** Every map, at every level, with its entries sorted by key. */
  function Canon(v: Value): Value
    decreases v, 1
  {
    match v
    case List(items) => List(CanonItems(items))
    case Map(entries) => Map(Sort(CanonEntries(entries)))
    case _ => v
  }

  function CanonItems(vs: seq<Value>): (r: seq<Value>)
    ensures |r| == |vs|
    decreases vs, 0
  {
    if vs == [] then [] else [Canon(vs[0])] + CanonItems(vs[1..])
  }

  function CanonEntries(es: seq<Entry>): (r: seq<Entry>)
    ensures |r| == |es|
    decreases es, 0
  {
    if es == [] then [] else [Entry(es[0].key, Canon(es[0].value))] + CanonEntries(es[1..])
  }

  predicate Ordered(v: Value)
    decreases v, 1
  {
    match v
    case List(items) => AllOrdered(items)
    case Map(entries) => Ascending(entries) && EntriesOrdered(entries)
    case _ => true
  }

  predicate AllOrdered(vs: seq<Value>)
    decreases vs, 0
  {
    vs == [] || (Ordered(vs[0]) && AllOrdered(vs[1..]))
  }

  predicate EntriesOrdered(es: seq<Entry>)
    decreases es, 0
  {
    es == [] || (Ordered(es[0].value) && EntriesOrdered(es[1..]))
  }

  lemma {:induction false} LessTotal(a: seq<int>, b: seq<int>)
    ensures a == b || Less(a, b) || Less(b, a)
    ensures !(Less(a, b) && Less(b, a)) && !Less(a, a)
  {
    if a != [] && b != [] {
      LessTotal(a[1..], b[1..]);
      if a[0] == b[0] && a[1..] == b[1..] {
        assert a == [a[0]] + a[1..] && b == [b[0]] + b[1..];
      }
    }
    if a != [] { LessTotal(a[1..], a[1..]); }
  }

  lemma HasKeyCons(e: Entry, es: seq<Entry>, k: Str)
    ensures HasKey([e] + es, k) <==> e.key == k || HasKey(es, k)
  {
    var all := [e] + es;
    if e.key == k { assert all[0].key == k; }
    if i :| 0 <= i < |es| && es[i].key == k { assert all[i + 1].key == k; }
    if HasKey(all, k) && e.key != k {
      var i :| 0 <= i < |all| && all[i].key == k;
      assert es[i - 1].key == k;
    }
  }

  lemma HasKeySplit(es: seq<Entry>, k: Str)
    requires es != []
    ensures HasKey(es, k) <==> es[0].key == k || HasKey(es[1..], k)
  {
    HasKeyCons(es[0], es[1..], k);
    assert es == [es[0]] + es[1..];
  }

  /** Inserting a new key into an ascending list keeps it ascending, with all keys. */
  lemma {:induction false} InsertAscending(e: Entry, es: seq<Entry>)
    requires Ascending(es) && !HasKey(es, e.key)
    ensures Ascending(Insert(e, es))
    ensures Insert(e, es)[0] == e || (es != [] && Insert(e, es)[0] == es[0])
  {
    if es != [] {
      LessTotal(es[0].key, e.key);
      HasKeySplit(es, e.key);
      if Less(es[0].key, e.key) {
        InsertAscending(e, es[1..]);
        var tail := Insert(e, es[1..]);
        assert Insert(e, es)[1..] == tail;
      } else {
        assert ([e] + es)[1..] == es;
      }
    }
  }

  lemma {:induction false} InsertKeys(e: Entry, es: seq<Entry>, k: Str)
    ensures HasKey(Insert(e, es), k) <==> e.key == k || HasKey(es, k)
  {
    if es == [] || !Less(es[0].key, e.key) {
      HasKeyCons(e, es, k);
    } else {
      InsertKeys(e, es[1..], k);
      HasKeyCons(es[0], Insert(e, es[1..]), k);
      HasKeySplit(es, k);
    }
  }

  lemma {:induction false} SortKeys(es: seq<Entry>, k: Str)
    ensures HasKey(Sort(es), k) <==> HasKey(es, k)
  {
    if es != [] {
      SortKeys(es[1..], k);
      InsertKeys(es[0], Sort(es[1..]), k);
      HasKeySplit(es, k);
    }
  }

  lemma {:induction false} InsertContents(e: Entry, es: seq<Entry>)
    ensures multiset(Insert(e, es)) == multiset{e} + multiset(es)
  {
    if es != [] && Less(es[0].key, e.key) {
      InsertContents(e, es[1..]);
      assert es == [es[0]] + es[1..];
    }
  }

  lemma {:induction false} SortContents(es: seq<Entry>)
    ensures multiset(Sort(es)) == multiset(es)
  {
    if es != [] {
      SortContents(es[1..]);
      InsertContents(es[0], Sort(es[1..]));
      assert es == [es[0]] + es[1..];
    }
  }

  predicate DistinctKeys(es: seq<Entry>) {
    es == [] || (!HasKey(es[1..], es[0].key) && DistinctKeys(es[1..]))
  }

  lemma {:induction false} SortAscending(es: seq<Entry>)
    requires DistinctKeys(es)
    ensures Ascending(Sort(es))
  {
    if es != [] {
      SortAscending(es[1..]);
      SortKeys(es[1..], es[0].key);
      InsertAscending(es[0], Sort(es[1..]));
    }
  }

  /** In an ascending list every key comes before every later one. */
  lemma {:induction false} AscendingAll(es: seq<Entry>, i: nat, j: nat)
    requires Ascending(es) && i < j < |es|
    ensures Less(es[i].key, es[j].key)
  {
    if i > 0 {
      AscendingAll(es[1..], i - 1, j - 1);
    } else if j > 1 {
      AscendingAll(es[1..], 0, j - 1);
      LessTrans(es[0].key, es[1].key, es[j].key);
    }
  }

  /** The sorted entries, by position: each key is a proper prefix of every later one or the lesser
      where they first differ. */
  lemma SortedAt(es: seq<Entry>, i: nat, j: nat)
    requires DistinctKeys(es) && i < j < |es|
    ensures |Sort(es)| == |es|
    ensures var (a, b) := (Sort(es)[i].key, Sort(es)[j].key); a < b || exists k :: DiffersAt(a, b, k)
  {
    SortAscending(es);
    SortNodes(es);
    hide Sort, Ascending;
    AscendingAll(Sort(es), i, j);
    LessIs(Sort(es)[i].key, Sort(es)[j].key);
  }

  lemma {:induction false} SortOfAscending(es: seq<Entry>)
    requires Ascending(es)
    ensures Sort(es) == es
  {
    if es != [] {
      SortOfAscending(es[1..]);
      if |es| > 1 { LessTotal(es[0].key, es[1].key); }
      assert es == [es[0]] + es[1..];
    }
  }

  // ---------------------------------------------------------------- what sorting keeps

  lemma {:induction false} InsertFits(e: Entry, es: seq<Entry>, depth: nat)
    ensures FitsEntries(Insert(e, es), depth)
      <==> TextFits(e.key) && Fits(e.value, depth) && FitsEntries(es, depth)
  {
    if es == [] || !Less(es[0].key, e.key) {
      assert ([e] + es)[1..] == es;
    } else {
      InsertFits(e, es[1..], depth);
      assert Insert(e, es)[1..] == Insert(e, es[1..]);
    }
  }

  lemma {:induction false} SortFits(es: seq<Entry>, depth: nat)
    ensures FitsEntries(Sort(es), depth) <==> FitsEntries(es, depth)
  {
    if es != [] {
      SortFits(es[1..], depth);
      InsertFits(es[0], Sort(es[1..]), depth);
    }
  }

  lemma {:induction false} InsertNodes(e: Entry, es: seq<Entry>)
    ensures |Insert(e, es)| == |es| + 1
    ensures NodesEntries(Insert(e, es)) == Nodes(e.value) + NodesEntries(es)
  {
    if es == [] || !Less(es[0].key, e.key) {
      assert ([e] + es)[1..] == es;
    } else {
      InsertNodes(e, es[1..]);
      assert Insert(e, es)[1..] == Insert(e, es[1..]);
    }
  }

  lemma {:induction false} SortNodes(es: seq<Entry>)
    ensures |Sort(es)| == |es| && NodesEntries(Sort(es)) == NodesEntries(es)
  {
    if es != [] {
      SortNodes(es[1..]);
      InsertNodes(es[0], Sort(es[1..]));
    }
  }

  lemma {:induction false} InsertOrdered(e: Entry, es: seq<Entry>)
    requires Ordered(e.value) && EntriesOrdered(es)
    ensures EntriesOrdered(Insert(e, es))
  {
    if es == [] || !Less(es[0].key, e.key) {
      assert ([e] + es)[1..] == es;
    } else {
      InsertOrdered(e, es[1..]);
      assert Insert(e, es)[1..] == Insert(e, es[1..]);
    }
  }

  lemma {:induction false} SortOrdered(es: seq<Entry>)
    requires EntriesOrdered(es)
    ensures EntriesOrdered(Sort(es))
  {
    if es != [] {
      SortOrdered(es[1..]);
      InsertOrdered(es[0], Sort(es[1..]));
    }
  }

  lemma {:induction false} InsertDicts(e: Entry, es: seq<Entry>)
    requires IsDict(e.value) && EntriesAreDicts(es) && !HasKey(es, e.key)
    ensures EntriesAreDicts(Insert(e, es))
  {
    if es == [] || !Less(es[0].key, e.key) {
      assert ([e] + es)[1..] == es;
    } else {
      HasKeySplit(es, e.key);
      InsertDicts(e, es[1..]);
      InsertKeys(e, es[1..], es[0].key);
      assert Insert(e, es)[1..] == Insert(e, es[1..]);
    }
  }

  lemma {:induction false} SortDicts(es: seq<Entry>)
    requires EntriesAreDicts(es)
    ensures EntriesAreDicts(Sort(es)) && DistinctKeys(es)
  {
    if es != [] {
      SortDicts(es[1..]);
      SortKeys(es[1..], es[0].key);
      InsertDicts(es[0], Sort(es[1..]));
    }
  }

  // ---------------------------------------------------------------- the canonical form

  /** Canonicalising changes no limit, no count and no key, and sorts every map. */
  lemma {:induction false} CanonKeeps(v: Value, depth: nat)
    ensures Fits(Canon(v), depth) <==> Fits(v, depth)
    ensures Nodes(Canon(v)) == Nodes(v)
    ensures IsDict(v) ==> IsDict(Canon(v)) && Ordered(Canon(v))
    decreases v, 1
  {
    match v
    case List(items) => CanonItemsKeeps(items, depth + 1);
    case Map(entries) =>
      CanonEntriesKeeps(entries, depth + 1);
      SortFits(CanonEntries(entries), depth + 1);
      SortNodes(CanonEntries(entries));
      if IsDict(v) {
        SortDicts(CanonEntries(entries));
        SortAscending(CanonEntries(entries));
        SortOrdered(CanonEntries(entries));
      }
    case _ =>
  }

  lemma {:induction false} CanonItemsKeeps(vs: seq<Value>, depth: nat)
    ensures FitsItems(CanonItems(vs), depth) <==> FitsItems(vs, depth)
    ensures NodesItems(CanonItems(vs)) == NodesItems(vs)
    ensures AreDicts(vs) ==> AreDicts(CanonItems(vs)) && AllOrdered(CanonItems(vs))
    decreases vs, 0
  {
    if vs != [] {
      CanonKeeps(vs[0], depth);
      CanonItemsKeeps(vs[1..], depth);
      assert CanonItems(vs)[1..] == CanonItems(vs[1..]);
    }
  }

  lemma {:induction false} CanonEntriesKeeps(es: seq<Entry>, depth: nat)
    ensures FitsEntries(CanonEntries(es), depth) <==> FitsEntries(es, depth)
    ensures NodesEntries(CanonEntries(es)) == NodesEntries(es)
    ensures forall k :: HasKey(CanonEntries(es), k) <==> HasKey(es, k)
    ensures EntriesAreDicts(es) ==> EntriesAreDicts(CanonEntries(es)) && EntriesOrdered(CanonEntries(es))
    decreases es, 0
  {
    if es != [] {
      CanonKeeps(es[0].value, depth);
      CanonEntriesKeeps(es[1..], depth);
      var tail := CanonEntries(es[1..]);
      assert CanonEntries(es)[1..] == tail;
      forall k ensures HasKey(CanonEntries(es), k) <==> HasKey(es, k) {
        HasKeySplit(CanonEntries(es), k);
        HasKeySplit(es, k);
      }
    }
  }

  /** What is already ordered is its own canonical form. */
  lemma {:induction false} CanonOfOrdered(v: Value)
    requires Ordered(v)
    ensures Canon(v) == v
    decreases v, 1
  {
    match v
    case List(items) => CanonItemsOfOrdered(items);
    case Map(entries) =>
      CanonEntriesOfOrdered(entries);
      SortOfAscending(entries);
    case _ =>
  }

  lemma {:induction false} CanonItemsOfOrdered(vs: seq<Value>)
    requires AllOrdered(vs)
    ensures CanonItems(vs) == vs
    decreases vs, 0
  {
    if vs != [] {
      CanonOfOrdered(vs[0]);
      CanonItemsOfOrdered(vs[1..]);
      assert vs == [vs[0]] + vs[1..];
    }
  }

  lemma {:induction false} CanonEntriesOfOrdered(es: seq<Entry>)
    requires EntriesOrdered(es)
    ensures CanonEntries(es) == es
    decreases es, 0
  {
    if es != [] {
      CanonOfOrdered(es[0].value);
      CanonEntriesOfOrdered(es[1..]);
      assert es == [es[0]] + es[1..];
    }
  }

  // ---------------------------------------------------------------- Python equality

  /** Equality of Python values of the same types: dicts by their keys and values, whatever the
      insertion order. */
  predicate Same(v: Value, w: Value)
    decreases v, 1
  {
    match (v, w)
    case (List(a), List(b)) => |a| == |b| && SameItems(a, b)
    case (Map(a), Map(b)) => |a| == |b| && SameEntries(a, b)
    case (_, _) => v == w
  }

  predicate SameItems(a: seq<Value>, b: seq<Value>)
    requires |a| == |b|
    decreases a, 0
  {
    a == [] || (Same(a[0], b[0]) && SameItems(a[1..], b[1..]))
  }

  predicate SameEntries(a: seq<Entry>, b: seq<Entry>)
    decreases a, 0
  {
    a == [] || (SameUnderKey(a[0].key, a[0].value, b) && SameEntries(a[1..], b))
  }

  predicate SameUnderKey(k: Str, v: Value, b: seq<Entry>)
    decreases v, 2
  {
    exists j :: 0 <= j < |b| && b[j].key == k && Same(v, b[j].value)
  }

  /** A value equals its canonical form. */
  lemma {:induction false} SameCanon(v: Value)
    ensures Same(v, Canon(v))
    decreases v, 1
  {
    match v
    case List(items) => SameCanonItems(items);
    case Map(entries) =>
      SortNodes(CanonEntries(entries));
      SortContents(CanonEntries(entries));
      SameCanonEntries(entries, entries);
    case _ =>
  }

  lemma {:induction false} SameCanonItems(vs: seq<Value>)
    ensures SameItems(vs, CanonItems(vs))
    decreases vs, 0
  {
    if vs != [] {
      SameCanon(vs[0]);
      SameCanonItems(vs[1..]);
    }
  }

  lemma {:induction false} SameCanonEntries(es: seq<Entry>, all: seq<Entry>)
    requires |es| <= |all| && es == all[|all| - |es|..]
    requires multiset(Sort(CanonEntries(all))) == multiset(CanonEntries(all))
    ensures SameEntries(es, Sort(CanonEntries(all)))
    decreases es, 0
  {
    if es != [] {
      SameCanon(es[0].value);
      SameCanonEntries(es[1..], all);
      var b, e := Sort(CanonEntries(all)), Entry(es[0].key, Canon(es[0].value));
      CanonEntriesAt(all, |all| - |es|);
      assert e in multiset(CanonEntries(all));
      assert e in b;
      var j :| 0 <= j < |b| && b[j] == e;
      assert SameUnderKey(es[0].key, es[0].value, b);
    }
  }

  lemma {:induction false} CanonEntriesAt(es: seq<Entry>, i: nat)
    requires i < |es|
    ensures CanonEntries(es)[i] == Entry(es[i].key, Canon(es[i].value))
  {
    if i > 0 { CanonEntriesAt(es[1..], i - 1); }
  }

  lemma AscendingDistinct(es: seq<Entry>)
    requires Ascending(es)
    ensures Distinct(es)
  {
    forall i, j | 0 <= i < j < |es| ensures es[i] != es[j] {
      AscendingAll(es, i, j);
      LessTotal(es[i].key, es[j].key);
    }
  }

  /** An ascending list all of whose entries are in another of the same length begins as that does. */
  lemma SameFirst(x: seq<Entry>, y: seq<Entry>)
    requires Ascending(x) && Ascending(y) && |x| == |y| > 0 && forall e :: e in x ==> e in y
    ensures x[0] == y[0]
  {
    AscendingDistinct(x);
    AscendingDistinct(y);
    DistinctCount(x);
    DistinctCount(y);
    SubsetCount(Elements(x), Elements(y));
    assert y[0] in Elements(x) && x[0] in Elements(y);
    var i := WhereIs(x, y[0]);
    var j := WhereIs(y, x[0]);
    if i > 0 && j > 0 {
      AscendingAll(x, 0, i);
      AscendingAll(y, 0, j);
      LessTotal(x[0].key, y[0].key);
    }
  }

  /** And so it is that list. */
  lemma {:induction false} AscendingUnique(x: seq<Entry>, y: seq<Entry>)
    requires Ascending(x) && Ascending(y) && |x| == |y| && forall e :: e in x ==> e in y
    ensures x == y
  {
    if x != [] {
      SameFirst(x, y);
      AscendingDistinct(x);
      forall e | e in x[1..] ensures e in y[1..] {
        var i := WhereIs(x[1..], e);
        assert x[i + 1] == e;
        var j := WhereIs(y, e);
        assert j > 0 && y[1..][j - 1] == e;
      }
      AscendingUnique(x[1..], y[1..]);
      assert x == [x[0]] + x[1..] && y == [y[0]] + y[1..];
    }
  }

  /** Two values are equal exactly if their canonical forms are the same. */
  lemma {:induction false} SameIffCanon(v: Value, w: Value)
    requires IsDict(v) && IsDict(w)
    ensures Same(v, w) <==> Canon(v) == Canon(w)
    decreases v, 1
  {
    match (v, w)
    case (List(a), List(b)) =>
      if |a| == |b| { SameItemsIffCanon(a, b); }
    case (Map(a), Map(b)) =>
      SortNodes(CanonEntries(a));
      SortNodes(CanonEntries(b));
      if |a| == |b| {
        CanonEntriesKeeps(a, 0);
        CanonEntriesKeeps(b, 0);
        SameEntriesIffCanon(a, b);
        SortSame(CanonEntries(a), CanonEntries(b));
      }
    case (_, _) =>
  }

  lemma {:induction false} SameItemsIffCanon(a: seq<Value>, b: seq<Value>)
    requires AreDicts(a) && AreDicts(b) && |a| == |b|
    ensures SameItems(a, b) <==> CanonItems(a) == CanonItems(b)
    decreases a, 0
  {
    if a != [] {
      SameIffCanon(a[0], b[0]);
      SameItemsIffCanon(a[1..], b[1..]);
      assert CanonItems(a)[0] == Canon(a[0]) && CanonItems(a)[1..] == CanonItems(a[1..]);
      assert CanonItems(b)[0] == Canon(b[0]) && CanonItems(b)[1..] == CanonItems(b[1..]);
    }
  }

  /** Sorted, two lists of distinct keys and one length are the same exactly if every entry of the
      one is in the other. */
  lemma SortSame(a: seq<Entry>, b: seq<Entry>)
    requires EntriesAreDicts(a) && EntriesAreDicts(b) && |a| == |b|
    ensures Sort(a) == Sort(b) <==> forall e :: e in a ==> e in b
  {
    SortDicts(a);
    SortDicts(b);
    SortAscending(a);
    SortAscending(b);
    SortNodes(a);
    SortNodes(b);
    SortContents(a);
    SortContents(b);
    hide Sort, Ascending, EntriesAreDicts, DistinctKeys;
    forall e ensures (e in Sort(a) <==> e in a) && (e in Sort(b) <==> e in b) {
      assert e in Sort(a) <==> e in multiset(Sort(a));
      assert e in Sort(b) <==> e in multiset(Sort(b));
    }
    if forall e :: e in a ==> e in b { AscendingUnique(Sort(a), Sort(b)); }
  }

  lemma {:induction false} SameEntriesIffCanon(a: seq<Entry>, b: seq<Entry>)
    requires EntriesAreDicts(a) && EntriesAreDicts(b)
    ensures SameEntries(a, b) <==> forall e :: e in CanonEntries(a) ==> e in CanonEntries(b)
    decreases a, 0
  {
    if a != [] {
      SameEntriesIffCanon(a[1..], b);
      UnderKeyIffCanon(a[0], b);
      var first := Entry(a[0].key, Canon(a[0].value));
      assert CanonEntries(a) == [first] + CanonEntries(a[1..]);
      assert forall e :: e in CanonEntries(a) <==> e == first || e in CanonEntries(a[1..]);
    }
  }

  lemma {:induction false} UnderKeyIffCanon(e: Entry, b: seq<Entry>)
    requires IsDict(e.value) && EntriesAreDicts(b)
    ensures SameUnderKey(e.key, e.value, b) <==> Entry(e.key, Canon(e.value)) in CanonEntries(b)
    decreases e.value, 2
  {
    var c := Entry(e.key, Canon(e.value));
    if SameUnderKey(e.key, e.value, b) {
      var j :| 0 <= j < |b| && b[j].key == e.key && Same(e.value, b[j].value);
      ValueIsDict(b, j);
      SameIffCanon(e.value, b[j].value);
      CanonEntriesAt(b, j);
    }
    if c in CanonEntries(b) {
      var j := WhereIs(CanonEntries(b), c);
      ValueIsDict(b, j);
      CanonEntriesAt(b, j);
      SameIffCanon(e.value, b[j].value);
    }
  }

  lemma {:induction false} ValueIsDict(es: seq<Entry>, i: nat)
    requires EntriesAreDicts(es) && i < |es|
    ensures IsDict(es[i].value)
  {
    if i > 0 { ValueIsDict(es[1..], i - 1); }
  }
}
