/** The tagged binary codec: a recursive writer and a bounded cursor-based reader. */
module BinaryCodec {
  import opened Bytes
  import opened BigEndian
  import opened Utf8
  import opened Values

  datatype Failure = FrameError | NotEncodable | OutOfRange

  datatype Result<T> = Ok(value: T) | Error(failure: Failure)

  // ---------------------------------------------------------------- writing

  /** A 32-bit length field. */
  function Length(n: nat): (b: Bytes)
    requires n < U32
    ensures |b| == 4
  {
    Ranges();
    Write(n, 4)
  }

  function PackText(s: Str): Result<Bytes> {
    if !Encodable(s) then Error(NotEncodable)
    else
      var data := Put(s);
      if |data| > MAX_FRAME_BYTES then Error(FrameError) else Ok(['S' as int] + Length(|data|) + data)
  }

  function EncodeValue(v: Value, depth: nat): Result<Bytes>
    decreases Nodes(v), 1
  {
    if depth > MAX_DEPTH then Error(FrameError)
    else
      match v
      case Null => Ok(['N' as int])
      case Bool(b) => Ok([if b then 'T' as int else 'F' as int])
      case Int(i) => if FitsI64(i) then Ok(['I' as int] + WriteI64(i)) else Error(OutOfRange)
      case Float(bits) => Ok(['D' as int] + bits)
      case Text(s) => PackText(s)
      case Blob(data) =>
        if |data| > MAX_FRAME_BYTES then Error(FrameError) else Ok(['B' as int] + Length(|data|) + data)
      case List(items) =>
        if |items| > MAX_ITEMS then Error(FrameError)
        else
          (match EncodeItems(items, depth + 1)
           case Error(e) => Error(e)
           case Ok(body) => Ok(['L' as int] + Length(|items|) + body))
      case Map(entries) =>
        if |entries| > MAX_ITEMS then Error(FrameError)
        else
          SortNodes(entries);
          (match EncodeEntries(Sort(entries), depth + 1)
           case Error(e) => Error(e)
           case Ok(body) => Ok(['M' as int] + Length(|entries|) + body))
  }

  function EncodeItems(vs: seq<Value>, depth: nat): Result<Bytes>
    decreases NodesItems(vs), 2
  {
    if vs == [] then Ok([])
    else
      match EncodeValue(vs[0], depth)
      case Error(e) => Error(e)
      case Ok(first) =>
        match EncodeItems(vs[1..], depth)
        case Error(e) => Error(e)
        case Ok(rest) => Ok(first + rest)
  }

  function EncodeEntries(es: seq<Entry>, depth: nat): Result<Bytes>
    decreases NodesEntries(es), 2
  {
    if es == [] then Ok([])
    else
      match PackText(es[0].key)
      case Error(e) => Error(e)
      case Ok(key) =>
        match EncodeValue(es[0].value, depth)
        case Error(e) => Error(e)
        case Ok(value) =>
          match EncodeEntries(es[1..], depth)
          case Error(e) => Error(e)
          case Ok(rest) => Ok(key + value + rest)
  }

  // ---------------------------------------------------------------- the wire form

  /** The bytes of a value within limits, its maps written in the order they are in. */
  function Raw(v: Value): Bytes
    decreases v, 1
  {
    match v
    case Null => ['N' as int]
    case Bool(b) => [if b then 'T' as int else 'F' as int]
    case Int(i) => if FitsI64(i) then ['I' as int] + WriteI64(i) else []
    case Float(bits) => ['D' as int] + bits
    case Text(s) => RawText(s)
    case Blob(data) => if |data| < U32 then ['B' as int] + Length(|data|) + data else []
    case List(items) => if |items| < U32 then ['L' as int] + Length(|items|) + RawItems(items) else []
    case Map(entries) => if |entries| < U32 then ['M' as int] + Length(|entries|) + RawEntries(entries) else []
  }

  function RawText(s: Str): Bytes {
    if |Put(s)| < U32 then ['S' as int] + Length(|Put(s)|) + Put(s) else []
  }

  function RawItems(vs: seq<Value>): Bytes
    decreases vs, 0
  {
    if vs == [] then [] else Raw(vs[0]) + RawItems(vs[1..])
  }

  function RawEntries(es: seq<Entry>): Bytes
    decreases es, 0
  {
    if es == [] then [] else RawText(es[0].key) + Raw(es[0].value) + RawEntries(es[1..])
  }

  /** The writer succeeds exactly within the limits, and then writes the canonical form. */
  lemma {:induction false} EncodeIsRaw(v: Value, depth: nat)
    ensures EncodeValue(v, depth).Ok? <==> Fits(v, depth)
    ensures Fits(v, depth) ==> EncodeValue(v, depth) == Ok(Raw(Canon(v)))
    decreases Nodes(v), 1
  {
    hide EncodeItems, EncodeEntries, RawItems, RawEntries, CanonItems, CanonEntries, Sort, FitsItems, FitsEntries;
    hide NodesItems, NodesEntries, Put, Encodable, WriteI64, Length;
    match v
    case List(items) =>
      EncodeItemsIsRaw(items, depth + 1);
    case Map(entries) =>
      SortNodes(entries);
      SortFits(entries, depth + 1);
      EncodeEntriesIsRaw(Sort(entries), depth + 1);
      CanonOfSort(entries);
      SortNodes(CanonEntries(entries));
    case _ =>
  }

  lemma {:induction false} EncodeItemsIsRaw(vs: seq<Value>, depth: nat)
    ensures EncodeItems(vs, depth).Ok? <==> FitsItems(vs, depth)
    ensures FitsItems(vs, depth) ==> EncodeItems(vs, depth) == Ok(RawItems(CanonItems(vs)))
    decreases NodesItems(vs), 2
  {
    if vs != [] {
      EncodeIsRaw(vs[0], depth);
      EncodeItemsIsRaw(vs[1..], depth);
      assert CanonItems(vs)[1..] == CanonItems(vs[1..]);
    }
  }

  lemma {:induction false} EncodeEntriesIsRaw(es: seq<Entry>, depth: nat)
    ensures EncodeEntries(es, depth).Ok? <==> FitsEntries(es, depth)
    ensures FitsEntries(es, depth) ==> EncodeEntries(es, depth) == Ok(RawEntries(CanonEntries(es)))
    decreases NodesEntries(es), 2
  {
    if es != [] {
      EncodeIsRaw(es[0].value, depth);
      EncodeEntriesIsRaw(es[1..], depth);
      assert CanonEntries(es)[1..] == CanonEntries(es[1..]);
    }
  }

  lemma {:induction false} CanonOfInsert(e: Entry, es: seq<Entry>)
    ensures CanonEntries(Insert(e, es)) == Insert(Entry(e.key, Canon(e.value)), CanonEntries(es))
  {
    if es == [] || !Less(es[0].key, e.key) {
      assert ([e] + es)[1..] == es;
    } else {
      CanonOfInsert(e, es[1..]);
      assert Insert(e, es)[1..] == Insert(e, es[1..]);
      assert CanonEntries(es)[1..] == CanonEntries(es[1..]);
    }
  }

  /** Sorting looks at keys only, so it can come before or after canonicalising the values. */
  lemma {:induction false} CanonOfSort(es: seq<Entry>)
    ensures CanonEntries(Sort(es)) == Sort(CanonEntries(es))
  {
    if es != [] {
      CanonOfSort(es[1..]);
      CanonOfInsert(es[0], Sort(es[1..]));
      assert CanonEntries(es)[1..] == CanonEntries(es[1..]);
    }
  }

  // ---------------------------------------------------------------- reading

  /** A value read off the front, what is left, and how many more values may be read. */
  datatype Parsed<T> = Got(value: T, rest: Bytes, budget: nat) | Bad

  function ParseLength(b: Bytes): (r: Parsed<nat>)
    ensures r.Got? ==> |r.rest| == |b| - 4 && r.value < U32
  {
    Ranges();
    if |b| < 4 then Bad else Got(Read(b[..4]), b[4..], 0)
  }

  function ParseText(b: Bytes): (r: Parsed<Str>)
    ensures r.Got? ==> |r.rest| < |b|
  {
    match ParseLength(b)
    case Bad => Bad
    case Got(n, rest, _) =>
      if n > MAX_FRAME_BYTES || n > |rest| then Bad
      else
        match Get(rest[..n])
        case BadUtf8 => Bad
        case Decoded(s) => Got(s, rest[n..], 0)
  }

  function ParseValue(b: Bytes, budget: nat, depth: nat): (r: Parsed<Value>)
    ensures r.Got? ==> |r.rest| < |b|
    decreases |b|, 0
  {
    if depth > MAX_DEPTH || budget == 0 || b == [] then Bad
    else
      var tag, rest := b[0] as char, b[1..];
      if tag == 'N' then Got(Null, rest, budget - 1)
      else if tag == 'F' then Got(Bool(false), rest, budget - 1)
      else if tag == 'T' then Got(Bool(true), rest, budget - 1)
      else if tag == 'I' then if |rest| < 8 then Bad else Got(Int(ReadI64(rest[..8])), rest[8..], budget - 1)
      else if tag == 'D' then if |rest| < 8 then Bad else Got(Float(rest[..8]), rest[8..], budget - 1)
      else if tag == 'S' then
        (match ParseText(rest)
         case Bad => Bad
         case Got(s, after, _) => Got(Text(s), after, budget - 1))
      else if tag == 'B' then
        (match ParseLength(rest)
         case Bad => Bad
         case Got(n, after, _) =>
           if n > MAX_FRAME_BYTES || n > |after| then Bad else Got(Blob(after[..n]), after[n..], budget - 1))
      else if tag == 'L' then
        (match ParseLength(rest)
         case Bad => Bad
         case Got(n, after, _) =>
           if n > MAX_ITEMS then Bad
           else
             match ParseItems(after, budget - 1, depth + 1, n)
             case Bad => Bad
             case Got(items, end, left) => Got(List(items), end, left))
      else if tag == 'M' then
        (match ParseLength(rest)
         case Bad => Bad
         case Got(n, after, _) =>
           if n > MAX_ITEMS then Bad
           else
             match ParseEntries(after, budget - 1, depth + 1, n, [])
             case Bad => Bad
             case Got(entries, end, left) => Got(Map(entries), end, left))
      else Bad
  }

  function ParseItems(b: Bytes, budget: nat, depth: nat, count: nat): (r: Parsed<seq<Value>>)
    ensures r.Got? ==> |r.rest| <= |b|
    decreases |b|, 1
  {
    if count == 0 then Got([], b, budget)
    else
      match ParseValue(b, budget, depth)
      case Bad => Bad
      case Got(v, rest, left) =>
        match ParseItems(rest, left, depth, count - 1)
        case Bad => Bad
        case Got(vs, end, over) => Got([v] + vs, end, over)
  }

  /** `seen` are the entries read before. */
  function ParseEntries(b: Bytes, budget: nat, depth: nat, count: nat, seen: seq<Entry>): (r: Parsed<seq<Entry>>)
    ensures r.Got? ==> |r.rest| <= |b|
    decreases |b|, 1
  {
    if count == 0 then Got([], b, budget)
    else if b == [] || b[0] as char != 'S' then Bad
    else
      match ParseText(b[1..])
      case Bad => Bad
      case Got(k, after, _) =>
        if HasKey(seen, k) then Bad
        else
          match ParseValue(after, budget, depth)
          case Bad => Bad
          case Got(v, rest, left) =>
            match ParseEntries(rest, left, depth, count - 1, seen + [Entry(k, v)])
            case Bad => Bad
            case Got(es, end, over) => Got([Entry(k, v)] + es, end, over)
  }

  // ---------------------------------------------------------------- reading what was written

  lemma ParseLengthWritten(n: nat, rest: Bytes)
    requires n < U32
    ensures ParseLength(Length(n) + rest) == Got(n, rest, 0)
  {
    Ranges();
    ReadWrite(n, 4);
    assert (Length(n) + rest)[..4] == Length(n);
    assert (Length(n) + rest)[4..] == rest;
  }

  lemma ParseTextWritten(s: Str, rest: Bytes)
    requires TextFits(s)
    ensures RawText(s) + rest != [] && (RawText(s) + rest)[0] == 'S' as int
    ensures ParseText((RawText(s) + rest)[1..]) == Got(s, rest, 0)
  {
    hide Put, Get, Encodable;
    var data := Put(s);
    GetPut(s);
    ParseLengthWritten(|data|, data + rest);
    Tagged('S' as int, Length(|data|), data, rest);
    assert (data + rest)[..|data|] == data && (data + rest)[|data|..] == rest;
  }

  /** Tag, length field, body, and what follows. */
  lemma Tagged(tag: byte, len: Bytes, body: Bytes, rest: Bytes)
    ensures var b := [tag] + len + body + rest;
      b[0] == tag && b[1..] == len + (body + rest)
  {
  }

  lemma Untag(tag: byte, body: Bytes, rest: Bytes)
    ensures ([tag] + body + rest)[0] == tag && ([tag] + body + rest)[1..] == body + rest
  {
  }

  /** Reading the wire form gives the value back and stops just behind it; it fails only for want
      of budget, and then always. */
  /** Values that hold no others. */
  predicate IsLeaf(v: Value) {
    !v.List? && !v.Map?
  }

  lemma ParseRawLeaf(v: Value, rest: Bytes, budget: nat, depth: nat)
    requires Fits(v, depth) && IsLeaf(v)
    ensures ParseValue(Raw(v) + rest, budget, depth) ==
      if Nodes(v) <= budget then Got(v, rest, budget - Nodes(v)) else Bad
  {
    hide ParseItems, ParseEntries, ParseLength, ParseText, Length, RawItems, RawEntries, RawText, TextFits;
    hide WriteI64, ReadI64, FitsItems, FitsEntries, NodesItems, NodesEntries;
    match v
    case Null => assert (Raw(v) + rest)[1..] == rest;
    case Bool(b) => assert (Raw(v) + rest)[1..] == rest;
    case Int(i) =>
      ReadWriteI64(i);
      Untag('I' as int, WriteI64(i), rest);
      Front(WriteI64(i), rest);
    case Float(bits) =>
      Untag('D' as int, bits, rest);
      Front(bits, rest);
    case Text(s) =>
      ParseTextWritten(s, rest);
    case Blob(data) =>
      Tagged('B' as int, Length(|data|), data, rest);
      ParseLengthWritten(|data|, data + rest);
      Front(data, rest);
  }

  lemma {:induction false} ParseRaw(v: Value, rest: Bytes, budget: nat, depth: nat)
    requires Fits(v, depth) && IsDict(v)
    ensures ParseValue(Raw(v) + rest, budget, depth) ==
      if Nodes(v) <= budget then Got(v, rest, budget - Nodes(v)) else Bad
    decreases v, 1
  {
    hide ParseItems, ParseEntries, ParseLength, ParseText, Length, RawItems, RawEntries, RawText, TextFits;
    hide WriteI64, ReadI64, FitsItems, FitsEntries, NodesItems, NodesEntries, AreDicts, EntriesAreDicts;
    match v
    case List(items) =>
      Tagged('L' as int, Length(|items|), RawItems(items), rest);
      ParseLengthWritten(|items|, RawItems(items) + rest);
      if budget > 0 { ParseRawItems(items, rest, budget - 1, depth + 1); }
    case Map(entries) =>
      Tagged('M' as int, Length(|entries|), RawEntries(entries), rest);
      ParseLengthWritten(|entries|, RawEntries(entries) + rest);
      if budget > 0 { ParseRawEntries(entries, rest, budget - 1, depth + 1, []); }
    case _ => ParseRawLeaf(v, rest, budget, depth);
  }

  lemma Front(a: Bytes, rest: Bytes)
    ensures (a + rest)[..|a|] == a && (a + rest)[|a|..] == rest
  {
  }

  lemma {:induction false} ParseRawItems(vs: seq<Value>, rest: Bytes, budget: nat, depth: nat)
    requires FitsItems(vs, depth) && AreDicts(vs)
    ensures ParseItems(RawItems(vs) + rest, budget, depth, |vs|) ==
      if NodesItems(vs) <= budget then Got(vs, rest, budget - NodesItems(vs)) else Bad
    decreases vs, 0
  {
    hide ParseValue, Raw, Nodes, Fits, IsDict;
    if vs == [] {
      assert RawItems(vs) + rest == rest;
    } else {
      var tail := RawItems(vs[1..]) + rest;
      assert RawItems(vs) + rest == Raw(vs[0]) + tail;
      ParseRaw(vs[0], tail, budget, depth);
      if Nodes(vs[0]) <= budget { ParseRawItems(vs[1..], rest, budget - Nodes(vs[0]), depth); }
      assert vs == [vs[0]] + vs[1..];
    }
  }

  predicate NoneSeen(es: seq<Entry>, seen: seq<Entry>) {
    forall i :: 0 <= i < |es| ==> !HasKey(seen, es[i].key)
  }

  lemma HasKeySnoc(seen: seq<Entry>, e: Entry, k: Str)
    ensures HasKey(seen + [e], k) <==> HasKey(seen, k) || e.key == k
  {
    var grown := seen + [e];
    if i :| 0 <= i < |seen| && seen[i].key == k { assert grown[i].key == k; }
    if e.key == k { assert grown[|seen|].key == k; }
  }

  lemma NoneSeenTail(es: seq<Entry>, seen: seq<Entry>)
    requires es != [] && NoneSeen(es, seen) && !HasKey(es[1..], es[0].key)
    ensures NoneSeen(es[1..], seen + [es[0]])
  {
    forall i | 0 <= i < |es| - 1 ensures !HasKey(seen + [es[0]], es[1..][i].key) {
      assert es[1..][i] == es[i + 1];
      HasKeySnoc(seen, es[0], es[i + 1].key);
    }
  }

  lemma NoneSeenCons(e: Entry, es: seq<Entry>, seen: seq<Entry>)
    requires NoneSeen(es, seen + [e]) && !HasKey(seen, e.key)
    ensures NoneSeen([e] + es, seen) && !HasKey(es, e.key)
  {
    forall i | 0 <= i < |es| ensures !HasKey(seen, es[i].key) && es[i].key != e.key {
      HasKeySnoc(seen, e, es[i].key);
    }
  }

  lemma {:induction false} ParseRawEntries(es: seq<Entry>, rest: Bytes, budget: nat, depth: nat, seen: seq<Entry>)
    requires FitsEntries(es, depth) && EntriesAreDicts(es) && NoneSeen(es, seen)
    ensures ParseEntries(RawEntries(es) + rest, budget, depth, |es|, seen) ==
      if NodesEntries(es) <= budget then Got(es, rest, budget - NodesEntries(es)) else Bad
    decreases es, 0
  {
    hide ParseValue, ParseText, Raw, RawText, Nodes, Fits, TextFits, IsDict, HasKey;
    if es == [] {
      assert RawEntries(es) + rest == rest;
    } else {
      var e, tail := es[0], RawEntries(es[1..]) + rest;
      Regroup(RawText(e.key), Raw(e.value), RawEntries(es[1..]), rest);
      ParseTextWritten(e.key, Raw(e.value) + tail);
      ParseRaw(e.value, tail, budget, depth);
      assert Entry(e.key, e.value) == e && !HasKey(seen, e.key);
      NoneSeenTail(es, seen);
      if Nodes(e.value) <= budget {
        ParseRawEntries(es[1..], rest, budget - Nodes(e.value), depth, seen + [e]);
      }
      assert es == [e] + es[1..];
    }
  }

  lemma Regroup(a: Bytes, b: Bytes, c: Bytes, d: Bytes)
    ensures a + b + c + d == a + (b + (c + d))
  {
  }

  // ---------------------------------------------------------------- what was read was written

  lemma ReadLength(b: Bytes)
    requires ParseLength(b).Got?
    ensures b == Length(ParseLength(b).value) + ParseLength(b).rest
  {
    Ranges();
    WriteRead(b[..4]);
    assert b == b[..4] + b[4..];
  }

  lemma ReadText(b: Bytes)
    requires ParseText(b).Got?
    ensures TextFits(ParseText(b).value)
    ensures ['S' as int] + b == RawText(ParseText(b).value) + ParseText(b).rest
  {
    hide Put, Get, Encodable;
    ReadLength(b);
    var n, rest := ParseLength(b).value, ParseLength(b).rest;
    PutGet(rest[..n]);
    assert rest == rest[..n] + rest[n..];
    Tagged('S' as int, Length(n), rest[..n], rest[n..]);
  }

  /** Whatever is read successfully is, byte for byte, the wire form of what it was read as, which
      is a dict-valued value within the limits; the budget is charged one per value. */
  lemma ReadLeafIsRaw(b: Bytes, budget: nat, depth: nat)
    requires ParseValue(b, budget, depth).Got? && IsLeaf(ParseValue(b, budget, depth).value)
    ensures var r := ParseValue(b, budget, depth);
      && b == Raw(r.value) + r.rest
      && Fits(r.value, depth) && IsDict(r.value)
      && budget == r.budget + Nodes(r.value)
  {
    hide ParseItems, ParseEntries, ParseLength, ParseText, Length, RawItems, RawEntries, RawText, TextFits;
    hide WriteI64, ReadI64, FitsItems, FitsEntries, NodesItems, NodesEntries;
    var r := ParseValue(b, budget, depth);
    var rest := b[1..];
    assert b == [b[0]] + rest;
    match r.value
    case Null =>
    case Bool(x) =>
    case Int(i) =>
      WriteReadI64(rest[..8]);
      assert rest == rest[..8] + rest[8..];
    case Float(bits) =>
      assert rest == rest[..8] + rest[8..];
    case Text(s) => ReadText(rest);
    case Blob(data) =>
      ReadLength(rest);
      var n, after := ParseLength(rest).value, ParseLength(rest).rest;
      assert after == after[..n] + after[n..];
  }

  lemma {:induction false} ReadIsRaw(b: Bytes, budget: nat, depth: nat)
    requires ParseValue(b, budget, depth).Got?
    ensures var r := ParseValue(b, budget, depth);
      && b == Raw(r.value) + r.rest
      && Fits(r.value, depth) && IsDict(r.value)
      && budget == r.budget + Nodes(r.value)
    decreases |b|, 0
  {
    hide ParseItems, ParseEntries, ParseLength, ParseText, Length, RawItems, RawEntries, RawText, TextFits;
    hide WriteI64, ReadI64, FitsItems, FitsEntries, NodesItems, NodesEntries, AreDicts, EntriesAreDicts;
    var r := ParseValue(b, budget, depth);
    var rest := b[1..];
    assert b == [b[0]] + rest;
    match r.value
    case List(items) =>
      ReadLength(rest);
      ReadItems(ParseLength(rest).rest, budget - 1, depth + 1, ParseLength(rest).value);
    case Map(entries) =>
      ReadLength(rest);
      ReadEntries(ParseLength(rest).rest, budget - 1, depth + 1, ParseLength(rest).value, []);
    case _ => ReadLeafIsRaw(b, budget, depth);
  }

  lemma {:induction false} ReadItems(b: Bytes, budget: nat, depth: nat, count: nat)
    requires ParseItems(b, budget, depth, count).Got?
    ensures var r := ParseItems(b, budget, depth, count);
      && |r.value| == count && b == RawItems(r.value) + r.rest
      && FitsItems(r.value, depth) && AreDicts(r.value)
      && budget == r.budget + NodesItems(r.value)
    decreases |b|, 1
  {
    hide ParseValue, Raw, Nodes, Fits, IsDict;
    if count > 0 {
      var v := ParseValue(b, budget, depth);
      ReadIsRaw(b, budget, depth);
      ReadItems(v.rest, v.budget, depth, count - 1);
      var vs := ParseItems(v.rest, v.budget, depth, count - 1);
      assert ([v.value] + vs.value)[1..] == vs.value;
      assert Raw(v.value) + (RawItems(vs.value) + vs.rest) == Raw(v.value) + RawItems(vs.value) + vs.rest;
    }
  }

  lemma {:induction false} ReadEntries(b: Bytes, budget: nat, depth: nat, count: nat, seen: seq<Entry>)
    requires ParseEntries(b, budget, depth, count, seen).Got?
    ensures var r := ParseEntries(b, budget, depth, count, seen);
      && |r.value| == count && b == RawEntries(r.value) + r.rest
      && FitsEntries(r.value, depth) && EntriesAreDicts(r.value) && NoneSeen(r.value, seen)
      && budget == r.budget + NodesEntries(r.value)
    decreases |b|, 1
  {
    hide ParseValue, ParseText, Raw, RawText, Nodes, Fits, TextFits, IsDict, HasKey;
    if count > 0 {
      var t := ParseText(b[1..]);
      ReadText(b[1..]);
      assert b == [b[0]] + b[1..];
      var v := ParseValue(t.rest, budget, depth);
      ReadIsRaw(t.rest, budget, depth);
      var e := Entry(t.value, v.value);
      ReadEntries(v.rest, v.budget, depth, count - 1, seen + [e]);
      var es := ParseEntries(v.rest, v.budget, depth, count - 1, seen + [e]);
      assert ([e] + es.value)[1..] == es.value;
      Regroup(RawText(e.key), Raw(e.value), RawEntries(es.value), es.rest);
      NoneSeenCons(e, es.value, seen);
    }
  }

  // ---------------------------------------------------------------- the codec's laws

  /** What `decode_value` returns. */
  function DecodeValue(data: Bytes): Result<Value> {
    match ParseValue(data, MAX_ITEMS, 0)
    case Bad => Error(FrameError)
    case Got(v, rest, _) => if rest == [] then Ok(v) else Error(FrameError)
  }

  /** Round trip. An encoded value decodes to its canonical form, which Python finds equal to it,
      exactly when it has no more values in all than the reader allows; else it is refused. */
  lemma RoundTrip(v: Value)
    requires IsDict(v) && EncodeValue(v, 0).Ok?
    ensures Same(v, Canon(v))
    ensures DecodeValue(EncodeValue(v, 0).value) ==
      if Nodes(v) <= MAX_ITEMS then Ok(Canon(v)) else Error(FrameError)
  {
    EncodeIsRaw(v, 0);
    CanonKeeps(v, 0);
    SameCanon(v);
    ParseRaw(Canon(v), [], MAX_ITEMS, 0);
    assert Raw(Canon(v)) + [] == Raw(Canon(v));
  }

  /** The writer bounds each container and the reader the total, so some values are written but
      cannot be read back: a list of as many nulls as a list may hold. */
  lemma WrittenButNotReadable() returns (v: Value)
    ensures IsDict(v) && EncodeValue(v, 0).Ok?
    ensures DecodeValue(EncodeValue(v, 0).value) == Error(FrameError)
  {
    var nulls := seq(MAX_ITEMS, _ => Null);
    v := List(nulls);
    ManyNulls(nulls);
    EncodeIsRaw(v, 0);
    RoundTrip(v);
  }

  lemma {:induction false} ManyNulls(vs: seq<Value>)
    requires forall i :: 0 <= i < |vs| ==> vs[i] == Null
    ensures FitsItems(vs, 1) && AreDicts(vs)
  {
    if vs != [] { ManyNulls(vs[1..]); }
  }

  /** Bytes that decode are what the writer produces for the result exactly when every map in
      them lists its keys in ascending order. */
  lemma CanonicalIffOrdered(b: Bytes)
    requires DecodeValue(b).Ok?
    ensures var v := DecodeValue(b).value;
      && EncodeValue(v, 0).Ok?
      && (EncodeValue(v, 0) == Ok(b) <==> Ordered(v))
  {
    ReadIsRaw(b, MAX_ITEMS, 0);
    var v := DecodeValue(b).value;
    assert b == Raw(v) by { assert Raw(v) + [] == Raw(v); }
    EncodeIsRaw(v, 0);
    CanonKeeps(v, 0);
    if Ordered(v) {
      CanonOfOrdered(v);
    }
    if Raw(Canon(v)) == Raw(v) {
      ParseRaw(v, [], Nodes(v), 0);
      ParseRaw(Canon(v), [], Nodes(v), 0);
    }
  }

  /** No encoding is a proper prefix of another. */
  lemma PrefixFree(v: Value, w: Value)
    requires IsDict(v) && IsDict(w)
    requires EncodeValue(v, 0).Ok? && EncodeValue(w, 0).Ok?
    requires EncodeValue(v, 0).value <= EncodeValue(w, 0).value
    ensures EncodeValue(v, 0) == EncodeValue(w, 0) && Canon(v) == Canon(w)
  {
    hide EncodeValue, ParseValue, Raw, Canon, Fits, IsDict, Nodes, Ordered;
    EncodeIsRaw(v, 0);
    EncodeIsRaw(w, 0);
    CanonKeeps(v, 0);
    CanonKeeps(w, 0);
    var a, b := Raw(Canon(v)), Raw(Canon(w));
    var rest := b[|a|..];
    assert b == a + rest && b == b + [];
    ParseRaw(Canon(v), rest, Nodes(v) + Nodes(w), 0);
    ParseRaw(Canon(w), [], Nodes(v) + Nodes(w), 0);
  }

  // ---------------------------------------------------------------- the cursor-based reader

  function Prepend<T>(before: seq<T>, p: Parsed<seq<T>>): Parsed<seq<T>> {
    match p
    case Bad => Bad
    case Got(vs, rest, left) => Got(before + vs, rest, left)
  }

  lemma PrependUnit<T>(p: Parsed<seq<T>>, vs: seq<T>)
    ensures Prepend([], p) == p
    ensures p.Got? && p.value == [] ==> Prepend(vs, p) == Got(vs, p.rest, p.budget)
  {
    if p.Got? { assert [] + p.value == p.value && vs + [] == vs; }
  }

  class Reader {
    const data: Bytes
    var offset: nat
    var items: nat

    constructor (data: Bytes)
      ensures this.data == data && offset == 0 && items == 0
    {
      this.data := data;
      offset, items := 0, 0;
    }

    function Rest(): Bytes
      requires offset <= |data|
      reads this
    {
      data[offset..]
    }

    method Take(count: nat) returns (r: Result<Bytes>)
      requires offset <= |data|
      modifies this`offset
      ensures offset <= |data|
      ensures if count <= |old(Rest())| then r == Ok(old(Rest())[..count]) && Rest() == old(Rest())[count..]
              else r == Error(FrameError) && offset == old(offset)
    {
      if offset + count > |data| {
        return Error(FrameError);
      }
      r := Ok(data[offset..offset + count]);
      assert r.value == Rest()[..count];
      offset := offset + count;
      assert Rest() == old(Rest())[count..];
    }

    method ReadLengthField() returns (r: Result<nat>)
      requires offset <= |data|
      modifies this`offset
      ensures offset <= |data|
      ensures match ParseLength(old(Rest()))
              case Bad => r == Error(FrameError)
              case Got(n, rest, _) => r == Ok(n) && Rest() == rest
    {
      var b := Take(4);
      if b.Error? {
        return Error(FrameError);
      }
      r := Ok(Read(b.value));
    }

    /** A length-prefixed byte string within the size limit. */
    method ReadSized() returns (r: Result<Bytes>)
      requires offset <= |data|
      modifies this`offset
      ensures offset <= |data|
      ensures match ParseLength(old(Rest()))
              case Bad => r == Error(FrameError)
              case Got(n, rest, _) =>
                if n > MAX_FRAME_BYTES || n > |rest| then r == Error(FrameError)
                else r == Ok(rest[..n]) && Rest() == rest[n..]
    {
      var n := ReadLengthField();
      if n.Error? || n.value > MAX_FRAME_BYTES {
        return Error(FrameError);
      }
      r := Take(n.value);
    }

    method ReadString() returns (r: Result<Str>)
      requires offset <= |data|
      modifies this`offset
      ensures offset <= |data|
      ensures match ParseText(old(Rest()))
              case Bad => r == Error(FrameError)
              case Got(s, rest, _) => r == Ok(s) && Rest() == rest
    {
      var b := ReadSized();
      if b.Error? {
        return Error(FrameError);
      }
      match Get(b.value)
      case BadUtf8 => r := Error(FrameError);
      case Decoded(s) => r := Ok(s);
    }

    /** `value`: on any bytes it ends with the value `ParseValue` gives or an error, never past
        the end of the data. */
    method ReadValue(depth: nat) returns (r: Result<Value>)
      requires offset <= |data| && items <= MAX_ITEMS
      modifies this
      ensures offset <= |data|
      ensures Agrees(ParseValue(old(Rest()), MAX_ITEMS - old(items), depth), r)
      ensures r.Ok? ==> offset > old(offset)
      decreases |data| - offset, 0
    {
      hide ParseItems, ParseEntries, ParseLength, ParseText;
      if depth > MAX_DEPTH {
        return Error(FrameError);
      }
      items := items + 1;
      if items > MAX_ITEMS {
        return Error(FrameError);
      }
      var t := Take(1);
      if t.Error? {
        return Error(FrameError);
      }
      var tag := t.value[0] as char;
      if tag == 'N' {
        return Ok(Null);
      } else if tag == 'F' {
        return Ok(Bool(false));
      } else if tag == 'T' {
        return Ok(Bool(true));
      } else if tag == 'I' {
        var b := Take(8);
        if b.Error? { return Error(FrameError); }
        return Ok(Int(ReadI64(b.value)));
      } else if tag == 'D' {
        var b := Take(8);
        if b.Error? { return Error(FrameError); }
        return Ok(Float(b.value));
      } else if tag == 'S' {
        var s := ReadString();
        if s.Error? { return Error(FrameError); }
        return Ok(Text(s.value));
      } else if tag == 'B' {
        var b := ReadSized();
        if b.Error? { return Error(FrameError); }
        return Ok(Blob(b.value));
      } else if tag == 'L' {
        var n := ReadLengthField();
        if n.Error? || n.value > MAX_ITEMS { return Error(FrameError); }
        var vs := ReadList(n.value, depth + 1);
        if vs.Error? { return Error(FrameError); }
        return Ok(List(vs.value));
      } else if tag == 'M' {
        var n := ReadLengthField();
        if n.Error? || n.value > MAX_ITEMS { return Error(FrameError); }
        var es := ReadDict(n.value, depth + 1);
        if es.Error? { return Error(FrameError); }
        return Ok(Map(es.value));
      }
      return Error(FrameError);
    }

    /** A reader's outcome is the one parsed, and it stands where parsing stopped. */
    ghost predicate Agrees<T>(p: Parsed<T>, r: Result<T>)
      requires offset <= |data|
      reads this
    {
      match p
      case Bad => r == Error(FrameError)
      case Got(v, rest, left) => r == Ok(v) && Rest() == rest && items <= MAX_ITEMS && MAX_ITEMS - items == left
    }

    method ReadList(count: nat, depth: nat) returns (r: Result<seq<Value>>)
      requires offset <= |data| && items <= MAX_ITEMS
      modifies this
      ensures offset <= |data|
      ensures Agrees(ParseItems(old(Rest()), MAX_ITEMS - old(items), depth, count), r)
      ensures r.Ok? ==> offset >= old(offset)
      decreases |data| - offset, 1
    {
      hide ParseValue;
      var vs := [];
      PrependUnit(ParseItems(Rest(), MAX_ITEMS - items, depth, count), vs);
      for k := 0 to count
        invariant old(offset) <= offset <= |data| && items <= MAX_ITEMS
        invariant ParseItems(old(Rest()), MAX_ITEMS - old(items), depth, count) ==
          Prepend(vs, ParseItems(Rest(), MAX_ITEMS - items, depth, count - k))
      {
        ghost var b, left := Rest(), MAX_ITEMS - items;
        var v := ReadValue(depth);
        if v.Error? {
          return Error(FrameError);
        }
        ItemsStep(vs, b, left, depth, count - k);
        vs := vs + [v.value];
      }
      PrependUnit(ParseItems(Rest(), MAX_ITEMS - items, depth, 0), vs);
      return Ok(vs);
    }

    method ReadDict(count: nat, depth: nat) returns (r: Result<seq<Entry>>)
      requires offset <= |data| && items <= MAX_ITEMS
      modifies this
      ensures offset <= |data|
      ensures Agrees(ParseEntries(old(Rest()), MAX_ITEMS - old(items), depth, count, []), r)
      ensures r.Ok? ==> offset >= old(offset)
      decreases |data| - offset, 1
    {
      hide ParseValue, ParseText, HasKey;
      var es: seq<Entry> := [];
      PrependUnit(ParseEntries(Rest(), MAX_ITEMS - items, depth, count, []), es);
      for k := 0 to count
        invariant old(offset) <= offset <= |data| && items <= MAX_ITEMS
        invariant ParseEntries(old(Rest()), MAX_ITEMS - old(items), depth, count, []) ==
          Prepend(es, ParseEntries(Rest(), MAX_ITEMS - items, depth, count - k, es))
      {
        ghost var b, left := Rest(), MAX_ITEMS - items;
        var t := Take(1);
        if t.Error? || t.value[0] as char != 'S' {
          return Error(FrameError);
        }
        var key := ReadString();
        if key.Error? || HasKey(es, key.value) {
          return Error(FrameError);
        }
        var v := ReadValue(depth);
        if v.Error? {
          return Error(FrameError);
        }
        EntriesStep(es, b, left, depth, count - k);
        es := es + [Entry(key.value, v.value)];
      }
      PrependUnit(ParseEntries(Rest(), MAX_ITEMS - items, depth, 0, es), es);
      return Ok(es);
    }
  }

  lemma ItemsStep(vs: seq<Value>, b: Bytes, left: nat, depth: nat, count: nat)
    requires count > 0 && ParseValue(b, left, depth).Got?
    ensures var v := ParseValue(b, left, depth);
      Prepend(vs, ParseItems(b, left, depth, count)) ==
      Prepend(vs + [v.value], ParseItems(v.rest, v.budget, depth, count - 1))
  {
    hide ParseValue;
    var v := ParseValue(b, left, depth);
    var p := ParseItems(v.rest, v.budget, depth, count - 1);
    if p.Got? { assert vs + ([v.value] + p.value) == vs + [v.value] + p.value; }
  }

  lemma EntriesStep(es: seq<Entry>, b: Bytes, left: nat, depth: nat, count: nat)
    requires count > 0 && b != [] && b[0] as char == 'S' && ParseText(b[1..]).Got?
    requires !HasKey(es, ParseText(b[1..]).value)
    requires ParseValue(ParseText(b[1..]).rest, left, depth).Got?
    ensures var t := ParseText(b[1..]);
      var v := ParseValue(t.rest, left, depth);
      var e := Entry(t.value, v.value);
      Prepend(es, ParseEntries(b, left, depth, count, es)) ==
      Prepend(es + [e], ParseEntries(v.rest, v.budget, depth, count - 1, es + [e]))
  {
    hide ParseValue, ParseText, HasKey;
    var t := ParseText(b[1..]);
    var v := ParseValue(t.rest, left, depth);
    var e := Entry(t.value, v.value);
    var p := ParseEntries(v.rest, v.budget, depth, count - 1, es + [e]);
    if p.Got? { assert es + ([e] + p.value) == es + [e] + p.value; }
  }

  method Decode(data: Bytes) returns (r: Result<Value>)
    ensures r == DecodeValue(data)
  {
    hide ParseValue;
    var reader := new Reader(data);
    assert reader.Rest() == data;
    var v := reader.ReadValue(0);
    if v.Error? || reader.offset != |data| {
      return Error(FrameError);
    }
    return v;
  }
}
