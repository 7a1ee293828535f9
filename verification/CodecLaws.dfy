/** What the bytes on the wire are, and what they say about the values. */
module CodecLaws {
  import opened Bytes
  import opened BigEndian
  import opened Utf8
  import opened Values
  import opened BinaryCodec

  /** Two values are written alike exactly if they are equal, whatever order their maps are in. */
  lemma SameBytesIffSame(v: Value, w: Value)
    requires IsDict(v) && IsDict(w) && EncodeValue(v, 0).Ok? && EncodeValue(w, 0).Ok?
    ensures EncodeValue(v, 0) == EncodeValue(w, 0) <==> Same(v, w)
  {
    hide *;
    SameIffCanon(v, w);
    EncodeIsRaw(v, 0);
    EncodeIsRaw(w, 0);
    if EncodeValue(v, 0) == EncodeValue(w, 0) { PrefixFree(v, w); }
  }

  /** The first byte of a field weighs most. */
  lemma {:induction false} ReadFront(x: byte, rest: Bytes)
    ensures Read([x] + rest) == x * Range(|rest|) + Read(rest)
  {
    var b := [x] + rest;
    if rest == [] {
      assert b[..0] == [];
    } else {
      var n := |rest| - 1;
      ReadFront(x, rest[..n]);
      assert b[..|b| - 1] == [x] + rest[..n];
      Shifted(x, Range(n), Read(rest[..n]));
    }
  }

  lemma Shifted(x: nat, m: nat, r: nat)
    ensures (x * m + r) * 256 == x * (256 * m) + r * 256
  {
  }

  lemma {:induction false} ZeroBytes(width: nat)
    ensures Write(0, width) == seq(width, i => 0)
  {
    if width > 0 { ZeroBytes(width - 1); }
  }

  /** Small numbers fill the last byte of a field. */
  lemma LengthIs(n: byte)
    ensures Length(n) == [0, 0, 0, n]
  {
    Ranges();
    ZeroBytes(3);
    WriteStep(0, n, 3);
    hide Write, Range;
  }

  lemma SmallInt(n: byte)
    ensures WriteI64(n) == [0, 0, 0, 0, 0, 0, 0, n]
  {
    Ranges();
    ZeroBytes(7);
    WriteStep(0, n, 7);
    hide Write, Range;
  }

  /** -2 is all ones but the last bit. */
  lemma MinusTwo()
    ensures WriteI64(-2) == [255, 255, 255, 255, 255, 255, 255, 254]
  {
    Ranges();
    Ranges7();
    Ones(7);
    WriteStep(Range(7) - 1, 254, 7);
    hide Write, Range;
  }

  lemma Ranges7()
    ensures (Range(7) - 1) * 256 + 254 == U64 - 2
  {
    Ranges();
    assert Range(8) == 256 * Range(7);
  }

  lemma {:induction false} Ones(width: nat)
    ensures Write(Range(width) - 1, width) == seq(width, i => 255)
  {
    if width > 0 {
      Ones(width - 1);
      WriteStep(Range(width - 1) - 1, 255, width - 1);
    }
  }

  /** One value of each kind. */
  lemma KnownWire()
    ensures Raw(Null) == ['N' as int] && Raw(Bool(true)) == ['T' as int] && Raw(Bool(false)) == ['F' as int]
    ensures Raw(Float([63, 240, 0, 0, 0, 0, 0, 0])) == ['D' as int, 63, 240, 0, 0, 0, 0, 0, 0]
    ensures Raw(Blob([7])) == ['B' as int, 0, 0, 0, 1, 7]
  {
    hide WriteI64, Write, Length;
    LengthIs(1);
  }

  lemma KnownInts()
    ensures Raw(Int(1)) == ['I' as int, 0, 0, 0, 0, 0, 0, 0, 1]
    ensures Raw(Int(-2)) == ['I' as int, 255, 255, 255, 255, 255, 255, 255, 254]
  {
    hide WriteI64, Length;
    SmallInt(1);
    MinusTwo();
  }

  lemma KnownText()
    ensures Raw(Text([0xE9])) == ['S' as int, 0, 0, 0, 2, 0xC3, 0xA9]
    ensures Raw(Text([0x61])) == ['S' as int, 0, 0, 0, 1, 0x61]
  {
    hide Length;
    LengthIs(1);
    LengthIs(2);
    assert Put([0xE9]) == [0xC3, 0xA9] && Put([0x61]) == [0x61];
  }

  /** A list announces how many there are. */
  lemma KnownList()
    ensures Raw(List([Bool(true), Null])) == ['L' as int, 0, 0, 0, 2, 'T' as int, 'N' as int]
  {
    hide Length;
    LengthIs(2);
    assert [Bool(true), Null][1..] == [Null] && [Null][1..] == [];
    assert RawItems([Null]) == ['N' as int];
    assert RawItems([Bool(true), Null]) == ['T' as int, 'N' as int];
  }

  /** So does a map, whose keys stand before their values. */
  lemma KnownMap()
    ensures Raw(Map([Entry([0x61], Null)])) == ['M' as int, 0, 0, 0, 1, 'S' as int, 0, 0, 0, 1, 0x61, 'N' as int]
  {
    KnownText();
    hide Length, RawText;
    LengthIs(1);
    var e := Entry([0x61], Null);
    assert [e][1..] == [];
    assert RawText([0x61]) == Raw(Text([0x61]));
    assert RawEntries([e]) == RawText([0x61]) + ['N' as int];
  }

  // ---------------------------------------------------------------- limits

  /** A list in a list, `n` deep. */
  function Nested(n: nat): Value {
    if n == 0 then Null else List([Nested(n - 1)])
  }

  lemma {:induction false} NestedFits(n: nat, depth: nat)
    ensures Fits(Nested(n), depth) <==> depth + n <= MAX_DEPTH
  {
    if n > 0 {
      NestedFits(n - 1, depth + 1);
      assert FitsItems([Nested(n - 1)], depth + 1) <==> Fits(Nested(n - 1), depth + 1) && FitsItems([], depth + 1);
    }
  }

  /** The writer takes thirty-two levels and no more. */
  lemma DeepestNesting(n: nat)
    ensures EncodeValue(Nested(n), 0).Ok? <==> n <= 32
  {
    NestedFits(n, 0);
    EncodeIsRaw(Nested(n), 0);
    hide EncodeValue;
  }

  /** Eight mebibytes of text or of bytes are the most, and all 64-bit integers are allowed. */
  lemma LargestLeaves(s: Str, data: Bytes, i: int)
    ensures Fits(Text(s), 0) <==> Encodable(s) && |Put(s)| <= 8388608
    ensures Fits(Blob(data), 0) <==> |data| <= 8388608
    ensures Fits(Int(i), 0) <==> -9223372036854775808 <= i <= 9223372036854775807
  {
  }

  /** A hundred thousand entries of one list are the most the writer takes, and a hundred thousand
      values in all the most the reader does. */
  lemma LongestList(n: nat)
    ensures var v := List(seq(n, i => Null));
      (Fits(v, 0) <==> n <= 100000) && Nodes(v) == n + 1
  {
    NullsFit(n);
  }

  lemma {:induction false} NullsFit(n: nat)
    ensures FitsItems(seq(n, i => Null), 1) && NodesItems(seq(n, i => Null)) == n
  {
    if n > 0 {
      NullsFit(n - 1);
      assert seq(n, i => Null)[1..] == seq(n - 1, i => Null);
    }
  }

  /** The count of a container is one more than those of what it holds. */
  lemma NodesAdd(v: Value, vs: seq<Value>, e: Entry, es: seq<Entry>)
    ensures Nodes(List([v] + vs)) == Nodes(v) + Nodes(List(vs)) && Nodes(List([])) == 1
    ensures Nodes(Map([e] + es)) == Nodes(e.value) + Nodes(Map(es)) && Nodes(Map([])) == 1
  {
    assert ([v] + vs)[1..] == vs && ([e] + es)[1..] == es;
  }

  /** Why a value alone is refused: no UTF-8 for a surrogate, no room for an integer, or a limit. */
  lemma KnownFailures(s: Str, i: int, data: Bytes)
    ensures !Encodable(s) ==> EncodeValue(Text(s), 0) == Error(NotEncodable)
    ensures Encodable(s) && |Put(s)| > 8388608 ==> EncodeValue(Text(s), 0) == Error(FrameError)
    ensures !FitsI64(i) ==> EncodeValue(Int(i), 0) == Error(OutOfRange)
    ensures |data| > 8388608 ==> EncodeValue(Blob(data), 0) == Error(FrameError)
    ensures EncodeValue(Null, 33) == Error(FrameError)
  {
  }
}
