/** The order of texts, by code points and by bytes. */
module TextOrder {
  import opened Bytes
  import opened Utf8
  import opened Values

  /** The byte sequences of two code points differ, inside both of them, as the code points do. */
  lemma CharDiffers(x: CodePoint, y: CodePoint) returns (j: nat)
    requires x < y
    ensures DiffersAt(PutChar(x), PutChar(y), j)
  {
    if |PutChar(x)| == |PutChar(y)| {
      j := SameLength(x, y);
    } else {
      j := 0;
      assert PutChar(x)[0] < PutChar(y)[0];
    }
  }

  lemma SameLength(x: CodePoint, y: CodePoint) returns (j: nat)
    requires x < y && |PutChar(x)| == |PutChar(y)|
    ensures DiffersAt(PutChar(x), PutChar(y), j)
  {
    DigitsDiffer(x, y);
    match |PutChar(x)|
    case 1 => j := 0;
    case 2 => j := if x / 64 < y / 64 then 0 else 1;
    case 3 => j := if x / 4096 < y / 4096 then 0 else if x / 64 % 64 < y / 64 % 64 then 1 else 2;
    case _ =>
      j := if x / 262144 < y / 262144 then 0
      else if x / 4096 % 64 < y / 4096 % 64 then 1
      else if x / 64 % 64 < y / 64 % 64 then 2 else 3;
  }

  /** The greater number has the greater digit where the two first differ. */
  lemma DigitsDiffer(x: CodePoint, y: CodePoint)
    requires x < y
    ensures x / 64 < y / 64 || (x / 64 == y / 64 && x % 64 < y % 64)
    ensures x / 4096 < y / 4096
      || (x / 4096 == y / 4096
          && (x / 64 % 64 < y / 64 % 64 || (x / 64 % 64 == y / 64 % 64 && x % 64 < y % 64)))
    ensures x / 262144 < y / 262144
      || (x / 262144 == y / 262144
          && (x / 4096 % 64 < y / 4096 % 64
              || (x / 4096 % 64 == y / 4096 % 64
                  && (x / 64 % 64 < y / 64 % 64 || (x / 64 % 64 == y / 64 % 64 && x % 64 < y % 64)))))
  {
    Quotients(x);
    Quotients(y);
    LastDigit(x, y);
    if x / 64 < y / 64 {
      LastDigit(x / 64, y / 64);
      if x / 4096 < y / 4096 { LastDigit(x / 4096, y / 4096); }
    }
  }

  lemma LastDigit(x: nat, y: nat)
    requires x < y
    ensures x / 64 < y / 64 || (x / 64 == y / 64 && x % 64 < y % 64)
  {
  }

  lemma Quotients(x: nat)
    ensures x / 4096 == x / 64 / 64 && x / 262144 == x / 4096 / 64
  {
  }

  lemma {:induction false} LessAfter(p: seq<int>, u: seq<int>, v: seq<int>)
    ensures Less(p + u, p + v) <==> Less(u, v)
  {
    if p == [] {
      assert p + u == u && p + v == v;
    } else {
      LessAfter(p[1..], u, v);
      assert (p + u)[1..] == p[1..] + u && (p + v)[1..] == p[1..] + v;
    }
  }

  lemma DiffersLess(p: seq<int>, u: seq<int>, q: seq<int>, v: seq<int>, j: nat)
    requires DiffersAt(p, q, j)
    ensures Less(p + u, q + v)
  {
    assert (p + u)[..j] == p[..j] && (q + v)[..j] == q[..j];
    assert DiffersAt(p + u, q + v, j);
    LessIs(p + u, q + v);
  }

  /** Sorting texts and sorting their bytes is the same. */
  lemma {:induction false} ByteOrder(a: Str, b: Str)
    ensures Less(a, b) <==> Less(Put(a), Put(b))
  {
    if a != [] && b != [] {
      hide PutChar;
      var x, y := a[0], b[0];
      if x == y {
        ByteOrder(a[1..], b[1..]);
        LessAfter(PutChar(x), Put(a[1..]), Put(b[1..]));
      } else if x < y {
        var j := CharDiffers(x, y);
        DiffersLess(PutChar(x), Put(a[1..]), PutChar(y), Put(b[1..]), j);
      } else {
        var j := CharDiffers(y, x);
        DiffersLess(PutChar(y), Put(b[1..]), PutChar(x), Put(a[1..]), j);
        LessTotal(Put(a), Put(b));
      }
    }
  }

  /** The first and last code points of each length, and one of each in between. */
  lemma KnownEncodings()
    ensures PutChar(0) == [0x00] && PutChar(0x41) == [0x41] && PutChar(0x7F) == [0x7F]
    ensures PutChar(0x80) == [0xC2, 0x80] && PutChar(0xE9) == [0xC3, 0xA9] && PutChar(0x7FF) == [0xDF, 0xBF]
    ensures PutChar(0x800) == [0xE0, 0xA0, 0x80] && PutChar(0x20AC) == [0xE2, 0x82, 0xAC]
    ensures PutChar(0xFFFF) == [0xEF, 0xBF, 0xBF] && PutChar(0x10000) == [0xF0, 0x90, 0x80, 0x80]
    ensures PutChar(0x1F600) == [0xF0, 0x9F, 0x98, 0x80] && PutChar(0x10FFFF) == [0xF4, 0x8F, 0xBF, 0xBF]
  {
  }
}
