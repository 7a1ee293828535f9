/** UTF-8 as defined by RFC 3629, section 3. Bits are put together and taken apart with
    arithmetic: `0xC0 | (c >> 6)` is 0xC0 + c / 64, and `b & 0x3F` is b % 64. */
module Utf8 {
  import opened Bytes

  type CodePoint = c: int | 0 <= c < 0x110000

  type Str = seq<CodePoint>

  predicate Surrogate(c: CodePoint) {
    0xD800 <= c < 0xE000
  }

  /** The byte sequence of one code point, a surrogate getting one too. */
  function PutChar(c: CodePoint): (b: Bytes)
    ensures 1 <= |b| <= 4
  {
    if c < 0x80 then [c]
    else if c < 0x800 then [0xC0 + c / 64, 0x80 + c % 64]
    else if c < 0x10000 then [0xE0 + c / 4096, 0x80 + c / 64 % 64, 0x80 + c % 64]
    else [0xF0 + c / 262144, 0x80 + c / 4096 % 64, 0x80 + c / 64 % 64, 0x80 + c % 64]
  }

  predicate Continuation(b: byte) {
    0x80 <= b < 0xC0
  }

  datatype Char = Char(c: CodePoint, len: nat) | BadChar

  function Two(a: int, b: int): int {
    a * 64 + b
  }

  function Three(a: int, b: int, c: int): int {
    a * 4096 + b * 64 + c
  }

  function Four(a: int, b: int, c: int, d: int): int {
    a * 262144 + b * 4096 + c * 64 + d
  }

  /** One character at the front, refusing stray bytes, overlong forms, surrogates and values
      past 0x10FFFF. */
  function GetChar(b: Bytes): (r: Char)
    requires b != []
    ensures r.Char? ==> 1 <= r.len <= |b|
  {
    if b[0] < 0x80 then Char(b[0], 1)
    else if 0xC2 <= b[0] < 0xE0 && |b| >= 2 && Continuation(b[1]) then
      Char(Two(b[0] - 0xC0, b[1] - 0x80), 2)
    else if 0xE0 <= b[0] < 0xF0 && |b| >= 3 && Continuation(b[1]) && Continuation(b[2]) then
      var c := Three(b[0] - 0xE0, b[1] - 0x80, b[2] - 0x80);
      if c < 0x800 || 0xD800 <= c < 0xE000 then BadChar else Char(c, 3)
    else if 0xF0 <= b[0] < 0xF5 && |b| >= 4 && Continuation(b[1]) && Continuation(b[2]) && Continuation(b[3]) then
      var c := Four(b[0] - 0xF0, b[1] - 0x80, b[2] - 0x80, b[3] - 0x80);
      if c < 0x10000 || 0x110000 <= c then BadChar else Char(c, 4)
    else BadChar
  }

  lemma DigitsOfTwo(a: int, b: int)
    requires 0 <= a && 0 <= b < 64
    ensures Two(a, b) / 64 == a && Two(a, b) % 64 == b
  {
  }

  lemma DigitsOfThree(a: int, b: int, c: int)
    requires 0 <= a && 0 <= b < 64 && 0 <= c < 64
    ensures var n := Three(a, b, c);
      n / 4096 == a && n / 64 % 64 == b && n % 64 == c && n / 64 == Two(a, b)
  {
    DigitsOfTwo(a, b);
    DigitsOfTwo(Two(a, b), c);
    assert Three(a, b, c) == Two(Two(a, b), c);
  }

  lemma DigitsOfFour(a: int, b: int, c: int, d: int)
    requires 0 <= a && 0 <= b < 64 && 0 <= c < 64 && 0 <= d < 64
    ensures var n := Four(a, b, c, d);
      n / 262144 == a && n / 4096 % 64 == b && n / 64 % 64 == c && n % 64 == d
  {
    DigitsOfTwo(a, b);
    DigitsOfThree(Two(a, b), c, d);
    assert Four(a, b, c, d) == Three(Two(a, b), c, d);
  }

  lemma Digits(c: CodePoint)
    ensures c == Two(c / 64, c % 64)
    ensures c == Three(c / 4096, c / 64 % 64, c % 64)
    ensures c == Four(c / 262144, c / 4096 % 64, c / 64 % 64, c % 64)
  {
  }

  lemma GetOfPut(c: CodePoint, rest: Bytes)
    requires !Surrogate(c)
    ensures GetChar(PutChar(c) + rest) == Char(c, |PutChar(c)|)
  {
    Digits(c);
    hide Two, Three, Four;
    var p := PutChar(c);
    var b := p + rest;
    assert forall i :: 0 <= i < |p| ==> b[i] == p[i];
  }

  lemma PutOfGet(b: Bytes)
    requires b != [] && GetChar(b).Char?
    ensures !Surrogate(GetChar(b).c) && b[..GetChar(b).len] == PutChar(GetChar(b).c)
  {
    hide Two, Three, Four;
    if b[0] >= 0x80 {
      match GetChar(b).len
      case 2 => DigitsOfTwo(b[0] - 0xC0, b[1] - 0x80);
      case 3 => DigitsOfThree(b[0] - 0xE0, b[1] - 0x80, b[2] - 0x80);
      case _ => DigitsOfFour(b[0] - 0xF0, b[1] - 0x80, b[2] - 0x80, b[3] - 0x80);
    }
  }

  /** The bytes of a text. */
  function Put(s: Str): Bytes {
    if s == [] then [] else PutChar(s[0]) + Put(s[1..])
  }

  predicate Encodable(s: Str) {
    forall i :: 0 <= i < |s| ==> !Surrogate(s[i])
  }

  datatype Decoded = Decoded(s: Str) | BadUtf8

  /** Strict decoding of a whole byte string. */
  function Get(b: Bytes): Decoded {
    if b == [] then Decoded([])
    else
      match GetChar(b)
      case BadChar => BadUtf8
      case Char(c, n) =>
        match Get(b[n..])
        case BadUtf8 => BadUtf8
        case Decoded(s) => Decoded([c] + s)
  }

  lemma GetFront(c: CodePoint, rest: Bytes)
    requires !Surrogate(c)
    ensures Get(PutChar(c) + rest) == if Get(rest).Decoded? then Decoded([c] + Get(rest).s) else BadUtf8
  {
    hide GetChar, PutChar, Surrogate;
    GetOfPut(c, rest);
    assert (PutChar(c) + rest)[|PutChar(c)|..] == rest;
  }

  /** Decoding undoes encoding. */
  lemma {:induction false} GetPut(s: Str)
    requires Encodable(s)
    ensures Get(Put(s)) == Decoded(s)
  {
    hide GetChar, PutChar, Surrogate;
    if s != [] {
      GetPut(s[1..]);
      GetFront(s[0], Put(s[1..]));
      assert [s[0]] + s[1..] == s;
    }
  }

  lemma PutCons(c: CodePoint, s: Str)
    ensures Put([c] + s) == PutChar(c) + Put(s)
  {
    assert ([c] + s)[1..] == s;
  }

  lemma GetStep(b: Bytes)
    requires b != [] && Get(b).Decoded?
    ensures GetChar(b).Char? && Get(b[GetChar(b).len..]).Decoded?
    ensures Get(b).s == [GetChar(b).c] + Get(b[GetChar(b).len..]).s
  {
  }

  lemma EncodableCons(c: CodePoint, s: Str)
    requires !Surrogate(c) && Encodable(s)
    ensures Encodable([c] + s)
  {
  }

  /** Whatever decodes is the encoding of what it decodes to. */
  lemma {:induction false} PutGet(b: Bytes)
    requires Get(b).Decoded?
    ensures Encodable(Get(b).s) && Put(Get(b).s) == b
  {
    if b != [] {
      GetStep(b);
      PutGet(b[GetChar(b).len..]);
      PutGetStep(b);
    }
  }

  lemma PutGetStep(b: Bytes)
    requires b != [] && Get(b).Decoded? && GetChar(b).Char? && GetChar(b).len <= |b|
    requires var rest := Get(b[GetChar(b).len..]);
      rest.Decoded? && Encodable(rest.s) && Put(rest.s) == b[GetChar(b).len..]
    ensures Encodable(Get(b).s) && Put(Get(b).s) == b
  {
    hide *;
    PutOfGet(b);
    GetStep(b);
    var c, n := GetChar(b).c, GetChar(b).len;
    PutCons(c, Get(b[n..]).s);
    EncodableCons(c, Get(b[n..]).s);
    assert b == b[..n] + b[n..];
  }
}
