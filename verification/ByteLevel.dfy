/** The byte-level alphabet: every byte is spelled by a printable character, and a vocabulary
    string is a spelling in UTF-8. */
module ByteLevel {
  import opened Bytes
  import opened Utf8

  /** The bytes that stand for themselves. */
  predicate Direct(b: nat) {
    33 <= b <= 126 || 161 <= b <= 172 || 174 <= b <= 255
  }

  /** How many bytes below `b` do not. */
  function Rank(b: nat): (r: nat)
    ensures r <= b
  {
    if b == 0 then 0 else Rank(b - 1) + if Direct(b - 1) then 0 else 1
  }

  /** The character for a byte: itself, or the next unused one from 256 on. */
  function Cp(b: byte): (c: CodePoint)
    ensures 0 < c < 512
  {
    if Direct(b) then b else 256 + Rank(b)
  }

  lemma RankZero()
    ensures Rank(0) == 0
  {
  }

  lemma {:induction false} RankGrows(a: nat, b: nat)
    requires a < b && !Direct(a)
    ensures Rank(a) < Rank(b)
  {
    if a < b - 1 { RankGrows(a, b - 1); }
  }

  lemma CpInjective(a: byte, b: byte)
    requires Cp(a) == Cp(b)
    ensures a == b
  {
    if !Direct(a) && !Direct(b) {
      if a < b { RankGrows(a, b); } else if b < a { RankGrows(b, a); }
    }
  }

  /** The byte below `n` spelled by a character, or -1. */
  function ByteBelow(c: nat, n: nat): (b: int)
    requires n <= 256
    ensures b == -1 || (0 <= b < n && Cp(b) == c)
  {
    if n == 0 then -1 else if Cp(n - 1) == c then n - 1 else ByteBelow(c, n - 1)
  }

  function ByteOf(c: nat): (b: int)
    ensures b == -1 || (0 <= b < 256 && Cp(b) == c)
  {
    ByteBelow(c, 256)
  }

  lemma {:induction false} ByteBelowOfCp(b: byte, n: nat)
    requires n <= 256
    ensures ByteBelow(Cp(b), n) == if b < n then b else -1
  {
    if n > 0 {
      ByteBelowOfCp(b, n - 1);
      if Cp(n - 1) == Cp(b) { CpInjective(n - 1, b); }
    }
  }

  function Glyph(b: byte): (g: Bytes)
    ensures 1 <= |g| <= 2 && 0 !in g
  {
    PutChar(Cp(b))
  }

  /** The tables the tokenizer builds once. */
  method BuildByteMap(byte2cp: array<nat>, byte2str: array<Bytes>, cp2byte: array<int>)
    requires byte2cp.Length == byte2str.Length == 256 && cp2byte.Length == 1024
    modifies byte2cp, byte2str, cp2byte
    ensures forall b: byte :: byte2cp[b] == Cp(b) && byte2str[b] == Glyph(b)
    ensures forall c :: 0 <= c < 1024 ==> cp2byte[c] == ByteOf(c)
  {
    hide PutChar, Direct, Cp, Rank;
    for i := 0 to 1024
      invariant forall c :: 0 <= c < i ==> cp2byte[c] == -1
    {
      cp2byte[i] := -1;
    }
    var isDirect := DirectTable();
    var n := 0;
    assert Rank(0) == 0 by { RankZero(); }
    for b := 0 to 256
      invariant forall x: byte :: isDirect[x] == Direct(x)
      invariant n == Rank(b)
      invariant forall x: byte :: x < b ==> byte2cp[x] == Cp(x) && byte2str[x] == Glyph(x)
      invariant forall c :: 0 <= c < 1024 ==> cp2byte[c] == ByteBelow(c, b)
    {
      var cp;
      cp, n := NextCp(b, isDirect[b], n);
      byte2cp[b] := cp;
      byte2str[b] := PutChar(cp);
      if cp < 1024 {
        cp2byte[cp] := b;
      }
    }
  }

  method NextCp(b: byte, direct: bool, n: nat) returns (cp: CodePoint, n': nat)
    requires direct == Direct(b) && n == Rank(b)
    ensures cp == Cp(b) && n' == Rank(b + 1)
  {
    cp := if direct then b else 256 + n;
    n' := if direct then n else n + 1;
  }

  method DirectTable() returns (isDirect: array<bool>)
    ensures fresh(isDirect) && isDirect.Length == 256
    ensures forall b: byte :: isDirect[b] == Direct(b)
  {
    isDirect := new bool[256](_ => false);
    for b := 33 to 127
      invariant forall x: byte :: isDirect[x] == (33 <= x < b)
    {
      isDirect[b] := true;
    }
    for b := 161 to 173
      invariant forall x: byte :: isDirect[x] == (33 <= x <= 126 || 161 <= x < b)
    {
      isDirect[b] := true;
    }
    for b := 174 to 256
      invariant forall x: byte :: isDirect[x] == (33 <= x <= 126 || 161 <= x <= 172 || 174 <= x < b)
    {
      isDirect[b] := true;
    }
  }

  // ---------------------------------------------------------------- the lenient decoder

  /** One character at the front, with no check of continuation bytes; a byte that fits no form
      stands for itself. */
  function U8Next(s: Bytes): (r: (nat, nat))
    requires s != []
    ensures 1 <= r.1 <= |s|
  {
    var c: int := s[0];
    if c < 0x80 then (c, 1)
    else if c / 32 == 0x6 && |s| > 1 then (Two(c % 32, s[1] % 64), 2)
    else if c / 16 == 0xE && |s| > 2 then (Three(c % 16, s[1] % 64, s[2] % 64), 3)
    else if c / 8 == 0x1E && |s| > 3 then (Four(c % 8, s[1] % 64, s[2] % 64, s[3] % 64), 4)
    else (c, 1)
  }

  lemma PairDigits(c: nat)
    requires 0x80 <= c < 0x800
    ensures (0xC0 + c / 64) / 32 == 6 && (0xC0 + c / 64) % 32 == c / 64
    ensures (0x80 + c % 64) % 64 == c % 64 && Two(c / 64, c % 64) == c
  {
  }

  lemma U8NextOfGlyph(b: byte, rest: Bytes)
    ensures U8Next(Glyph(b) + rest) == (Cp(b), |Glyph(b)|)
  {
    var c, s := Cp(b), Glyph(b) + rest;
    hide Cp, Two;
    assert s[0] == Glyph(b)[0];
    if c >= 0x80 {
      assert s[1] == Glyph(b)[1];
      PairDigits(c);
    }
  }

  /** It reads back every character that UTF-8 can write, surrogates included, whatever follows. */
  lemma U8NextOfChar(c: CodePoint, rest: Bytes)
    ensures U8Next(PutChar(c) + rest) == (c, |PutChar(c)|)
  {
    Digits(c);
    var p, s := PutChar(c), PutChar(c) + rest;
    assert forall i :: 0 <= i < |p| ==> s[i] == p[i];
    if c < 0x80 {
    } else if c < 0x800 {
      LeadOfTwo(c);
    } else if c < 0x10000 {
      LeadOfThree(c);
    } else {
      LeadOfFour(c);
    }
  }

  lemma LeadOfTwo(c: CodePoint)
    requires 0x80 <= c < 0x800
    ensures (0xC0 + c / 64) / 32 == 6 && (0xC0 + c / 64) % 32 == c / 64 && (0x80 + c % 64) % 64 == c % 64
  {
  }

  lemma LeadOfThree(c: CodePoint)
    requires 0x800 <= c < 0x10000
    ensures (0xE0 + c / 4096) / 32 == 7 && (0xE0 + c / 4096) / 16 == 14 && (0xE0 + c / 4096) % 16 == c / 4096
    ensures (0x80 + c / 64 % 64) % 64 == c / 64 % 64 && (0x80 + c % 64) % 64 == c % 64
  {
  }

  lemma LeadOfFour(c: CodePoint)
    requires 0x10000 <= c < 0x110000
    ensures var b := 0xF0 + c / 262144; b / 32 == 7 && b / 16 == 15 && b / 8 == 30 && b % 8 == c / 262144
    ensures (0x80 + c / 4096 % 64) % 64 == c / 4096 % 64
    ensures (0x80 + c / 64 % 64) % 64 == c / 64 % 64 && (0x80 + c % 64) % 64 == c % 64
  {
  }

  /** A stray continuation byte, an impossible lead byte, or a character cut short is one byte that
      stands for itself. */
  lemma U8NextOfBad(s: Bytes)
    requires s != []
    requires || 0x80 <= s[0] < 0xC0 || s[0] >= 0xF8
             || (s[0] >= 0xC0 && |s| < 2) || (s[0] >= 0xE0 && |s| < 3) || (s[0] >= 0xF0 && |s| < 4)
    ensures U8Next(s) == (s[0], 1)
  {
  }

  /** The characters of the alphabet: printable bytes stand for themselves, the others for those from
      256 on, in order. */
  lemma AlphabetIs(b: byte)
    ensures 33 <= b <= 126 || 161 <= b <= 172 || 174 <= b ==> Cp(b) == b
    ensures b <= 32 ==> Cp(b) == 256 + b
    ensures 127 <= b <= 160 ==> Cp(b) == 289 + (b - 127)
    ensures b == 173 ==> Cp(b) == 323
  {
    RankIs(b);
  }

  lemma {:induction false} RankIs(b: nat)
    requires b <= 256
    ensures Rank(b) ==
      if b <= 33 then b else if b <= 127 then 33 else if b <= 161 then b - 94 else if b <= 173 then 67 else 68
  {
    if b > 0 { RankIs(b - 1); }
  }

  /** The spelling of a byte string. */
  function Spell(p: Bytes): Bytes {
    if p == [] then [] else Glyph(p[0]) + Spell(p[1..])
  }

  /** The decoder's inner loop: the bytes a string spells, characters that spell none dropped. */
  function Unspell(s: Bytes): Bytes {
    if s == [] then []
    else
      var (c, k) := U8Next(s);
      (if c < 1024 && ByteOf(c) >= 0 then [ByteOf(c) as byte] else []) + Unspell(s[k..])
  }

  /** The starting symbols of a string: its characters, one by one. */
  function Split(s: Bytes): seq<Bytes> {
    if s == [] then [] else [s[..U8Next(s).1]] + Split(s[U8Next(s).1..])
  }

  function Glyphs(p: Bytes): (g: seq<Bytes>)
    ensures |g| == |p|
  {
    if p == [] then [] else [Glyph(p[0])] + Glyphs(p[1..])
  }

  lemma FrontOf(a: Bytes, b: Bytes)
    ensures (a + b)[..|a|] == a && (a + b)[|a|..] == b
  {
  }

  /** Each character gives its byte, or nothing if it is not in the alphabet. */
  lemma UnspellChar(c: CodePoint, rest: Bytes)
    ensures Unspell([]) == []
    ensures (forall b: byte :: Cp(b) != c) ==> Unspell(PutChar(c) + rest) == Unspell(rest)
    ensures forall b: byte :: Cp(b) == c ==> Unspell(PutChar(c) + rest) == [b] + Unspell(rest)
  {
    U8NextOfChar(c, rest);
    FrontOf(PutChar(c), rest);
    hide U8Next, PutChar, Cp;
    forall b: byte | Cp(b) == c ensures ByteOf(c) == b && c < 1024 {
      ByteOfCp(b);
    }
    assert [] + Unspell(rest) == Unspell(rest);
  }

  /** The starting symbols are the characters one by one. */
  lemma SplitChar(c: CodePoint, rest: Bytes)
    ensures Split([]) == [] && Split(PutChar(c) + rest) == [PutChar(c)] + Split(rest)
  {
    U8NextOfChar(c, rest);
    FrontOf(PutChar(c), rest);
    hide U8Next, PutChar;
  }

  /** A string that begins with a spelling decodes to what is spelled, and then the rest. */
  lemma {:induction false} UnspellSpelled(p: Bytes, rest: Bytes)
    ensures Unspell(Spell(p) + rest) == p + Unspell(rest)
  {
    hide U8Next, Glyph, ByteOf, Unspell;
    if p == [] {
      assert Spell(p) + rest == rest;
    } else {
      var tail := Spell(p[1..]) + rest;
      assert Spell(p) + rest == Glyph(p[0]) + tail;
      UnspellGlyph(p[0], tail);
      UnspellSpelled(p[1..], rest);
      FirstAndRest(p, Unspell(rest));
    }
  }

  lemma FirstAndRest(p: Bytes, rest: Bytes)
    requires p != []
    ensures [p[0]] + (p[1..] + rest) == p + rest
  {
  }

  lemma UnspellGlyph(b: byte, tail: Bytes)
    ensures Unspell(Glyph(b) + tail) == [b] + Unspell(tail)
  {
    hide U8Next, Glyph, ByteOf;
    U8NextOfGlyph(b, tail);
    FrontOf(Glyph(b), tail);
    ByteOfCp(b);
  }

  lemma ByteOfCp(b: byte)
    ensures ByteOf(Cp(b)) == b
  {
    ByteBelowOfCp(b, 256);
  }

  /** Splitting a spelling gives back the bytes' glyphs. */
  lemma {:induction false} SplitSpelled(p: Bytes)
    ensures Split(Spell(p)) == Glyphs(p)
  {
    if p != [] {
      hide U8Next, Glyph;
      U8NextOfGlyph(p[0], Spell(p[1..]));
      FrontOf(Glyph(p[0]), Spell(p[1..]));
      SplitSpelled(p[1..]);
    }
  }

  lemma {:induction false} SpellConcat(p: Bytes, q: Bytes)
    ensures Spell(p + q) == Spell(p) + Spell(q)
  {
    if p == [] {
      assert p + q == q;
    } else {
      assert (p + q)[1..] == p[1..] + q;
      SpellConcat(p[1..], q);
    }
  }
}
