/** A backtracking matcher: the ends an expression can match up to, in the order it tries them. */
module Regex {
  /** Letters, numbers and spaces; the tables behind them may be anything. */
  datatype Classes = Classes(isL: nat -> bool, isN: nat -> bool, isS: nat -> bool)

  /** Sets of characters: \p{L}, \p{N}, \s, \S, [\r\n], [^\r\n\p{L}\p{N}], [^\s\p{L}\p{N}], one character,
      and one ASCII letter in either case. */
  datatype Chars = Letter | Number | Space | NotSpace | Break | Lead | Other | Exactly(x: nat) | Folded(letter: char)

  predicate IsNl(c: nat) {
    c == 13 || c == 10
  }

  function Low(c: nat): nat {
    if 65 <= c <= 90 then c + 32 else c
  }

  predicate In(k: Classes, cs: Chars, c: nat) {
    match cs
    case Letter => k.isL(c)
    case Number => k.isN(c)
    case Space => k.isS(c)
    case NotSpace => !k.isS(c)
    case Break => IsNl(c)
    case Lead => !IsNl(c) && !k.isL(c) && !k.isN(c)
    case Other => !k.isS(c) && !k.isL(c) && !k.isN(c)
    case Exactly(x) => c == x
    case Folded(x) => Low(c) == x as nat
  }

  /** The sets, character by character. */
  lemma SetsAre(k: Classes, c: nat)
    ensures In(k, Break, c) <==> c in {'\r' as nat, '\n' as nat}
    ensures In(k, Lead, c) <==> !In(k, Break, c) && !In(k, Letter, c) && !In(k, Number, c)
    ensures In(k, Other, c) <==> In(k, NotSpace, c) && !In(k, Letter, c) && !In(k, Number, c)
    ensures In(k, NotSpace, c) <==> !In(k, Space, c)
    ensures forall x :: 'a' <= x <= 'z' ==>
      (In(k, Folded(x), c) <==> c == x as nat || c == x as nat - 'a' as nat + 'A' as nat)
  {
  }

  datatype Re =
    | Class(p: Chars)
    | Star(p: Chars)
    | NotBefore(p: Chars)
    | Opt(a: Re)
    | Cat(a: Re, b: Re)
    | Or(a: Re, b: Re)

  function Plus(p: Chars): Re {
    Cat(Class(p), Star(p))
  }

  predicate Is(k: Classes, p: Chars, s: seq<nat>, i: nat) {
    i < |s| && In(k, p, s[i])
  }

  predicate Within(es: seq<nat>, lo: nat, hi: nat) {
    forall j :: 0 <= j < |es| ==> lo <= es[j] <= hi
  }

  /** Greedy: the longest run first. */
  function StarEnds(k: Classes, p: Chars, s: seq<nat>, i: nat): (es: seq<nat>)
    requires i <= |s|
    ensures Within(es, i, |s|)
    decreases |s| - i
  {
    if Is(k, p, s, i) then StarEnds(k, p, s, i + 1) + [i] else [i]
  }

  function Ends(k: Classes, re: Re, s: seq<nat>, i: nat): (es: seq<nat>)
    requires i <= |s|
    ensures Within(es, i, |s|)
    decreases re, 0
  {
    match re
    case Class(p) => if Is(k, p, s, i) then [i + 1] else []
    case Star(p) => StarEnds(k, p, s, i)
    case NotBefore(p) => if Is(k, p, s, i) then [] else [i]
    case Opt(a) => Ends(k, a, s, i) + [i]
    case Cat(a, b) => EndsFrom(k, Ends(k, a, s, i), b, s, i)
    case Or(a, b) => Ends(k, a, s, i) + Ends(k, b, s, i)
  }

  /** What can follow each of a list of positions. */
  function EndsFrom(k: Classes, es: seq<nat>, b: Re, s: seq<nat>, lo: nat): (r: seq<nat>)
    requires Within(es, lo, |s|)
    ensures Within(r, lo, |s|)
    decreases b, 1, |es|
  {
    if es == [] then []
    else
      assert Within(es[1..], lo, |s|);
      Ends(k, b, s, es[0]) + EndsFrom(k, es[1..], b, s, lo)
  }

  /** The end of the run of `p` from `i`. */
  function RunEnd(k: Classes, p: Chars, s: seq<nat>, i: nat): (r: nat)
    requires i <= |s|
    ensures i <= r <= |s| && !Is(k, p, s, r)
    ensures forall x :: i <= x < r ==> In(k, p, s[x])
    decreases |s| - i
  {
    if Is(k, p, s, i) then RunEnd(k, p, s, i + 1) else i
  }

  lemma {:induction false} RunEndIs(k: Classes, p: Chars, s: seq<nat>, i: nat, r: nat)
    requires i <= r <= |s| && !Is(k, p, s, r) && forall x :: i <= x < r ==> In(k, p, s[x])
    ensures RunEnd(k, p, s, i) == r
    decreases r - i
  {
    if i < r { RunEndIs(k, p, s, i + 1, r); }
  }

  /** hi, hi - 1, ..., lo. */
  function Down(hi: nat, lo: nat): (es: seq<nat>)
    ensures |es| > 0 && es[0] == if hi <= lo then lo else hi
  {
    if hi <= lo then [lo] else [hi] + Down(hi - 1, lo)
  }

  lemma {:induction false} DownAdd(hi: nat, lo: nat)
    requires lo < hi
    ensures Down(hi, lo + 1) + [lo] == Down(hi, lo)
  {
    if hi > lo + 1 { DownAdd(hi - 1, lo); }
  }

  /** A greedy run is tried from its full length down. */
  lemma {:induction false} StarIsDown(k: Classes, p: Chars, s: seq<nat>, i: nat)
    requires i <= |s|
    ensures StarEnds(k, p, s, i) == Down(RunEnd(k, p, s, i), i)
    decreases |s| - i
  {
    if Is(k, p, s, i) {
      StarIsDown(k, p, s, i + 1);
      DownAdd(RunEnd(k, p, s, i), i);
    }
  }

  lemma PlusEnds(k: Classes, p: Chars, s: seq<nat>, i: nat)
    requires i <= |s|
    ensures Ends(k, Plus(p), s, i) == if Is(k, p, s, i) then Down(RunEnd(k, p, s, i), i + 1) else []
  {
    if Is(k, p, s, i) {
      StarIsDown(k, p, s, i + 1);
      EndsFromOne(k, i + 1, Star(p), s, i);
      assert Ends(k, Class(p), s, i) == [i + 1];
    }
  }

  lemma EndsFromOne(k: Classes, e: nat, b: Re, s: seq<nat>, lo: nat)
    requires lo <= e <= |s|
    ensures EndsFrom(k, [e], b, s, lo) == Ends(k, b, s, e)
  {
    assert [e][1..] == [];
  }

  /** Two positions to go on from. */
  lemma EndsFromTwo(k: Classes, e: nat, f: nat, b: Re, s: seq<nat>, lo: nat)
    requires lo <= e <= |s| && lo <= f <= |s|
    ensures EndsFrom(k, [e, f], b, s, lo) == Ends(k, b, s, e) + Ends(k, b, s, f)
  {
    assert [e, f][1..] == [f];
    EndsFromOne(k, f, b, s, lo);
  }
}
