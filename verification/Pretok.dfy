/** Cutting text into pieces before byte-pair encoding: a hand-written scanner for one pattern. */
module Pretok {
  import opened Regex

  const QUOTE: nat := 39
  const SPACE: nat := 32

  // ---------------------------------------------------------------- the scanner

  /** The length of a contraction at `i`, or 0. */
  function Contraction(s: seq<nat>, i: nat): (n: nat)
    requires i < |s|
    ensures i + n <= |s|
  {
    if s[i] != QUOTE || i + 1 >= |s| then 0
    else
      var d := Low(s[i + 1]);
      if i + 2 < |s| && (var d2 := Low(s[i + 2]);
                         (d == 'r' as nat && d2 == 'e' as nat) || (d == 'v' as nat && d2 == 'e' as nat)
                         || (d == 'l' as nat && d2 == 'l' as nat)) then 3
      else if d == 's' as nat || d == 't' as nat || d == 'm' as nat || d == 'd' as nat then 2
      else 0
  }

  predicate Either(c: nat, lower: char, upper: char) {
    c == lower as nat || c == upper as nat
  }

  /** An apostrophe, and behind it one of four letters, or the two of re, ve or ll, in either case. */
  lemma ContractionIs(s: seq<nat>, i: nat)
    requires i < |s|
    ensures Contraction(s, i) in {0, 2, 3}
    ensures Contraction(s, i) == 3 <==>
      && i + 2 < |s| && s[i] == '\'' as nat
      && ((Either(s[i + 1], 'r', 'R') && Either(s[i + 2], 'e', 'E'))
          || (Either(s[i + 1], 'v', 'V') && Either(s[i + 2], 'e', 'E'))
          || (Either(s[i + 1], 'l', 'L') && Either(s[i + 2], 'l', 'L')))
    ensures Contraction(s, i) == 2 <==>
      && i + 1 < |s| && s[i] == '\'' as nat
      && (Either(s[i + 1], 's', 'S') || Either(s[i + 1], 't', 'T') || Either(s[i + 1], 'm', 'M')
          || Either(s[i + 1], 'd', 'D'))
  {
  }

  /** Where the letters of a word start: at `i`, after one leading character, or nowhere. */
  function WordStart(k: Classes, s: seq<nat>, i: nat): (j: int)
    requires i < |s|
    ensures j == -1 || (i <= j < |s| && k.isL(s[j]))
  {
    if k.isL(s[i]) then i
    else if !IsNl(s[i]) && !k.isN(s[i]) && i + 1 < |s| && k.isL(s[i + 1]) then i + 1
    else -1
  }

  /** Where the other characters start: after a leading space, if they do. */
  function OtherStart(k: Classes, s: seq<nat>, i: nat): (j: nat)
    requires i < |s|
    ensures i <= j < |s|
  {
    if s[i] == SPACE && i + 1 < |s| && In(k, Other, s[i + 1]) then i + 1 else i
  }

  lemma OtherStartIs(k: Classes, s: seq<nat>, i: nat)
    requires i < |s|
    ensures OtherStart(k, s, i) == i + 1 <==>
      s[i] == ' ' as nat && i + 1 < |s| && !k.isS(s[i + 1]) && !k.isL(s[i + 1]) && !k.isN(s[i + 1])
    ensures OtherStart(k, s, i) in {i, i + 1}
  {
  }

  /** The last line break in s[i..r], or -1. */
  function LastNl(s: seq<nat>, i: nat, r: nat): (j: int)
    requires i <= r <= |s|
    ensures j == -1 || (i <= j < r && IsNl(s[j]))
    ensures forall x :: j < x < r && i <= x ==> !IsNl(s[x])
    decreases r
  {
    if r == i then -1 else if IsNl(s[r - 1]) then r - 1 else LastNl(s, i, r - 1)
  }

  /** The end of a piece that starts with a run of spaces ending at `r`. */
  function SpaceEnd(s: seq<nat>, i: nat, r: nat): (e: nat)
    requires i < r <= |s|
    ensures i < e <= r
  {
    var last := LastNl(s, i, r);
    if last >= 0 then last + 1
    else
      var end := if r < |s| then r - 1 else r;
      if end <= i then i + 1 else end
  }

  /** The end of the piece that starts at `i`: it always advances. */
  function PieceEnd(k: Classes, s: seq<nat>, i: nat): (e: nat)
    requires i < |s|
    ensures i < e <= |s|
  {
    var c := s[i];
    if Contraction(s, i) > 0 then i + Contraction(s, i)
    else if WordStart(k, s, i) >= 0 then RunEnd(k, Letter, s, WordStart(k, s, i))
    else if k.isN(c) then
      var r := RunEnd(k, Number, s, i);
      if r > i + 3 then i + 3 else r
    else if In(k, Other, s[OtherStart(k, s, i)]) then
      RunEnd(k, Break, s, RunEnd(k, Other, s, OtherStart(k, s, i)))
    else
      var r := RunEnd(k, Space, s, i);
      if r > i then SpaceEnd(s, i, r) else i + 1
  }

  // ---------------------------------------------------------------- the pattern

  function Lit(c: char): Re {
    Class(Folded(c))
  }

  function Quote(): Re {
    Class(Exactly(QUOTE))
  }

  /** (?i:'s|'t|'re|'ve|'m|'ll|'d) */
  function Contractions(): Re {
    Or(Cat(Quote(), Lit('s')),
    Or(Cat(Quote(), Lit('t')),
    Or(Cat(Quote(), Cat(Lit('r'), Lit('e'))),
    Or(Cat(Quote(), Cat(Lit('v'), Lit('e'))),
    Or(Cat(Quote(), Lit('m')),
    Or(Cat(Quote(), Cat(Lit('l'), Lit('l'))),
       Cat(Quote(), Lit('d'))))))))
  }

  /** [^\r\n\p{L}\p{N}]?\p{L}+ */
  function Words(): Re {
    Cat(Opt(Class(Lead)), Plus(Letter))
  }

  /** \p{N}{1,3} */
  function Numbers(): Re {
    Cat(Class(Number), Opt(Cat(Class(Number), Opt(Class(Number)))))
  }

  /** ' ?[^\s\p{L}\p{N}]+[\r\n]*' */
  function Others(): Re {
    Cat(Opt(Class(Exactly(SPACE))), Cat(Plus(Other), Star(Break)))
  }

  /** \s*[\r\n]+ */
  function Lines(): Re {
    Cat(Star(Space), Plus(Break))
  }

  /** \s+(?!\S) */
  function Trailing(): Re {
    Cat(Plus(Space), NotBefore(NotSpace))
  }

  function Pattern(): Re {
    Or(Contractions(), Or(Words(), Or(Numbers(), Or(Others(), Or(Lines(), Or(Trailing(), Plus(Space)))))))
  }

  /** The match at `i`, if any: the first end the matcher tries. */
  function Match(k: Classes, re: Re, s: seq<nat>, i: nat): (e: int)
    requires i <= |s|
    ensures e == -1 || i <= e <= |s|
  {
    First(Ends(k, re, s, i))
  }

  function First(es: seq<nat>): int {
    if es == [] then -1 else es[0]
  }

  lemma FirstOfBoth(a: seq<nat>, b: seq<nat>)
    ensures First(a + b) == if First(a) >= 0 then First(a) else First(b)
  {
  }

  lemma MatchOr(k: Classes, a: Re, b: Re, s: seq<nat>, i: nat)
    requires i <= |s|
    ensures Match(k, Or(a, b), s, i) == if Match(k, a, s, i) >= 0 then Match(k, a, s, i) else Match(k, b, s, i)
  {
  }

  lemma MatchCat(k: Classes, a: Re, b: Re, s: seq<nat>, i: nat)
    requires i <= |s|
    ensures Match(k, Cat(a, b), s, i) == First(EndsFrom(k, Ends(k, a, s, i), b, s, i))
  {
  }

  lemma EndsClass(k: Classes, p: Chars, s: seq<nat>, i: nat)
    requires i <= |s|
    ensures Ends(k, Class(p), s, i) == if Is(k, p, s, i) then [i + 1] else []
  {
  }

  lemma EndsOptClass(k: Classes, p: Chars, s: seq<nat>, i: nat)
    requires i <= |s|
    ensures Ends(k, Opt(Class(p)), s, i) == if Is(k, p, s, i) then [i + 1, i] else [i]
  {
    EndsClass(k, p, s, i);
    assert Ends(k, Opt(Class(p)), s, i) == Ends(k, Class(p), s, i) + [i];
  }

  lemma EndsFromNone(k: Classes, b: Re, s: seq<nat>, lo: nat)
    ensures EndsFrom(k, [], b, s, lo) == []
  {
  }

  /** One character, then something else. */
  lemma MatchClassCat(k: Classes, p: Chars, b: Re, s: seq<nat>, i: nat)
    requires i <= |s|
    ensures Match(k, Cat(Class(p), b), s, i) == if Is(k, p, s, i) then Match(k, b, s, i + 1) else -1
  {
    MatchCat(k, Class(p), b, s, i);
    EndsClass(k, p, s, i);
    hide Ends, EndsFrom, First;
    if Is(k, p, s, i) {
      EndsFromOne(k, i + 1, b, s, i);
    } else {
      EndsFromNone(k, b, s, i);
    }
  }

  /** An optional character, then something else: with it first, then without. */
  lemma MatchOptCat(k: Classes, p: Chars, b: Re, s: seq<nat>, i: nat)
    requires i <= |s|
    ensures Match(k, Cat(Opt(Class(p)), b), s, i) ==
      if Is(k, p, s, i) && Match(k, b, s, i + 1) >= 0 then Match(k, b, s, i + 1) else Match(k, b, s, i)
  {
    MatchCat(k, Opt(Class(p)), b, s, i);
    EndsOptClass(k, p, s, i);
    hide Ends, EndsFrom, First;
    if Is(k, p, s, i) {
      EndsFromTwo(k, i + 1, i, b, s, i);
      FirstOfBoth(Ends(k, b, s, i + 1), Ends(k, b, s, i));
    } else {
      EndsFromOne(k, i, b, s, i);
    }
  }

  lemma MatchPlus(k: Classes, p: Chars, s: seq<nat>, i: nat)
    requires i <= |s|
    ensures Match(k, Plus(p), s, i) == if Is(k, p, s, i) then RunEnd(k, p, s, i) else -1
  {
    PlusEnds(k, p, s, i);
  }

  lemma DownOne(lo: nat)
    ensures Down(lo, lo) == [lo]
  {
  }

  lemma DownRest(hi: nat, lo: nat)
    requires lo < hi
    ensures Down(hi, lo)[1..] == Down(hi - 1, lo)
  {
  }

  lemma MatchOpt(k: Classes, a: Re, s: seq<nat>, i: nat)
    requires i <= |s|
    ensures Match(k, Opt(a), s, i) == if Match(k, a, s, i) >= 0 then Match(k, a, s, i) else i
  {
  }

  lemma MatchClass(k: Classes, p: Chars, s: seq<nat>, i: nat)
    requires i <= |s|
    ensures Match(k, Class(p), s, i) == if Is(k, p, s, i) then i + 1 else -1
  {
  }

  // ---------------------------------------------------------------- alternative by alternative

  predicate QuoteThen(s: seq<nat>, i: nat, c: char) {
    i + 1 < |s| && s[i] == QUOTE && Low(s[i + 1]) == c as nat
  }

  lemma MatchOne(k: Classes, c: char, s: seq<nat>, i: nat)
    requires i <= |s|
    ensures Match(k, Cat(Quote(), Lit(c)), s, i) == if QuoteThen(s, i, c) then i + 2 else -1
  {
    hide Match, Ends;
    MatchClassCat(k, Exactly(QUOTE), Lit(c), s, i);
    if i < |s| { MatchClass(k, Folded(c), s, i + 1); }
  }

  lemma MatchTwo(k: Classes, c: char, d: char, s: seq<nat>, i: nat)
    requires i <= |s|
    ensures Match(k, Cat(Quote(), Cat(Lit(c), Lit(d))), s, i) ==
      if QuoteThen(s, i, c) && i + 2 < |s| && Low(s[i + 2]) == d as nat then i + 3 else -1
  {
    hide Match, Ends;
    MatchClassCat(k, Exactly(QUOTE), Cat(Lit(c), Lit(d)), s, i);
    if i < |s| { MatchClassCat(k, Folded(c), Lit(d), s, i + 1); }
    if i + 1 < |s| { MatchClass(k, Folded(d), s, i + 2); }
  }

  lemma ContractionsMatch(k: Classes, s: seq<nat>, i: nat)
    requires i < |s|
    ensures Match(k, Contractions(), s, i) == if Contraction(s, i) > 0 then i + Contraction(s, i) else -1
  {
    hide Match, Ends, Lit, Quote;
    var dLast := Cat(Quote(), Lit('d'));
    var llOn := Or(Cat(Quote(), Cat(Lit('l'), Lit('l'))), dLast);
    var mOn := Or(Cat(Quote(), Lit('m')), llOn);
    var veOn := Or(Cat(Quote(), Cat(Lit('v'), Lit('e'))), mOn);
    var reOn := Or(Cat(Quote(), Cat(Lit('r'), Lit('e'))), veOn);
    var tOn := Or(Cat(Quote(), Lit('t')), reOn);
    MatchOne(k, 's', s, i);
    MatchOne(k, 't', s, i);
    MatchTwo(k, 'r', 'e', s, i);
    MatchTwo(k, 'v', 'e', s, i);
    MatchOne(k, 'm', s, i);
    MatchTwo(k, 'l', 'l', s, i);
    MatchOne(k, 'd', s, i);
    MatchOr(k, Cat(Quote(), Cat(Lit('l'), Lit('l'))), dLast, s, i);
    MatchOr(k, Cat(Quote(), Lit('m')), llOn, s, i);
    MatchOr(k, Cat(Quote(), Cat(Lit('v'), Lit('e'))), mOn, s, i);
    MatchOr(k, Cat(Quote(), Cat(Lit('r'), Lit('e'))), veOn, s, i);
    MatchOr(k, Cat(Quote(), Lit('t')), reOn, s, i);
    MatchOr(k, Cat(Quote(), Lit('s')), tOn, s, i);
  }

  lemma WordsMatch(k: Classes, s: seq<nat>, i: nat)
    requires i < |s|
    ensures Match(k, Words(), s, i) ==
      if WordStart(k, s, i) >= 0 then RunEnd(k, Letter, s, WordStart(k, s, i)) else -1
  {
    hide Match, Ends, RunEnd, Plus;
    MatchOptCat(k, Lead, Plus(Letter), s, i);
    MatchPlus(k, Letter, s, i);
    MatchPlus(k, Letter, s, i + 1);
  }

  lemma NumbersMatch(k: Classes, s: seq<nat>, i: nat)
    requires i < |s|
    ensures Match(k, Numbers(), s, i) ==
      if !k.isN(s[i]) then -1
      else if RunEnd(k, Number, s, i) > i + 3 then i + 3 else RunEnd(k, Number, s, i)
  {
    hide Match, Ends;
    var one := Class(Number);
    MatchClassCat(k, Number, Opt(Cat(one, Opt(one))), s, i);
    MatchOpt(k, Cat(one, Opt(one)), s, i + 1);
    MatchClassCat(k, Number, Opt(one), s, i + 1);
    assert Is(k, Number, s, i) ==> RunEnd(k, Number, s, i) == RunEnd(k, Number, s, i + 1);
    if Is(k, Number, s, i + 1) {
      MatchOpt(k, one, s, i + 2);
      MatchClass(k, Number, s, i + 2);
      assert RunEnd(k, Number, s, i + 1) == RunEnd(k, Number, s, i + 2);
    }
  }

  lemma StarEndsHead(k: Classes, p: Chars, s: seq<nat>, i: nat)
    requires i <= |s|
    ensures Match(k, Star(p), s, i) == RunEnd(k, p, s, i)
  {
    StarIsDown(k, p, s, i);
  }

  lemma RunThenLines(k: Classes, p: Chars, s: seq<nat>, j: nat)
    requires j <= |s|
    ensures Match(k, Cat(Plus(p), Star(Break)), s, j) ==
      if Is(k, p, s, j) then RunEnd(k, Break, s, RunEnd(k, p, s, j)) else -1
  {
    MatchCat(k, Plus(p), Star(Break), s, j);
    PlusEnds(k, p, s, j);
    hide Plus, Ends, EndsFrom, First, Within;
    if Is(k, p, s, j) {
      var r := RunEnd(k, p, s, j);
      StarEndsHead(k, Break, s, r);
      FirstFrom(k, Down(r, j + 1), Star(Break), s, j);
    } else {
      EndsFromNone(k, Star(Break), s, j);
      assert First([]) == -1 by { FirstOfNone(); }
    }
  }

  lemma FirstOfNone()
    ensures First([]) == -1
  {
  }

  lemma OthersMatch(k: Classes, s: seq<nat>, i: nat)
    requires i < |s|
    ensures Match(k, Others(), s, i) ==
      var j := OtherStart(k, s, i);
      if In(k, Other, s[j]) then RunEnd(k, Break, s, RunEnd(k, Other, s, j)) else -1
  {
    hide Match, Ends, RunEnd, Plus;
    var rest := Cat(Plus(Other), Star(Break));
    MatchOptCat(k, Exactly(SPACE), rest, s, i);
    RunThenLines(k, Other, s, i);
    RunThenLines(k, Other, s, i + 1);
  }

  predicate LineBreaksAreSpaces(k: Classes) {
    k.isS(13) && k.isS(10)
  }

  lemma {:induction false} DownWithin(hi: nat, lo: nat, n: nat)
    requires lo <= hi <= n
    ensures Within(Down(hi, lo), lo, n)
  {
    if hi > lo { DownWithin(hi - 1, lo, n); }
  }

  /** Backing off from `r`, where no line break stands, to the last one before it. */
  lemma {:induction false} BackToNl(k: Classes, s: seq<nat>, i: nat, r: nat)
    requires i <= r <= |s| && !Is(k, Break, s, r) && Within(Down(r, i), i, |s|)
    ensures First(EndsFrom(k, Down(r, i), Plus(Break), s, i)) ==
      if LastNl(s, i, r) >= 0 then LastNl(s, i, r) + 1 else -1
    decreases r
  {
    hide Ends, EndsFrom, First, Plus, Within, Down, Match;
    MatchPlus(k, Break, s, r);
    if r == i {
      DownOne(i);
      EndsFromOne(k, i, Plus(Break), s, i);
      MatchIs(k, Plus(Break), s, i);
    } else {
      DownWithin(r - 1, i, |s|);
      DownRest(r, i);
      FirstLater(k, Down(r, i), Plus(Break), s, i);
      if IsNl(s[r - 1]) {
        MatchPlus(k, Break, s, r - 1);
        FirstFrom(k, Down(r - 1, i), Plus(Break), s, i);
        RunEndIs(k, Break, s, r - 1, r);
      } else {
        BackToNl(k, s, i, r - 1);
      }
    }
  }

  lemma LinesMatch(k: Classes, s: seq<nat>, i: nat)
    requires i < |s| && LineBreaksAreSpaces(k)
    ensures var last := LastNl(s, i, RunEnd(k, Space, s, i));
      Match(k, Lines(), s, i) == if last >= 0 then last + 1 else -1
  {
    var r := RunEnd(k, Space, s, i);
    MatchCat(k, Star(Space), Plus(Break), s, i);
    StarIsDown(k, Space, s, i);
    DownWithin(r, i, |s|);
    BackToNl(k, s, i, r);
  }

  lemma MatchLook(k: Classes, p: Chars, s: seq<nat>, i: nat)
    requires i <= |s|
    ensures Match(k, NotBefore(p), s, i) == if Is(k, p, s, i) then -1 else i
  {
  }

  lemma TrailingMatch(k: Classes, s: seq<nat>, i: nat)
    requires i < |s|
    ensures var r := RunEnd(k, Space, s, i);
      Match(k, Trailing(), s, i) == if r == i then -1 else if r == |s| then r else if r - 1 > i then r - 1 else -1
  {
    var r, look := RunEnd(k, Space, s, i), NotBefore(NotSpace);
    MatchCat(k, Plus(Space), look, s, i);
    PlusEnds(k, Space, s, i);
    hide Plus, Ends, EndsFrom, First, Match, Down;
    if r > i {
      TrailingFrom(k, s, i, r);
    } else {
      EndsFromNone(k, look, s, i);
      FirstOfNone();
    }
  }

  /** From the end of a run of spaces: there if nothing follows, else one back, if that leaves any. */
  lemma TrailingFrom(k: Classes, s: seq<nat>, i: nat, r: nat)
    requires i < r <= |s| && !Is(k, Space, s, r) && forall x :: i <= x < r ==> In(k, Space, s[x])
    requires Within(Down(r, i + 1), i, |s|)
    ensures First(EndsFrom(k, Down(r, i + 1), NotBefore(NotSpace), s, i)) ==
      if r == |s| then r else if r - 1 > i then r - 1 else -1
  {
    var look := NotBefore(NotSpace);
    assert Is(k, NotSpace, s, r) == (r < |s|);
    assert !Is(k, NotSpace, s, r - 1);
    hide Plus, Ends, EndsFrom, First, Within, Match, Down, Is, In;
    MatchLook(k, NotSpace, s, r);
    if r == |s| {
      FirstFrom(k, Down(r, i + 1), look, s, i);
    } else if r - 1 > i {
      DownWithin(r - 1, i + 1, |s|);
      WidenDown(r - 1, i + 1, i, |s|);
      DownRest(r, i + 1);
      FirstLater(k, Down(r, i + 1), look, s, i);
      MatchLook(k, NotSpace, s, r - 1);
      FirstFrom(k, Down(r - 1, i + 1), look, s, i);
    } else {
      DownOne(r);
      EndsFromOne(k, r, look, s, i);
      MatchIs(k, look, s, r);
    }
  }

  lemma MatchIs(k: Classes, re: Re, s: seq<nat>, i: nat)
    requires i <= |s|
    ensures Match(k, re, s, i) == First(Ends(k, re, s, i))
  {
  }

  lemma WidenDown(hi: nat, lo: nat, lower: nat, n: nat)
    requires lower <= lo && Within(Down(hi, lo), lo, n)
    ensures Within(Down(hi, lo), lower, n)
  {
  }

  lemma FirstLater(k: Classes, es: seq<nat>, b: Re, s: seq<nat>, lo: nat)
    requires es != [] && Within(es, lo, |s|) && Within(es[1..], lo, |s|) && Match(k, b, s, es[0]) < 0
    ensures First(EndsFrom(k, es, b, s, lo)) == First(EndsFrom(k, es[1..], b, s, lo))
  {
  }

  lemma FirstFrom(k: Classes, es: seq<nat>, b: Re, s: seq<nat>, lo: nat)
    requires es != [] && Within(es, lo, |s|) && Match(k, b, s, es[0]) >= 0
    ensures First(EndsFrom(k, es, b, s, lo)) == Match(k, b, s, es[0])
  {
  }

  /** The scanner finds what a backtracking matcher finds for the pattern, its alternatives tried
      in order; so some alternative matches at every character. */
  lemma PieceEndIsMatch(k: Classes, s: seq<nat>, i: nat)
    requires i < |s| && LineBreaksAreSpaces(k)
    ensures Match(k, Pattern(), s, i) == PieceEnd(k, s, i)
  {
    hide Match, Ends, Plus, Contractions, Words, Numbers, Others, Lines, Trailing, RunEnd, LastNl, Contraction;
    var spaces := Plus(Space);
    var trailing := Or(Trailing(), spaces);
    var lines := Or(Lines(), trailing);
    var others := Or(Others(), lines);
    var numbers := Or(Numbers(), others);
    MatchOr(k, Contractions(), Or(Words(), numbers), s, i);
    MatchOr(k, Words(), numbers, s, i);
    MatchOr(k, Numbers(), others, s, i);
    MatchOr(k, Others(), lines, s, i);
    MatchOr(k, Lines(), trailing, s, i);
    MatchOr(k, Trailing(), spaces, s, i);
    ContractionsMatch(k, s, i);
    WordsMatch(k, s, i);
    NumbersMatch(k, s, i);
    OthersMatch(k, s, i);
    LinesMatch(k, s, i);
    TrailingMatch(k, s, i);
    MatchPlus(k, Space, s, i);
  }

  // ---------------------------------------------------------------- the loops

  method ScanRun(k: Classes, p: Chars, cp: array<nat>, n: nat, i: nat) returns (r: nat)
    requires i <= n <= cp.Length
    ensures r == RunEnd(k, p, cp[..n], i)
  {
    r := i;
    while r < n && In(k, p, cp[r])
      invariant i <= r <= n && RunEnd(k, p, cp[..n], i) == RunEnd(k, p, cp[..n], r)
    {
      assert Is(k, p, cp[..n], r);
      r := r + 1;
    }
    assert !Is(k, p, cp[..n], r);
  }

  /** At most three numbers. */
  method ScanNumbers(k: Classes, cp: array<nat>, n: nat, i: nat) returns (j: nat)
    requires i < n <= cp.Length
    ensures var r := RunEnd(k, Number, cp[..n], i); j == if r > i + 3 then i + 3 else r
  {
    j := i;
    var count := 0;
    while j < n && k.isN(cp[j]) && count < 3
      invariant j == i + count && j <= n && count <= 3
      invariant RunEnd(k, Number, cp[..n], i) == RunEnd(k, Number, cp[..n], j)
    {
      assert Is(k, Number, cp[..n], j);
      j, count := j + 1, count + 1;
    }
    assert j < n && k.isN(cp[j]) ==> Is(k, Number, cp[..n], j);
  }

  method ScanSpaces(k: Classes, cp: array<nat>, n: nat, i: nat, r: nat) returns (e: nat)
    requires i < r <= n <= cp.Length
    ensures e == SpaceEnd(cp[..n], i, r)
  {
    var last: int := -1;
    for j := i to r
      invariant last == LastNl(cp[..n], i, j)
    {
      if IsNl(cp[j]) {
        last := j;
      }
    }
    if last >= 0 {
      return last + 1;
    }
    var end := if r < n then r - 1 else r;
    e := if end <= i then i + 1 else end;
  }

  /** The end of the piece that starts at `i`, the alternatives tried one after the other. */
  method ScanPiece(k: Classes, cp: array<nat>, n: nat, i: nat) returns (e: nat)
    requires i < n <= cp.Length
    ensures e == PieceEnd(k, cp[..n], i)
  {
    hide RunEnd, LastNl, SpaceEnd;
    ghost var s := cp[..n];
    var c := cp[i];
    if c == QUOTE && i + 1 < n {
      var d := Low(cp[i + 1]);
      if i + 2 < n {
        var d2 := Low(cp[i + 2]);
        if (d == 'r' as nat && d2 == 'e' as nat) || (d == 'v' as nat && d2 == 'e' as nat)
           || (d == 'l' as nat && d2 == 'l' as nat)
        {
          return i + 3;
        }
      }
      if d == 's' as nat || d == 't' as nat || d == 'm' as nat || d == 'd' as nat {
        return i + 2;
      }
    }
    assert Contraction(s, i) == 0;
    hide Contraction;
    var j: int := i;
    if !k.isL(c) && !IsNl(c) && !k.isN(c) {
      j := if i + 1 < n && k.isL(cp[i + 1]) then i + 1 else -1;
    }
    if j >= 0 && k.isL(cp[j]) {
      e := ScanRun(k, Letter, cp, n, j);
      return;
    }
    if k.isN(c) {
      e := ScanNumbers(k, cp, n, i);
      return;
    }
    j := i;
    if c == SPACE && i + 1 < n && In(k, Other, cp[i + 1]) {
      j := i + 1;
    }
    if In(k, Other, cp[j]) {
      var r := ScanRun(k, Other, cp, n, j);
      e := ScanRun(k, Break, cp, n, r);
      return;
    }
    var r := ScanRun(k, Space, cp, n, i);
    if r > i {
      e := ScanSpaces(k, cp, n, i, r);
    } else {
      e := i + 1;
    }
  }
}
