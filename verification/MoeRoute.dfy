/** Grouped top-k routing: the best groups by their two best scores, then the best experts in them. */
module MoeRoute {
  import opened Blocks
  import opened Ranking
  import opened Sequences

  function Fins(s: seq<real>): (c: seq<Score>)
    ensures |c| == |s| && forall e :: 0 <= e < |s| ==> c[e] == Fin(s[e])
  {
    seq(|s|, e requires 0 <= e < |s| => Fin(s[e]))
  }

  /** The two best of the first `n`, the floor standing in for any that are missing. */
  function Top2(b: seq<real>, n: nat): (t: (real, real))
    requires n <= |b|
  {
    if n == 0 then (FLOOR, FLOOR)
    else
      var (t1, t2) := Top2(b, n - 1);
      var v := b[n - 1];
      if v > t1 then (v, t1) else if v > t2 then (t1, v) else (t1, t2)
  }

  predicate AboveFloor(s: seq<real>) {
    forall e :: 0 <= e < |s| ==> s[e] > FLOOR
  }

  /** They are two members, and no third is better than the second. */
  lemma {:induction false} Top2Is(b: seq<real>, n: nat) returns (i: nat, j: nat)
    requires 2 <= n <= |b| && AboveFloor(b)
    ensures i < n && j < n && i != j && Top2(b, n) == (b[i], b[j]) && b[j] <= b[i]
    ensures forall x :: 0 <= x < n && x != i ==> b[x] <= b[j]
  {
    if n == 2 {
      assert Top2(b, 1) == (b[0], FLOOR);
      i, j := if b[1] > b[0] then 1 else 0, if b[1] > b[0] then 0 else 1;
    } else {
      i, j := Top2Is(b, n - 1);
      if b[n - 1] > b[i] {
        i, j := n - 1, i;
      } else if b[n - 1] > b[j] {
        j := n - 1;
      }
    }
  }

  /** Half the spacing of 32-bit floats around the floor. */
  const ABSORBED: real := 37778931862957161709568.0

  /** The sum of the two best. A score of ordinary size is lost in a sum with the floor, which is
      what stands in for the second best of a group of one. */
  function Plus(top1: real, top2: real): real {
    if top2 == FLOOR && -ABSORBED < top1 < ABSORBED then FLOOR else top1 + top2
  }

  function Sum2(b: seq<real>): real {
    var (t1, t2) := Top2(b, |b|);
    Plus(t1, t2)
  }

  /** A group's score is the greatest sum of two of its members. */
  lemma Sum2IsGreatest(b: seq<real>)
    requires |b| >= 2 && AboveFloor(b)
    ensures exists i, j :: 0 <= i < |b| && 0 <= j < |b| && i != j && Sum2(b) == b[i] + b[j]
    ensures forall x, y :: 0 <= x < |b| && 0 <= y < |b| && x != y ==> b[x] + b[y] <= Sum2(b)
  {
    var i, j := Top2Is(b, |b|);
    assert Sum2(b) == b[i] + b[j];
  }

  /** The scores of the first `g` of `n` groups of width `w`. */
  function GroupScoresTo(ch: seq<real>, n: nat, w: nat, g: nat): (s: seq<real>)
    requires g <= n && |ch| == Times(n, w)
    ensures |s| == g
    ensures forall x :: 0 <= x < g ==> s[x] == Sum2(Block(ch, x, n, w))
  {
    if g == 0 then [] else GroupScoresTo(ch, n, w, g - 1) + [Sum2(Block(ch, g - 1, n, w))]
  }

  function GroupScores(ch: seq<real>, n: nat, w: nat): (s: seq<real>)
    requires |ch| == Times(n, w)
    ensures |s| == n
  {
    GroupScoresTo(ch, n, w, n)
  }

  function Least(a: nat, b: nat): nat {
    if a <= b then a else b
  }

  /** The best `k` groups. */
  function Kept(scores: seq<real>, k: nat): seq<nat> {
    var o := Order(Fins(scores));
    o[..Least(k, |o|)]
  }

  function Masks(w: nat): (m: seq<Score>)
    ensures |m| == w && forall e :: 0 <= e < w ==> m[e] == NegInf
  {
    seq(w, e => NegInf)
  }

  /** The scores with the first `g` groups masked unless kept. */
  function MaskTo(c: seq<Score>, kept: seq<nat>, n: nat, w: nat, g: nat): (m: seq<Score>)
    requires g <= n && |c| == Times(n, w)
    ensures |m| == |c|
  {
    if g == 0 then c
    else
      var m := MaskTo(c, kept, n, w, g - 1);
      if g - 1 in kept then m else SetBlock(m, g - 1, n, w, Masks(w))
  }

  lemma {:induction false} MaskToIs(c: seq<Score>, kept: seq<nat>, n: nat, w: nat, g: nat, x: nat)
    requires g <= n && x < n && |c| == Times(n, w)
    ensures Block(MaskTo(c, kept, n, w, g), x, n, w) == if x < g && x !in kept then Masks(w) else Block(c, x, n, w)
  {
    hide Block, SetBlock, Masks;
    if g > 0 {
      MaskToIs(c, kept, n, w, g - 1, x);
      if g - 1 !in kept {
        BlockOfSet(MaskTo(c, kept, n, w, g - 1), g - 1, n, w, Masks(w), x);
      }
    }
  }

  /** The scores the experts compete with: those of groups that were not kept are masked. */
  function Remaining(ch: seq<real>, n: nat, w: nat, topkGroup: nat): (c: seq<Score>)
    requires n > 1 ==> |ch| == Times(n, w)
    ensures |c| == |ch|
  {
    if n > 1 then MaskTo(Fins(ch), Kept(GroupScores(ch, n, w), topkGroup), n, w, n) else Fins(ch)
  }

  /** Expert `j` of group `g` still competes, with its own score, exactly if the group was kept. */
  lemma RemainingIs(ch: seq<real>, n: nat, w: nat, topkGroup: nat, g: nat, j: nat)
    requires n > 1 && |ch| == Times(n, w) && g < n && j < w
    ensures Times(g, w) + j < |ch|
    ensures Remaining(ch, n, w, topkGroup)[Times(g, w) + j] ==
      if g in Kept(GroupScores(ch, n, w), topkGroup) then Fin(ch[Times(g, w) + j]) else NegInf
  {
    hide Kept, GroupScores;
    var kept, c := Kept(GroupScores(ch, n, w), topkGroup), Remaining(ch, n, w, topkGroup);
    Within(g, n, j, w);
    Bounds(g, n, w);
    MaskToIs(Fins(ch), kept, n, w, n, g);
    hide MaskTo;
    assert Block(c, g, n, w)[j] == c[Times(g, w) + j];
    assert Block(Fins(ch), g, n, w)[j] == Fins(ch)[Times(g, w) + j];
  }

  /** There is a candidate for every rank. */
  predicate Fillable(ch: seq<real>, n: nat, w: nat, topkGroup: nat, topk: nat) {
    (n > 1 ==> |ch| == Times(n, w)) && topk <= |Order(Remaining(ch, n, w, topkGroup))|
  }

  /** As many groups as are kept, as many experts in them as are wanted, and all scores of experts
      and groups above the floor. */
  ghost predicate Routable(ch: seq<real>, n: nat, w: nat, topkGroup: nat, topk: nat) {
    && AboveFloor(ch)
    && (if n > 1 then
          && |ch| == Times(n, w) && topkGroup <= n && topk <= Times(topkGroup, w)
          && AboveFloor(GroupScores(ch, n, w))
        else topk <= |ch|)
  }

  // ---------------------------------------------------------------- enough experts remain

  lemma {:induction false} CountAll(c: seq<Score>, n: nat)
    requires n <= |c| && forall e :: 0 <= e < n ==> Candidate(c, e)
    ensures Count(c, n) == n
  {
    if n > 0 { CountAll(c, n - 1); }
  }

  lemma {:induction false} CountMore(c: seq<Score>, a: nat, w: nat, all: bool)
    requires a + w <= |c| && forall e :: a <= e < a + w ==> Candidate(c, e) == all
    ensures Count(c, a + w) == Count(c, a) + if all then w else 0
  {
    if w > 0 { CountMore(c, a, w - 1, all); }
  }

  /** How many of the first `g` groups are kept. */
  function KeptTo(kept: seq<nat>, g: nat): nat {
    if g == 0 then 0 else KeptTo(kept, g - 1) + if g - 1 in kept then 1 else 0
  }

  lemma {:induction false} CountRemaining(ch: seq<real>, n: nat, w: nat, topkGroup: nat, g: nat)
    requires n > 1 && |ch| == Times(n, w) && g <= n && AboveFloor(ch)
    ensures Times(g, w) <= |ch|
    ensures Count(Remaining(ch, n, w, topkGroup), Times(g, w)) ==
      Times(KeptTo(Kept(GroupScores(ch, n, w), topkGroup), g), w)
  {
    hide Kept, GroupScores, Remaining;
    TimesGrows(g, n, w);
    if g > 0 {
      CountRemaining(ch, n, w, topkGroup, g - 1);
      var c, kept := Remaining(ch, n, w, topkGroup), Kept(GroupScores(ch, n, w), topkGroup);
      forall e | Times(g - 1, w) <= e < Times(g - 1, w) + w ensures Candidate(c, e) == (g - 1 in kept) {
        RemainingIs(ch, n, w, topkGroup, g - 1, e - Times(g - 1, w));
      }
      CountMore(c, Times(g - 1, w), w, g - 1 in kept);
    }
  }

  ghost function Among(kept: seq<nat>, g: nat): set<nat> {
    set x: nat | x < g && x in kept
  }

  lemma {:induction false} KeptToIs(kept: seq<nat>, g: nat)
    ensures KeptTo(kept, g) == |Among(kept, g)|
  {
    if g > 0 {
      KeptToIs(kept, g - 1);
      assert Among(kept, g) == Among(kept, g - 1) + if g - 1 in kept then {g - 1} else {};
    }
  }

  lemma AllKept(scores: seq<real>, k: nat)
    requires AboveFloor(scores) && k <= |scores|
    ensures |Kept(scores, k)| == k && KeptTo(Kept(scores, k), |scores|) == k
  {
    var c := Fins(scores);
    CountAll(c, |c|);
    OrderCount(c, |c|);
    OrderToIs(c, |c|);
    SortedDistinct(c, Order(c));
    hide OrderTo;
    var kept := Kept(scores, k);
    KeptToIs(kept, |c|);
    DistinctCount(kept);
    assert Among(kept, |c|) == Elements(kept);
  }

  /** There are as many candidates as are wanted. */
  lemma Enough(ch: seq<real>, n: nat, w: nat, topkGroup: nat, topk: nat)
    requires Routable(ch, n, w, topkGroup, topk)
    ensures Fillable(ch, n, w, topkGroup, topk)
  {
    var c := Remaining(ch, n, w, topkGroup);
    OrderCount(c, |c|);
    if n > 1 {
      CountRemaining(ch, n, w, topkGroup, n);
      AllKept(GroupScores(ch, n, w), topkGroup);
    } else {
      CountAll(c, |c|);
    }
  }

  // ---------------------------------------------------------------- groups of one

  predicate Ordinary(s: seq<real>) {
    forall e :: 0 <= e < |s| ==> -ABSORBED < s[e] < ABSORBED
  }

  lemma SumAboveFloor(b: seq<real>)
    requires Ordinary(b)
    ensures Sum2(b) > FLOOR <==> |b| >= 2
  {
    if |b| >= 2 {
      var i, j := Top2Is(b, |b|);
    } else if |b| == 1 {
      assert Top2(b, 0) == (FLOOR, FLOOR);
    }
  }

  lemma OrdinaryBlock(ch: seq<real>, n: nat, w: nat, g: nat)
    requires Ordinary(ch) && |ch| == Times(n, w) && g < n
    ensures Ordinary(Block(ch, g, n, w))
  {
    Bounds(g, n, w);
    forall j | 0 <= j < w ensures -ABSORBED < Block(ch, g, n, w)[j] < ABSORBED {
      assert Block(ch, g, n, w)[j] == ch[Times(g, w) + j];
    }
  }

  lemma NoneKept(ch: seq<real>, n: nat, w: nat, topkGroup: nat)
    requires n > 1 && |ch| == Times(n, w) && Ordinary(ch) && w < 2
    ensures Order(Remaining(ch, n, w, topkGroup)) == []
  {
    var scores := GroupScores(ch, n, w);
    forall g | 0 <= g < n ensures scores[g] <= FLOOR {
      OrdinaryBlock(ch, n, w, g);
      SumAboveFloor(Block(ch, g, n, w));
    }
    hide GroupScores;
    NoCandidates(Fins(scores));
    assert Kept(scores, topkGroup) == [];
    var c := Remaining(ch, n, w, topkGroup);
    forall x | 0 <= x < |ch| ensures c[x] == NegInf {
      var g, j := PositionIn(x, n, w);
      RemainingIs(ch, n, w, topkGroup, g, j);
    }
    NoCandidates(c);
  }

  lemma NoCandidates(c: seq<Score>)
    requires forall e :: 0 <= e < |c| ==> !Candidate(c, e)
    ensures Order(c) == []
  {
    var o := Order(c);
    OrderToIs(c, |c|);
    assert |o| > 0 ==> Candidate(c, o[0]);
  }

  /** For scores of ordinary size and limits as the configuration demands them, every rank is
      filled exactly if there is one group or the groups have at least two experts. */
  lemma FilledIff(ch: seq<real>, n: nat, w: nat, topkGroup: nat, topk: nat)
    requires Ordinary(ch) && topk >= 1
    requires if n > 1 then |ch| == Times(n, w) && topkGroup <= n && topk <= Times(topkGroup, w) else topk <= |ch|
    ensures -1 !in Picks(Remaining(ch, n, w, topkGroup), topk) <==> n <= 1 || w >= 2
  {
    NoHoleIff(Remaining(ch, n, w, topkGroup), topk);
    if n > 1 && w < 2 {
      NoneKept(ch, n, w, topkGroup);
    } else {
      if n > 1 { GroupsAboveFloor(ch, n, w); }
      Enough(ch, n, w, topkGroup, topk);
    }
  }

  lemma GroupsAboveFloor(ch: seq<real>, n: nat, w: nat)
    requires |ch| == Times(n, w) && Ordinary(ch) && w >= 2
    ensures AboveFloor(GroupScores(ch, n, w))
  {
    forall g | 0 <= g < n ensures GroupScores(ch, n, w)[g] > FLOOR {
      OrdinaryBlock(ch, n, w, g);
      SumAboveFloor(Block(ch, g, n, w));
    }
  }

  /** Two groups of one expert, one group kept, one expert wanted: none is found. */
  lemma GroupsOfOne(ch: seq<real>)
    requires ch == [0.5, 0.25]
    ensures |ch| == Times(2, 1) && Picks(Remaining(ch, 2, 1, 1), 1) == [-1]
  {
    assert Times(2, 1) == Times(1, 1) + 1 == Times(0, 1) + 2;
    NoneKept(ch, 2, 1, 1);
    var c := Remaining(ch, 2, 1, 1);
    hide Remaining, Order;
    PicksAre(c, 1);
    assert Picks(c, 1) == [] + Holes(1);
  }

  /** The groups kept: distinct, and no group left out beats one of them. */
  lemma KeptAreBest(scores: seq<real>, k: nat, g: nat, h: nat)
    requires h < |scores| && g in Kept(scores, k) && h !in Kept(scores, k)
    ensures g < |scores| && (scores[g] > scores[h] || (scores[g] == scores[h] && g < h))
    ensures Distinct(Kept(scores, k))
  {
    var c, kept := Fins(scores), Kept(scores, k);
    TopIs(c, |kept|);
    hide Order;
    var i :| 0 <= i < |kept| && kept[i] == g;
    assert Candidate(c, h) ==> Before(c, kept[i], h);
  }

  /** The experts selected. */
  function Selected(ch: seq<real>, n: nat, w: nat, topkGroup: nat, topk: nat): (s: seq<nat>)
    requires Fillable(ch, n, w, topkGroup, topk)
    ensures |s| == topk && forall i :: 0 <= i < topk ==> s[i] < |ch|
  {
    Order(Remaining(ch, n, w, topkGroup))[..topk]
  }

  /** They are distinct, come best first by biased score and lower index first among equals, lie in
      groups that were kept, and no other expert of a kept group comes before any of them. */
  lemma SelectedAreBest(ch: seq<real>, n: nat, w: nat, topkGroup: nat, topk: nat, g: nat, j: nat)
    requires n > 1 && Fillable(ch, n, w, topkGroup, topk) && g < n && j < w
    ensures Times(g, w) + j < |ch|
    ensures var s := Selected(ch, n, w, topkGroup, topk); var e := Times(g, w) + j;
      && Distinct(s)
      && (forall a, b :: 0 <= a < b < topk ==> ch[s[a]] > ch[s[b]] || (ch[s[a]] == ch[s[b]] && s[a] < s[b]))
      && (e in s ==> g in Kept(GroupScores(ch, n, w), topkGroup))
      && (g in Kept(GroupScores(ch, n, w), topkGroup) && e !in s ==>
            forall a :: 0 <= a < topk ==> ch[s[a]] > ch[e] || (ch[s[a]] == ch[e] && s[a] < e))
  {
    hide GroupScores, Kept;
    var c, s, e := Remaining(ch, n, w, topkGroup), Selected(ch, n, w, topkGroup, topk), Times(g, w) + j;
    TopIs(c, topk);
    RemainingIs(ch, n, w, topkGroup, g, j);
    forall x | 0 <= x < |ch| && c[x].Fin? ensures c[x] == Fin(ch[x]) {
      OwnScore(ch, n, w, topkGroup, x);
    }
    hide Order, Remaining;
    forall a, b | 0 <= a < b < topk
      ensures ch[s[a]] > ch[s[b]] || (ch[s[a]] == ch[s[b]] && s[a] < s[b])
    {
      assert Before(c, s[a], s[b]);
    }
    if g in Kept(GroupScores(ch, n, w), topkGroup) && e !in s {
      forall a | 0 <= a < topk ensures ch[s[a]] > ch[e] || (ch[s[a]] == ch[e] && s[a] < e) {
        assert Candidate(c, s[a]);
        assert Candidate(c, e) ==> Before(c, s[a], e);
      }
    }
  }

  /** With a single group all experts compete: those selected are distinct, come best first by biased
      score and lower index first among equals, and no other expert comes before any of them. */
  lemma SelectedOfOneGroup(ch: seq<real>, n: nat, w: nat, topkGroup: nat, topk: nat, e: nat)
    requires n <= 1 && Fillable(ch, n, w, topkGroup, topk) && e < |ch|
    ensures var s := Selected(ch, n, w, topkGroup, topk);
      && Distinct(s)
      && (forall a, b :: 0 <= a < b < topk ==> ch[s[a]] > ch[s[b]] || (ch[s[a]] == ch[s[b]] && s[a] < s[b]))
      && (e !in s ==> forall a :: 0 <= a < topk ==> ch[s[a]] > ch[e] || (ch[s[a]] == ch[e] && s[a] < e))
  {
    var c, s := Remaining(ch, n, w, topkGroup), Selected(ch, n, w, topkGroup, topk);
    assert forall x :: 0 <= x < |ch| ==> c[x] == Fin(ch[x]);
    TopIs(c, topk);
    hide Order, Remaining;
    forall a, b | 0 <= a < b < topk
      ensures ch[s[a]] > ch[s[b]] || (ch[s[a]] == ch[s[b]] && s[a] < s[b])
    {
      assert Before(c, s[a], s[b]);
    }
    if e !in s {
      forall a | 0 <= a < topk ensures ch[s[a]] > ch[e] || (ch[s[a]] == ch[e] && s[a] < e) {
        assert Candidate(c, s[a]);
        assert Candidate(c, e) ==> Before(c, s[a], e);
      }
    }
  }

  /** The experts that can be selected. */
  ghost function Eligible(ch: seq<real>, n: nat, w: nat, topkGroup: nat): set<nat>
    requires n > 1 ==> |ch| == Times(n, w)
  {
    set x | 0 <= x < |ch| && ch[x] > FLOOR &&
      (n > 1 ==> exists g :: g in Kept(GroupScores(ch, n, w), topkGroup) && Times(g, w) <= x < Times(g, w) + w)
  }

  lemma EligibleIs(ch: seq<real>, n: nat, w: nat, topkGroup: nat, x: nat)
    requires (n > 1 ==> |ch| == Times(n, w)) && x < |ch|
    ensures Candidate(Remaining(ch, n, w, topkGroup), x) <==> x in Eligible(ch, n, w, topkGroup)
  {
    hide *;
    CandidateIs(Remaining(ch, n, w, topkGroup), x);
    if n > 1 {
      var g, j := PositionIn(x, n, w);
      RemainingIs(ch, n, w, topkGroup, g, j);
      InGroup(ch, n, w, topkGroup, g, j);
    } else {
      AllEligible(ch, n, w, topkGroup, x);
    }
  }

  lemma AllEligible(ch: seq<real>, n: nat, w: nat, topkGroup: nat, x: nat)
    requires n <= 1 && x < |ch|
    ensures Remaining(ch, n, w, topkGroup)[x] == Fin(ch[x])
    ensures x in Eligible(ch, n, w, topkGroup) <==> ch[x] > FLOOR
  {
  }

  lemma CandidateIs(c: seq<Score>, x: nat)
    requires x < |c|
    ensures Candidate(c, x) <==> c[x].Fin? && c[x].v > FLOOR
  {
  }

  lemma InGroup(ch: seq<real>, n: nat, w: nat, topkGroup: nat, g: nat, j: nat)
    requires n > 1 && |ch| == Times(n, w) && g < n && j < w && Times(g, w) + j < |ch|
    ensures Times(g, w) + j in Eligible(ch, n, w, topkGroup) <==>
      ch[Times(g, w) + j] > FLOOR && g in Kept(GroupScores(ch, n, w), topkGroup)
  {
    hide Kept, GroupScores, Times;
    InOneGroup(n, w, g, j);
  }

  /** There is a candidate for every rank exactly if that many experts have a score above the floor
      and, with more than one group, are in one that was kept. */
  lemma FillableIff(ch: seq<real>, n: nat, w: nat, topkGroup: nat, topk: nat)
    requires n > 1 ==> |ch| == Times(n, w)
    ensures Fillable(ch, n, w, topkGroup, topk) <==> topk <= |Eligible(ch, n, w, topkGroup)|
  {
    var c := Remaining(ch, n, w, topkGroup);
    OrderToIs(c, |c|);
    SortedDistinct(c, Order(c));
    DistinctCount(Order(c));
    hide OrderTo, Remaining;
    InRange(ch, n, w, topkGroup);
    hide Eligible;
    forall x: nat ensures x in Elements<nat>(Order(c)) <==> x in Eligible(ch, n, w, topkGroup) {
      if x < |ch| { EligibleIs(ch, n, w, topkGroup, x); }
    }
    assert Elements<nat>(Order(c)) == Eligible(ch, n, w, topkGroup);
  }

  lemma InRange(ch: seq<real>, n: nat, w: nat, topkGroup: nat)
    requires n > 1 ==> |ch| == Times(n, w)
    ensures forall x :: x in Eligible(ch, n, w, topkGroup) ==> x < |ch|
  {
  }

  /** An expert's position names its group. */
  lemma InOneGroup(n: nat, w: nat, g: nat, j: nat)
    requires g < n && j < w
    ensures forall h: nat :: Times(h, w) <= Times(g, w) + j < Times(h, w) + w ==> h == g
  {
    forall h: nat | Times(h, w) <= Times(g, w) + j < Times(h, w) + w ensures h == g {
      if h < g { Bounds(h, g, w); } else if g < h { Bounds(g, h, w); }
    }
  }

  /** As many groups are kept as are wanted, or all whose score is above the floor. */
  lemma KeptCount(scores: seq<real>, k: nat)
    ensures |Kept(scores, k)| <= k
    ensures |Kept(scores, k)| < k ==> forall g :: 0 <= g < |scores| && scores[g] > FLOOR ==> g in Kept(scores, k)
    ensures forall g :: g in Kept(scores, k) ==> g < |scores| && scores[g] > FLOOR
  {
    var c := Fins(scores);
    OrderToIs(c, |c|);
    hide OrderTo;
    var o := Order(c);
    assert Least(k, |o|) == |o| ==> Kept(scores, k) == o;
    forall g | g in Kept(scores, k) ensures g < |scores| && scores[g] > FLOOR {
      assert g in o;
    }
    forall g | 0 <= g < |scores| && scores[g] > FLOOR ensures g in o {
      assert Candidate(c, g);
    }
  }

  /** An expert that still competes does so with its own score. */
  lemma OwnScore(ch: seq<real>, n: nat, w: nat, topkGroup: nat, x: nat)
    requires n > 1 && |ch| == Times(n, w) && x < |ch| && Remaining(ch, n, w, topkGroup)[x].Fin?
    ensures Remaining(ch, n, w, topkGroup)[x] == Fin(ch[x])
  {
    var g, j := PositionIn(x, n, w);
    RemainingIs(ch, n, w, topkGroup, g, j);
  }

  // ---------------------------------------------------------------- in place

  function Probs(sigmoid: real -> real, logits: seq<real>): (p: seq<real>)
    ensures |p| == |logits| && forall e :: 0 <= e < |p| ==> p[e] == sigmoid(logits[e])
  {
    seq(|logits|, e requires 0 <= e < |logits| => sigmoid(logits[e]))
  }

  /** The biased scores experts are chosen by. */
  function Biased(probs: seq<real>, bias: seq<real>): (ch: seq<real>)
    requires |bias| == |probs|
    ensures |ch| == |probs| && forall e :: 0 <= e < |ch| ==> ch[e] == probs[e] + bias[e]
  {
    seq(|probs|, e requires 0 <= e < |probs| => probs[e] + bias[e])
  }

  method ScoreExperts(sigmoid: real -> real, logits: seq<real>, bias: seq<real>,
                      prob: array<real>, choice: array<Score>)
    requires |bias| == |logits| == prob.Length == choice.Length
    modifies prob, choice
    ensures prob[..] == Probs(sigmoid, logits) && choice[..] == Fins(Biased(Probs(sigmoid, logits), bias))
  {
    for e := 0 to |logits|
      invariant forall x :: 0 <= x < e ==> prob[x] == sigmoid(logits[x])
      invariant forall x :: 0 <= x < e ==> choice[x] == Fin(sigmoid(logits[x]) + bias[x])
    {
      prob[e] := sigmoid(logits[e]);
      choice[e] := Fin(prob[e] + bias[e]);
    }
  }

  method TopTwo(choice: array<Score>, ghost ch: seq<real>, n: nat, w: nat, g: nat) returns (sum: real)
    requires choice[..] == Fins(ch) && |ch| == Times(n, w) && g < n
    ensures sum == Sum2(Block(ch, g, n, w))
  {
    hide Block;
    ghost var b := Block(ch, g, n, w);
    var top1, top2 := FLOOR, FLOOR;
    for j := 0 to w
      invariant (top1, top2) == Top2(b, j)
    {
      InBlock(ch, n, w, g, j);
      assert choice[..][g * w + j] == Fin(b[j]);
      var value := choice[g * w + j].v;
      if value > top1 {
        top1, top2 := value, top1;
      } else if value > top2 {
        top2 := value;
      }
    }
    sum := Plus(top1, top2);
  }

  method ScoreGroups(choice: array<Score>, ghost ch: seq<real>, n: nat, w: nat, groupScore: array<real>)
    requires choice[..] == Fins(ch) && |ch| == Times(n, w) && groupScore.Length == n
    modifies groupScore
    ensures groupScore[..] == GroupScores(ch, n, w) && choice[..] == Fins(ch)
  {
    hide Block, Sum2;
    for g := 0 to n
      invariant choice[..] == Fins(ch)
      invariant groupScore[..g] == GroupScoresTo(ch, n, w, g)
    {
      groupScore[g] := TopTwo(choice, ch, n, w, g);
      assert groupScore[..g + 1] == groupScore[..g] + [groupScore[g]];
    }
    assert groupScore[..] == groupScore[..n];
  }

  lemma InBlock(ch: seq<real>, n: nat, w: nat, g: nat, j: nat)
    requires |ch| == Times(n, w) && g < n && j < w
    ensures g * w + j < |ch| && Block(ch, g, n, w)[j] == ch[g * w + j]
  {
    TimesIsProduct(g, w);
    Bounds(g, n, w);
    Within(g, n, j, w);
  }

  /** Marks the best group again and again. */
  method SelectGroups(groupScore: array<real>, topkGroup: nat, groupSelected: array<bool>)
    requires groupSelected.Length == groupScore.Length
    modifies groupSelected
    ensures groupScore[..] == old(groupScore[..])
    ensures forall g :: 0 <= g < groupScore.Length ==>
      groupSelected[g] == (g in Kept(groupScore[..], topkGroup))
  {
    hide Order, BestTo;
    var n := groupScore.Length;
    ghost var scores := groupScore[..];
    ghost var c, o := Fins(scores), Order(Fins(scores));
    for g := 0 to n
      invariant forall x :: 0 <= x < g ==> !groupSelected[x]
    {
      groupSelected[g] := false;
    }
    for rank := 0 to topkGroup
      invariant groupScore[..] == scores
      invariant forall g :: 0 <= g < n ==> groupSelected[g] == (g in o[..Least(rank, |o|)])
    {
      var best := BestGroup(groupScore, groupSelected, o[..Least(rank, |o|)]);
      BestIsNext(c, Least(rank, |o|));
      if best >= 0 {
        groupSelected[best] := true;
        assert o[..rank + 1] == o[..rank] + [o[rank]];
      }
    }
  }

  method BestGroup(groupScore: array<real>, groupSelected: array<bool>, ghost taken: seq<nat>) returns (best: int)
    requires groupSelected.Length == groupScore.Length
    requires forall g :: 0 <= g < groupScore.Length ==> groupSelected[g] == (g in taken)
    ensures best == Best(Fins(groupScore[..]), taken)
  {
    ghost var c := Fins(groupScore[..]);
    var bestValue := FLOOR;
    best := -1;
    for g := 0 to groupScore.Length
      invariant best == BestTo(c, taken, g)
      invariant bestValue == if best < 0 then FLOOR else groupScore[best]
    {
      if !groupSelected[g] && groupScore[g] > bestValue {
        bestValue, best := groupScore[g], g;
      }
    }
  }

  /** Masks the groups that were not selected. */
  method MaskGroups(choice: array<Score>, ghost c: seq<Score>, ghost kept: seq<nat>, n: nat, w: nat,
                    groupSelected: array<bool>)
    requires choice[..] == c && |c| == Times(n, w) && groupSelected.Length == n
    requires forall g :: 0 <= g < n ==> groupSelected[g] == (g in kept)
    modifies choice
    ensures choice[..] == MaskTo(c, kept, n, w, n)
  {
    hide SetBlock;
    for g := 0 to n
      invariant choice[..] == MaskTo(c, kept, n, w, g)
    {
      if !groupSelected[g] {
        MaskGroup(choice, n, w, g);
      }
    }
  }

  method MaskGroup(choice: array<Score>, n: nat, w: nat, g: nat)
    requires choice.Length == Times(n, w) && g < n
    modifies choice
    ensures choice[..] == SetBlock(old(choice[..]), g, n, w, Masks(w))
  {
    TimesIsProduct(g, w);
    Bounds(g, n, w);
    ghost var before := choice[..];
    for j := 0 to w
      invariant forall x :: 0 <= x < choice.Length ==>
        choice[x] == if Times(g, w) <= x < Times(g, w) + j then NegInf else before[x]
    {
      choice[g * w + j] := NegInf;
    }
  }

  /** Picks the best expert again and again; its weight is its probability without the bias. It
      stops at the first rank for which there is none, where the weight is undefined. */
  method SelectExperts(choice: array<Score>, prob: array<real>, topk: nat, indices: array<int>, weights: array<real>)
    returns (filled: nat)
    requires prob.Length == choice.Length && weights != prob
    requires topk <= indices.Length && topk <= weights.Length
    modifies indices, weights
    ensures choice[..] == old(choice[..]) && prob[..] == old(prob[..])
    ensures filled <= topk && filled <= |Order(choice[..])| && indices[..filled] == Order(choice[..])[..filled]
    ensures filled < topk ==> filled == |Order(choice[..])| && indices[filled] == -1
    ensures forall r :: 0 <= r < filled ==> 0 <= indices[r] < prob.Length && weights[r] == prob[indices[r]]
  {
    hide Order, BestTo;
    ghost var c, o := choice[..], Order(choice[..]);
    for rank := 0 to topk
      invariant choice[..] == c && prob[..] == old(prob[..])
      invariant rank <= |o| && indices[..rank] == o[..rank]
      invariant forall r :: 0 <= r < rank ==> 0 <= indices[r] < prob.Length && weights[r] == prob[indices[r]]
    {
      var best := BestExpert(choice, indices, rank);
      BestIsNext(c, rank);
      indices[rank] := best;
      if best < 0 {
        return rank;
      }
      weights[rank] := prob[best];
      assert o[..rank + 1] == o[..rank] + [o[rank]];
      assert indices[..rank + 1] == indices[..rank] + [indices[rank]];
    }
    return topk;
  }

  method BestExpert(choice: array<Score>, indices: array<int>, rank: nat) returns (best: int)
    requires rank <= indices.Length
    ensures best == Best(choice[..], indices[..rank])
  {
    var bestValue := FLOOR;
    best := -1;
    for e := 0 to choice.Length
      invariant best == BestTo(choice[..], indices[..rank], e)
      invariant bestValue == if best < 0 then FLOOR else choice[best].v
    {
      var already := Already(indices, rank, e);
      if !already && choice[e].Fin? && choice[e].v > bestValue {
        bestValue, best := choice[e].v, e;
      }
    }
  }

  method Already(indices: array<int>, rank: nat, e: nat) returns (found: bool)
    requires rank <= indices.Length
    ensures found == (e in indices[..rank])
  {
    found := false;
    for prior := 0 to rank
      invariant found == (e in indices[..prior])
    {
      assert indices[..prior + 1] == indices[..prior] + [indices[prior]];
      if indices[prior] == e {
        assert indices[..rank][prior] == e;
        return true;
      }
    }
  }

  /** Routes one token: `filled` ranks, all that are asked for exactly if there is a candidate for
      each. At the first that has none the index is -1. */
  method Select(sigmoid: real -> real, logits: seq<real>, bias: seq<real>, topk: nat, n: nat, w: nat, topkGroup: nat,
                prob: array<real>, choice: array<Score>, groupScore: array<real>, groupSelected: array<bool>,
                indices: array<int>, weights: array<real>)
    returns (filled: nat)
    requires |bias| == |logits| == prob.Length == choice.Length
    requires groupScore.Length == groupSelected.Length == n && topk <= indices.Length && topk <= weights.Length
    requires prob != groupScore && prob != weights && groupScore != weights
    requires n > 1 ==> |logits| == Times(n, w)
    modifies prob, choice, groupScore, groupSelected, indices, weights
    ensures var ch := Biased(Probs(sigmoid, logits), bias);
      && filled <= topk && Fillable(ch, n, w, topkGroup, filled)
      && indices[..filled] == Selected(ch, n, w, topkGroup, filled)
      && (forall r :: 0 <= r < filled ==> weights[r] == sigmoid(logits[indices[r]]))
      && (filled < topk ==> !Fillable(ch, n, w, topkGroup, filled + 1) && indices[filled] == -1)
  {
    hide Order, Block, SetBlock, GroupScoresTo, MaskTo, Kept;
    ghost var ch := Biased(Probs(sigmoid, logits), bias);
    ScoreExperts(sigmoid, logits, bias, prob, choice);
    if n > 1 {
      ScoreGroups(choice, ch, n, w, groupScore);
      SelectGroups(groupScore, topkGroup, groupSelected);
      MaskGroups(choice, Fins(ch), Kept(GroupScores(ch, n, w), topkGroup), n, w, groupSelected);
    }
    filled := SelectExperts(choice, prob, topk, indices, weights);
    forall r | 0 <= r < filled ensures weights[r] == sigmoid(logits[indices[r]]) {
      assert prob[indices[r]] == prob[..][indices[r]];
    }
  }
}
