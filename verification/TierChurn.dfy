/** Exactly which heats let the hot store swap without end, exceed its number of pins, or take back
    an expert it has evicted. */
module TierChurn {
  import opened Sequences
  import opened TierSwap

  /** A coldest of the experts that wrap. */
  ghost predicate Least(heat: seq<u32>, c: nat) {
    c < |heat| && c in Wrapping(heat) && forall w :: w in Wrapping(heat) ==> heat[c] <= heat[w]
  }

  /** A hottest of the others. */
  ghost predicate Greatest(heat: seq<u32>, x: nat) {
    && x < |heat| && x !in Wrapping(heat)
    && forall y :: 0 <= y < |heat| && y !in Wrapping(heat) ==> heat[y] <= heat[x]
  }

  /** A coldest wrapping expert gives way to a hottest other one: the pick that loses its margin when
      exactly the wrapping experts are pinned. */
  ghost predicate GivesWay(heat: seq<u32>, c: nat, x: nat) {
    Least(heat, c) && Greatest(heat, x) && heat[x] > Threshold(heat[c])
  }

  /** The others for which `c` would be swapped in again. */
  ghost function Colder(heat: seq<u32>, c: nat): (r: set<nat>)
    requires c < |heat|
  {
    set y | 0 <= y < |heat| && y !in Wrapping(heat) && heat[c] > Threshold(heat[y])
  }

  ghost predicate TakesBack(heat: seq<u32>, c: nat, x: nat)
    requires c < |heat| && x < |heat|
  {
    Colder(heat, c) != {} || exists w :: w in Wrapping(heat) && heat[w] > Threshold(heat[x])
  }

  /** More experts wrap than are pinned; or just as many, and a coldest of them and a hottest other
      one each give way to the other. */
  ghost predicate Churns(heat: seq<u32>, npin: nat) {
    npin >= 1 && (|Wrapping(heat)| > npin ||
                  (|Wrapping(heat)| == npin && exists c, x :: GivesWay(heat, c, x) && x in Colder(heat, c)))
  }

  /** Or there are enough colder ones to fill all pins. */
  ghost predicate Exceeds(heat: seq<u32>, npin: nat) {
    Churns(heat, npin) ||
    (npin >= 1 && |Wrapping(heat)| == npin && exists c, x :: GivesWay(heat, c, x) && |Colder(heat, c)| >= npin)
  }

  /** Or there is any colder one, or some wrapping expert would displace a hottest other one. */
  ghost predicate Returns(heat: seq<u32>, npin: nat) {
    npin >= 1 && (|Wrapping(heat)| > npin ||
                  (|Wrapping(heat)| == npin && exists c, x :: GivesWay(heat, c, x) && TakesBack(heat, c, x)))
  }

  // ---------------------------------------------------------------- picks

  lemma Colds(a: u32, b: u32)
    ensures a <= b && NoWrap(b) ==> NoWrap(a) && Threshold(a) <= Threshold(b)
    ensures NoWrap(a) && !NoWrap(b) ==> a < b
    ensures NoWrap(a) ==> Threshold(a) == a + a / 4 + 4
  {
  }

  /** There is a swap if some expert outside is hotter than the threshold of a coldest pin. */
  lemma PickSwaps(s: State, z: nat, e: nat)
    requires InRange(s.heat, s.pinned) && z < |s.pinned| && e < |s.heat| && e !in s.pinned
    requires forall y :: 0 <= y < |s.pinned| ==> HeatOf(s.heat, s.pinned, z) <= HeatOf(s.heat, s.pinned, y)
    requires s.heat[e] > Threshold(HeatOf(s.heat, s.pinned, z))
    ensures PickOf(s.heat, s.pinned).Swap?
  {
    hide Threshold;
    var cold := Coldest(s.heat, s.pinned, |s.pinned|);
    assert HeatOf(s.heat, s.pinned, cold) == HeatOf(s.heat, s.pinned, z);
    assert Hottest(s.heat, s.pinned, |s.heat|) >= 0;
  }

  /** What a swap brings about, whether it keeps its margin or not. */
  lemma PickMoves(s: State)
    requires Proper(s) && PickOf(s.heat, s.pinned).Swap?
    ensures var p := PickOf(s.heat, s.pinned); var out := s.pinned[p.slot];
      && Next(s, TrySwap) == State(s.heat, s.pinned[p.slot := p.eid]) && Proper(Next(s, TrySwap))
      && Elements<nat>(Next(s, TrySwap).pinned) == Elements<nat>(s.pinned) - {out} + {p.eid}
      && out in Elements<nat>(s.pinned) && p.eid !in Elements<nat>(s.pinned) && out < |s.heat|
      && s.heat[p.eid] > Threshold(s.heat[out])
      && (forall e :: e in Elements<nat>(s.pinned) ==> e < |s.heat| && s.heat[out] <= s.heat[e])
      && (forall e :: 0 <= e < |s.heat| && e !in Elements<nat>(s.pinned) ==> s.heat[e] <= s.heat[p.eid])
  {
    PickIs(s.heat, s.pinned);
    NextProper(s, TrySwap);
    var p := PickOf(s.heat, s.pinned);
    hide PickOf, Threshold;
    var after, out := s.pinned[p.slot := p.eid], s.pinned[p.slot];
    forall x: nat ensures x in after <==> x == p.eid || (x in s.pinned && x != out) {
      SwappedIs(s.pinned, p.slot, p.eid, x);
    }
    forall e | e in Elements<nat>(s.pinned) ensures e < |s.heat| && s.heat[out] <= s.heat[e] {
      var z := WhereIs(s.pinned, e);
      assert HeatOf(s.heat, s.pinned, p.slot) <= HeatOf(s.heat, s.pinned, z);
    }
  }

  /** A pinned expert that is coldest among the pins and outdone by one outside makes a swap. */
  lemma Outdone(s: State, c: nat, e: nat)
    requires Proper(s) && c in Elements<nat>(s.pinned) && c < |s.heat| && e < |s.heat| && e !in Elements<nat>(s.pinned)
    requires forall y :: y in Elements<nat>(s.pinned) ==> y < |s.heat| && s.heat[c] <= s.heat[y]
    requires s.heat[e] > Threshold(s.heat[c])
    ensures PickOf(s.heat, s.pinned).Swap?
  {
    hide Threshold, PickOf;
    var z := WhereIs(s.pinned, c);
    forall y | 0 <= y < |s.pinned| ensures HeatOf(s.heat, s.pinned, z) <= HeatOf(s.heat, s.pinned, y) {
      assert s.pinned[y] in Elements<nat>(s.pinned);
    }
    PickSwaps(s, z, e);
  }

  // ---------------------------------------------------------------- where the margin is lost

  /** A pick that loses its margin finds only wrapping experts pinned. */
  lemma LostMargin(s: State)
    requires Proper(s) && !KeepsMargin(s)
    ensures PickOf(s.heat, s.pinned).Swap? && |s.pinned| >= 1
    ensures Elements<nat>(s.pinned) <= Wrapping(s.heat) && |Elements<nat>(s.pinned)| == |s.pinned| <= |Wrapping(s.heat)|
    ensures |Wrapping(s.heat)| == |s.pinned| ==>
      var p := PickOf(s.heat, s.pinned);
      Elements<nat>(s.pinned) == Wrapping(s.heat) && GivesWay(s.heat, s.pinned[p.slot], p.eid)
  {
    MarginIffNoWrap(s.heat, s.pinned);
    PickIs(s.heat, s.pinned);
    PickMoves(s);
    var p := PickOf(s.heat, s.pinned);
    hide PickOf, Threshold, NoWrap, KeepsMargin;
    AllPinsWrap(s, p.slot);
    SubsetCount(Elements<nat>(s.pinned), Wrapping(s.heat));
  }

  lemma {:induction false} FirstLost(s: State, events: seq<Event>) returns (k: nat)
    requires InRange(s.heat, s.pinned) && !MarginKept(s, events)
    ensures k < |events| && events[k] == TrySwap && MarginKept(s, events[..k])
    ensures !KeepsMargin(Run(s, events[..k]))
    decreases |events|
  {
    hide KeepsMargin, Run;
    var n := |events| - 1;
    if MarginKept(s, events[..n]) {
      k := n;
    } else {
      k := FirstLost(s, events[..n]);
      assert events[..n][..k] == events[..k];
    }
  }

  /** After a decay nothing wraps; before one the heats are what they were. */
  lemma {:induction false} HeatsOfRun(s: State, events: seq<Event>)
    requires InRange(s.heat, s.pinned)
    ensures if Decay in events then Wrapping(Run(s, events).heat) == {} else Run(s, events).heat == s.heat
    decreases |events|
  {
    if events != [] {
      var init, last := events[..|events| - 1], events[|events| - 1];
      HeatsOfRun(s, init);
      assert events == init + [last];
      DecayCools(Run(s, init).heat, 0);
      hide Wrapping, Run, PickOf;
      LastStep(s, events);
    }
  }

  // ---------------------------------------------------------------- settled states

  /** No expert outside beats a coldest pin, `x`, by the margin. */
  ghost predicate Settled(s: State, x: nat) {
    && Proper(s) && x in Elements<nat>(s.pinned) && x < |s.heat| && NoWrap(s.heat[x])
    && (forall e :: e in Elements<nat>(s.pinned) ==> e < |s.heat| && s.heat[x] <= s.heat[e])
    && (forall e :: 0 <= e < |s.heat| && e !in Elements<nat>(s.pinned) ==> s.heat[e] <= s.heat[x] + s.heat[x] / 4 + 4)
  }

  lemma SettledStays(s: State, x: nat)
    requires Settled(s, x)
    ensures PickOf(s.heat, s.pinned) == Stay && Next(s, TrySwap) == s
  {
    if PickOf(s.heat, s.pinned).Swap? {
      PickMoves(s);
      hide PickOf;
    }
  }

  lemma HalfMargin(e: u32, x: u32)
    requires e <= x + x / 4 + 4
    ensures e / 2 <= x / 2 + x / 2 / 4 + 4
  {
  }

  lemma SettledCools(s: State, x: nat)
    requires Settled(s, x)
    ensures Settled(Next(s, Decay), x) && Next(s, Decay).pinned == s.pinned
  {
    var r := Next(s, Decay);
    forall e | 0 <= e < |r.heat| && e !in Elements<nat>(r.pinned)
      ensures r.heat[e] <= r.heat[x] + r.heat[x] / 4 + 4
    {
      HalfMargin(s.heat[e], s.heat[x]);
    }
  }

  lemma {:induction false} SettledRun(s: State, x: nat, events: seq<Event>)
    requires Settled(s, x)
    ensures Settled(Run(s, events), x) && Run(s, events).pinned == s.pinned
    ensures SwappedIn(s, events) == [] && SwappedOut(s, events) == []
    decreases |events|
  {
    if events != [] {
      hide Settled, PickOf;
      var init, last := events[..|events| - 1], events[|events| - 1];
      assert Proper(s) by { SettledProper(s, x); }
      SettledRun(s, x, init);
      LastStep(s, events);
      hide Run, SwappedIn, SwappedOut, Next;
      if last.Decay? { SettledCools(Run(s, init), x); } else { SettledStays(Run(s, init), x); }
    }
  }

  lemma SettledProper(s: State, x: nat)
    requires Settled(s, x)
    ensures Proper(s)
  {
  }

  /** Once a coldest wrapping expert has given way, and cannot come back, nothing moves any more. */
  lemma TurnedSettles(s: State)
    requires Proper(s) && !KeepsMargin(s) && |Wrapping(s.heat)| == |s.pinned|
    requires !Churns(s.heat, |s.pinned|)
    ensures PickOf(s.heat, s.pinned).Swap? && Settled(Next(s, TrySwap), PickOf(s.heat, s.pinned).eid)
  {
    LostMargin(s);
    PickMoves(s);
    var p := PickOf(s.heat, s.pinned);
    var c, x := s.pinned[p.slot], p.eid;
    hide PickOf, Threshold, NoWrap, KeepsMargin, Next;
    assert GivesWay(s.heat, c, x);
    assert x !in Colder(s.heat, c);
    assert NoWrap(s.heat[x]);
    Colds(s.heat[x], s.heat[x]);
    var r := Next(s, TrySwap);
    forall e | e in Elements<nat>(r.pinned) ensures e < |s.heat| && s.heat[x] <= s.heat[e] {
      if e != x { Colds(s.heat[x], s.heat[e]); }
    }
    forall e | 0 <= e < |s.heat| && e !in Elements<nat>(r.pinned)
      ensures s.heat[e] <= s.heat[x] + s.heat[x] / 4 + 4
    {
      assert e == c || e !in Elements<nat>(s.pinned);
    }
  }

  // ---------------------------------------------------------------- a run in which one swap loses its margin

  /** Where the margin is lost nothing has been decayed yet. */
  lemma LostAt(s: State, a: seq<Event>)
    requires Proper(s) && !Churns(s.heat, |s.pinned|) && !KeepsMargin(Run(s, a))
    ensures Decay !in a && Run(s, a).heat == s.heat && Proper(Run(s, a)) && |Run(s, a).pinned| == |s.pinned|
    ensures |s.pinned| >= 1 && |Wrapping(s.heat)| == |s.pinned|
  {
    RunProper(s, a);
    HeatsOfRun(s, a);
    hide Wrapping, Run, PickOf, KeepsMargin, InRange, Distinct, Elements;
    LostMargin(Run(s, a));
  }

  /** Without churning heats: up to the one swap that loses its margin nothing is decayed, and after
      it nothing moves. */
  lemma OneTurn(s: State, events: seq<Event>, k: nat) returns (m: State, out: nat, x: nat)
    requires Proper(s) && !Churns(s.heat, |s.pinned|)
    requires k < |events| && events[k] == TrySwap && !KeepsMargin(Run(s, events[..k]))
    ensures m == Run(s, events[..k]) && Decay !in events[..k] && m.heat == s.heat && Proper(m)
    ensures |m.pinned| == |s.pinned| && Elements<nat>(m.pinned) == Wrapping(s.heat)
    ensures GivesWay(s.heat, out, x)
    ensures SwappedIn(s, events) == SwappedIn(s, events[..k]) + [x]
    ensures SwappedOut(s, events) == SwappedOut(s, events[..k]) + [out]
    ensures Elements<nat>(Run(s, events).pinned) == Elements<nat>(m.pinned) - {out} + {x}
  {
    ProperInRange(s);
    hide *;
    m := Run(s, events[..k]);
    LostAt(s, events[..k]);
    ProperInRange(m);
    LostMargin(m);
    TurnedSettles(m);
    PickMoves(m);
    var p := PickOf(m.heat, m.pinned);
    out, x := m.pinned[p.slot], p.eid;
    NothingAfter(s, events, k, x);
  }

  lemma NothingAfter(s: State, events: seq<Event>, k: nat, x: nat)
    requires InRange(s.heat, s.pinned) && k < |events| && events[k] == TrySwap
    requires Settled(Next(Run(s, events[..k]), TrySwap), x)
    requires PickOf(Run(s, events[..k]).heat, Run(s, events[..k]).pinned).Swap?
    ensures var m := Run(s, events[..k]); var p := PickOf(m.heat, m.pinned);
      && Run(s, events).pinned == Next(m, TrySwap).pinned
      && SwappedIn(s, events) == SwappedIn(s, events[..k]) + [p.eid]
      && SwappedOut(s, events) == SwappedOut(s, events[..k]) + [m.pinned[p.slot]]
  {
    hide *;
    var a, b := events[..k], events[k + 1..];
    assert events == (a + [TrySwap]) + b;
    RunSplit(s, a, TrySwap);
    RunConcat(s, a + [TrySwap], b);
    SettledRun(Next(Run(s, a), TrySwap), x, b);
    AddNone(SwappedIn(s, a + [TrySwap]));
    AddNone(SwappedOut(s, a + [TrySwap]));
  }

  lemma AddNone(l: seq<nat>)
    ensures l + [] == l
  {
  }

  // ---------------------------------------------------------------- swaps that must end

  /** No more swaps than pins and one. */
  ghost predicate SwapsEnd(heat: seq<u32>, npin: nat, most: nat) {
    forall pinned: seq<nat>, events: seq<Event> ::
      Proper(State(heat, pinned)) && |pinned| == npin ==> |SwappedIn(State(heat, pinned), events)| <= most
  }

  lemma CalmRun(s: State, events: seq<Event>)
    requires Proper(s) && !Churns(s.heat, |s.pinned|)
    ensures |SwappedIn(s, events)| <= |s.pinned| + 1
  {
    hide *;
    assert InRange(s.heat, s.pinned) by { ProperInRange(s); }
    if MarginKept(s, events) {
      AtMostNpinSwaps(s, events);
    } else {
      var k := FirstLost(s, events);
      var m, out, x := OneTurn(s, events, k);
      AtMostNpinSwaps(s, events[..k]);
    }
  }

  lemma ProperInRange(s: State)
    requires Proper(s)
    ensures InRange(s.heat, s.pinned)
  {
  }

  // ---------------------------------------------------------------- swaps without end

  /** Only wrapping experts are pinned, and not all of them. */
  ghost predicate Crowded(s: State) {
    Proper(s) && |s.pinned| >= 1 && |Wrapping(s.heat)| > |s.pinned| && Elements<nat>(s.pinned) <= Wrapping(s.heat)
  }

  /** The wrapping experts are pinned, or all but one that has given way. */
  ghost predicate Turning(s: State, c: nat, x: nat) {
    && Proper(s) && |s.pinned| >= 1 && |Wrapping(s.heat)| == |s.pinned|
    && GivesWay(s.heat, c, x) && x in Colder(s.heat, c)
    && (Elements<nat>(s.pinned) == Wrapping(s.heat) || Elements<nat>(s.pinned) == Wrapping(s.heat) - {c} + {x})
  }

  /** A state of churning heats in which a swap is due. */
  ghost predicate Churning(s: State) {
    Crowded(s) || exists c, x :: Turning(s, c, x)
  }

  /** More wrap than are pinned: an outside one always beats the wrapped threshold. */
  lemma ManyWrap(s: State)
    requires Crowded(s)
    ensures InRange(s.heat, s.pinned)
    ensures PickOf(s.heat, s.pinned).Swap? && Crowded(Next(s, TrySwap))
  {
    var w, pins := Wrapping(s.heat), Elements<nat>(s.pinned);
    DistinctCount(s.pinned);
    if w <= pins { SubsetCount(w, pins); }
    var e :| e in w && e !in pins;
    var z := Coldest(s.heat, s.pinned, |s.pinned|);
    hide Threshold, PickOf, NoWrap;
    assert s.pinned[z] in pins;
    WrappedThreshold(s.heat[s.pinned[z]]);
    PickSwaps(s, z, e);
    PickMoves(s);
    hide Next;
    var p := PickOf(s.heat, s.pinned);
    if p.eid !in w { Colds(s.heat[p.eid], s.heat[e]); }
  }

  /** As many wrap as are pinned, and all of them are pinned. */
  lemma TurnsOver(s: State, c: nat, x: nat)
    requires Proper(s) && |s.pinned| >= 1 && GivesWay(s.heat, c, x) && Elements<nat>(s.pinned) == Wrapping(s.heat)
    ensures PickOf(s.heat, s.pinned).Swap?
    ensures var p := PickOf(s.heat, s.pinned);
      && GivesWay(s.heat, s.pinned[p.slot], p.eid)
      && s.heat[s.pinned[p.slot]] == s.heat[c] && s.heat[p.eid] == s.heat[x]
  {
    hide Threshold, PickOf, NoWrap;
    Outdone(s, c, x);
    PickMoves(s);
    hide Next;
  }

  /** One of them has given way, to a `y` that it would displace. */
  lemma TurnsBack(s: State, c: nat, y: nat)
    requires Proper(s) && c in Wrapping(s.heat) && y in Colder(s.heat, c)
    requires Elements<nat>(s.pinned) == Wrapping(s.heat) - {c} + {y}
    ensures PickOf(s.heat, s.pinned).Swap?
    ensures PickOf(s.heat, s.pinned).eid == c && s.pinned[PickOf(s.heat, s.pinned).slot] == y
  {
    hide PickOf, Threshold;
    forall e | e in Wrapping(s.heat) ensures s.heat[y] < s.heat[e] { Colds(s.heat[y], s.heat[e]); }
    assert y in Elements<nat>(s.pinned) && c !in Elements<nat>(s.pinned);
    forall e | e in Elements<nat>(s.pinned) ensures e < |s.heat| && s.heat[y] <= s.heat[e] {
      assert e in Wrapping(s.heat) - {c} + {y};
    }
    Outdone(s, y, c);
    PickMoves(s);
    hide Next;
    var p := PickOf(s.heat, s.pinned);
    if p.eid !in Wrapping(s.heat) { Colds(s.heat[p.eid], s.heat[c]); }
  }

  lemma TurningStep(s: State, c: nat, x: nat)
    requires Turning(s, c, x)
    ensures InRange(s.heat, s.pinned)
    ensures PickOf(s.heat, s.pinned).Swap? && Churning(Next(s, TrySwap))
  {
    hide Threshold, PickOf, NoWrap, Wrapping, Next, Elements, InRange, Distinct;
    if Elements<nat>(s.pinned) == Wrapping(s.heat) {
      TurnsOver(s, c, x);
      PickMoves(s);
      var p := PickOf(s.heat, s.pinned);
      ColderAlike(s.heat, c, x, s.pinned[p.slot], p.eid);
      assert Turning(Next(s, TrySwap), s.pinned[p.slot], p.eid);
    } else {
      TurnsBack(s, c, x);
      PickMoves(s);
      assert x !in Wrapping(s.heat) && c in Wrapping(s.heat);
      assert Wrapping(s.heat) - {c} + {x} - {x} + {c} == Wrapping(s.heat);
      assert Turning(Next(s, TrySwap), c, x);
    }
  }

  lemma ColderAlike(heat: seq<u32>, c: nat, x: nat, c': nat, x': nat)
    requires c < |heat| && c' < |heat| && x in Colder(heat, c) && heat[c] == heat[c']
    requires x' < |heat| && x' !in Wrapping(heat) && heat[x] == heat[x']
    ensures x' in Colder(heat, c')
  {
  }

  lemma ChurningStep(s: State)
    requires Churning(s)
    ensures InRange(s.heat, s.pinned) && PickOf(s.heat, s.pinned).Swap? && Churning(Next(s, TrySwap))
  {
    hide PickOf, Next, Turning, Crowded;
    if Crowded(s) {
      ManyWrap(s);
    } else {
      var c: nat, x: nat :| Turning(s, c, x);
      TurningStep(s, c, x);
    }
  }

  lemma {:induction false} ChurnsOn(s: State, n: nat)
    requires InRange(s.heat, s.pinned) && Churning(s)
    ensures Churning(Run(s, Tries(n))) && |SwappedIn(s, Tries(n))| == n
  {
    hide *;
    if n == 0 {
      NoTries(s);
    } else {
      ChurnsOn(s, n - 1);
      OneTry(s, n);
      ChurningStep(Run(s, Tries(n - 1)));
    }
  }

  /** Churning heats have a pinning from which every try is a swap, without end. */
  lemma ChurnsForever(heat: seq<u32>, npin: nat) returns (pinned: seq<nat>)
    requires Churns(heat, npin)
    ensures Proper(State(heat, pinned)) && |pinned| == npin
    ensures forall n: nat :: |SwappedIn(State(heat, pinned), Tries(n))| == n
  {
    pinned := ListOf(Wrapping(heat), npin);
    var s := State(heat, pinned);
    ListedWrap(s, npin);
    if |Wrapping(heat)| > npin {
      assert Crowded(s);
    } else {
      var c: nat, x: nat :| GivesWay(heat, c, x) && x in Colder(heat, c);
      assert Turning(s, c, x);
    }
    forall n: nat ensures |SwappedIn(s, Tries(n))| == n {
      ChurnsOn(s, n);
    }
  }

  lemma ListedWrap(s: State, npin: nat)
    requires |s.pinned| == npin && Distinct(s.pinned) && npin <= |Wrapping(s.heat)|
    requires forall i :: 0 <= i < npin ==> s.pinned[i] in Wrapping(s.heat)
    ensures Proper(s) && Elements<nat>(s.pinned) <= Wrapping(s.heat)
    ensures npin == |Wrapping(s.heat)| ==> Elements<nat>(s.pinned) == Wrapping(s.heat)
  {
    DistinctCount(s.pinned);
    SubsetCount(Elements<nat>(s.pinned), Wrapping(s.heat));
  }

  /** Swapping always ends, after at most one swap more than there are pins, exactly if the heats do
      not churn. */
  lemma EndsIff(heat: seq<u32>, npin: nat)
    ensures SwapsEnd(heat, npin, npin + 1) <==> !Churns(heat, npin)
  {
    if Churns(heat, npin) {
      var pinned := ChurnsForever(heat, npin);
      assert |SwappedIn(State(heat, pinned), Tries(npin + 2))| == npin + 2;
    } else {
      hide Churns, SwappedIn;
      forall pinned: seq<nat>, events: seq<Event> | Proper(State(heat, pinned)) && |pinned| == npin
        ensures |SwappedIn(State(heat, pinned), events)| <= npin + 1
      {
        CalmRun(State(heat, pinned), events);
      }
    }
  }

  // ---------------------------------------------------------------- no more swaps than pins

  /** Whatever came in would displace whatever went out. */
  ghost predicate Ranked(heat: seq<u32>, ins: seq<nat>, outs: seq<nat>) {
    && (forall i :: 0 <= i < |ins| ==> ins[i] < |heat|)
    && (forall o :: 0 <= o < |outs| ==> outs[o] < |heat| && NoWrap(heat[outs[o]]))
    && (forall i, o :: 0 <= i < |ins| && 0 <= o < |outs| ==> heat[ins[i]] > Threshold(heat[outs[o]]))
  }

  lemma {:induction false} RankedRun(s: State, events: seq<Event>)
    requires Proper(s) && MarginKept(s, events) && Decay !in events
    ensures Ranked(s.heat, SwappedIn(s, events), SwappedOut(s, events)) && Run(s, events).heat == s.heat
    ensures |SwappedIn(s, events)| == |SwappedOut(s, events)|
    decreases |events|
  {
    HeatsOfRun(s, events);
    if events != [] {
      var init, last := events[..|events| - 1], events[|events| - 1];
      assert last in events;
      RankedRun(s, init);
      RunKeeps(s, init);
      LastStep(s, events);
      var before := Run(s, init);
      hide *;
      ProperInRange(before);
      if PickOf(before.heat, before.pinned).Swap? {
        RankedStep(before, SwappedIn(s, init), SwappedOut(s, init));
      }
    }
  }

  lemma RankedStep(s: State, ins: seq<nat>, outs: seq<nat>)
    requires Proper(s) && KeepsMargin(s) && PickOf(s.heat, s.pinned).Swap?
    requires InsStay(s, ins) && OutsStay(s, outs) && Ranked(s.heat, ins, outs)
    ensures var p := PickOf(s.heat, s.pinned);
      Ranked(s.heat, ins + [p.eid], outs + [s.pinned[p.slot]])
  {
    SwapIs(s);
    MarginIffNoWrap(s.heat, s.pinned);
    PickIs(s.heat, s.pinned);
    var p := PickOf(s.heat, s.pinned);
    var out := s.pinned[p.slot];
    hide PickOf, Threshold, NoWrap, KeepsMargin;
    forall i | 0 <= i < |ins| ensures s.heat[ins[i]] > Threshold(s.heat[out]) {
      assert s.heat[p.eid] <= s.heat[ins[i]];
    }
    forall o | 0 <= o < |outs| ensures s.heat[p.eid] > Threshold(s.heat[outs[o]]) {
      Colds(s.heat[outs[o]], s.heat[out]);
    }
  }

  /** If all pins were changed before the margin is lost, there are as many colder experts as pins. */
  lemma AllChanged(m: State, ins: seq<nat>, outs: seq<nat>, c: nat, x: nat)
    requires Proper(m) && Elements<nat>(m.pinned) == Wrapping(m.heat) && GivesWay(m.heat, c, x)
    requires InsStay(m, ins) && OutsStay(m, outs) && Ranked(m.heat, ins, outs) && |ins| == |outs| == |m.pinned|
    ensures |m.pinned| <= |Colder(m.heat, c)|
  {
    hide Threshold, NoWrap, Wrapping;
    DistinctCount(ins);
    DistinctCount(outs);
    DistinctCount(m.pinned);
    SubsetCount(Elements<nat>(ins), Elements<nat>(m.pinned));
    assert c in Elements<nat>(ins);
    var i := WhereIs(ins, c);
    forall y | y in Elements<nat>(outs) ensures y in Colder(m.heat, c) {
      var o := WhereIs(outs, y);
      assert m.heat[ins[i]] > Threshold(m.heat[outs[o]]);
    }
    SubsetCount(Elements<nat>(outs), Colder(m.heat, c));
  }

  lemma WithinPins(s: State, events: seq<Event>)
    requires Proper(s) && !Exceeds(s.heat, |s.pinned|)
    ensures |SwappedIn(s, events)| <= |s.pinned|
  {
    ProperInRange(s);
    if MarginKept(s, events) {
      AtMostNpinSwaps(s, events);
    } else {
      hide Threshold, Wrapping, KeepsMargin, PickOf, Run, SwappedIn, SwappedOut, MarginKept, InsStay, OutsStay, Ranked,
        Colder, Distinct, InRange;
      var k := FirstLost(s, events);
      var m, out, x := OneTurn(s, events, k);
      AtMostNpinSwaps(s, events[..k]);
      if |SwappedIn(s, events[..k])| == |s.pinned| {
        RunKeeps(s, events[..k]);
        RankedRun(s, events[..k]);
        AllChanged(m, SwappedIn(s, events[..k]), SwappedOut(s, events[..k]), out, x);
        DistinctCount(m.pinned);
        assert |Wrapping(s.heat)| == |s.pinned|;
        Crossing(s.heat, |s.pinned|, out, x);
        assert false;
      }
    }
  }

  lemma Crossing(heat: seq<u32>, npin: nat, c: nat, x: nat)
    requires |Wrapping(heat)| == npin && GivesWay(heat, c, x) && |Colder(heat, c)| >= npin
    ensures npin == 0 || Exceeds(heat, npin)
  {
  }

  /** All pins are wrapping or colder experts, `j` of them colder ones. */
  ghost predicate Climbing(s: State, c: nat, x: nat, j: nat) {
    && Proper(s) && |s.pinned| >= 1 && |Wrapping(s.heat)| == |s.pinned| && GivesWay(s.heat, c, x)
    && Elements<nat>(s.pinned) <= Wrapping(s.heat) + Colder(s.heat, c)
    && |Elements<nat>(s.pinned) - Wrapping(s.heat)| == j
  }

  lemma ClimbSwaps(s: State, c: nat, x: nat, j: nat)
    requires Climbing(s, c, x, j) && j > 0
    ensures InRange(s.heat, s.pinned) && PickOf(s.heat, s.pinned).Swap?
    ensures exists e :: e in Wrapping(s.heat) && e !in Elements<nat>(s.pinned)
  {
    var w, pins := Wrapping(s.heat), Elements<nat>(s.pinned);
    hide Threshold, NoWrap, PickOf;
    DistinctCount(s.pinned);
    if w <= pins { SubsetCount(w, pins); }
    var e :| e in w && e !in pins;
    var cold := s.pinned[Coldest(s.heat, s.pinned, |s.pinned|)];
    ColdestPin(s);
    var y :| y in pins - w;
    ColdPin(s.heat, cold, y);
    Outdone(s, cold, e);
  }

  lemma ClimbSets(w: set<nat>, colder: set<nat>, pins: set<nat>, out: nat, e: nat)
    requires pins <= w + colder && out in pins && out !in w && e in w
    ensures pins - {out} + {e} <= w + colder && |pins - {out} + {e} - w| == |pins - w| - 1
  {
    assert pins - {out} + {e} - w == (pins - w) - {out};
  }

  /** Each try exchanges a colder expert for a wrapping one. */
  lemma ClimbStep(s: State, c: nat, x: nat, j: nat)
    requires Climbing(s, c, x, j) && j > 0
    ensures InRange(s.heat, s.pinned) && PickOf(s.heat, s.pinned).Swap? && Climbing(Next(s, TrySwap), c, x, j - 1)
  {
    ClimbSwaps(s, c, x, j);
    PickMoves(s);
    var w, pins := Wrapping(s.heat), Elements<nat>(s.pinned);
    var p := PickOf(s.heat, s.pinned);
    var out := s.pinned[p.slot];
    hide Threshold, NoWrap, PickOf, Next, Elements, Colder;
    var e :| e in w && e !in pins;
    var y :| y in pins - w;
    ColdPin(s.heat, out, y);
    WarmPin(s.heat, p.eid, e);
    ClimbSets(w, Colder(s.heat, c), pins, out, p.eid);
  }

  lemma ColdestPin(s: State)
    requires Proper(s) && |s.pinned| >= 1
    ensures var c := s.pinned[Coldest(s.heat, s.pinned, |s.pinned|)];
      && c in Elements<nat>(s.pinned)
      && forall e :: e in Elements<nat>(s.pinned) ==> e < |s.heat| && s.heat[c] <= s.heat[e]
  {
    var z := Coldest(s.heat, s.pinned, |s.pinned|);
    forall e | e in Elements<nat>(s.pinned) ensures e < |s.heat| && s.heat[s.pinned[z]] <= s.heat[e] {
      var y := WhereIs(s.pinned, e);
      assert HeatOf(s.heat, s.pinned, z) <= HeatOf(s.heat, s.pinned, y);
    }
  }

  lemma ColdPin(heat: seq<u32>, a: nat, y: nat)
    requires a < |heat| && y < |heat| && y !in Wrapping(heat) && heat[a] <= heat[y]
    ensures a !in Wrapping(heat)
  {
    Colds(heat[a], heat[y]);
  }

  lemma WarmPin(heat: seq<u32>, a: nat, e: nat)
    requires a < |heat| && e < |heat| && e in Wrapping(heat) && heat[e] <= heat[a]
    ensures a in Wrapping(heat)
  {
    Colds(heat[e], heat[a]);
  }

  lemma {:induction false} Climb(s: State, c: nat, x: nat, n: nat)
    requires InRange(s.heat, s.pinned) && n <= |s.pinned| && Climbing(s, c, x, |s.pinned|)
    ensures Climbing(Run(s, Tries(n)), c, x, |s.pinned| - n) && |SwappedIn(s, Tries(n))| == n
  {
    hide *;
    if n == 0 {
      NoTries(s);
    } else {
      Climb(s, c, x, n - 1);
      OneTry(s, n);
      ClimbStep(Run(s, Tries(n - 1)), c, x, |s.pinned| - n + 1);
    }
  }

  /** When all of them are wrapping experts, one more swap is due. */
  lemma AtTop(s: State, c: nat, x: nat)
    requires Climbing(s, c, x, 0)
    ensures InRange(s.heat, s.pinned) && PickOf(s.heat, s.pinned).Swap?
  {
    hide Threshold, NoWrap, PickOf, Colder;
    DistinctCount(s.pinned);
    assert Elements<nat>(s.pinned) <= Wrapping(s.heat);
    SubsetCount(Elements<nat>(s.pinned), Wrapping(s.heat));
    TurnsOver(s, c, x);
  }

  lemma OneTooMany(heat: seq<u32>, npin: nat, c: nat, x: nat) returns (pinned: seq<nat>)
    requires npin >= 1 && |Wrapping(heat)| == npin && GivesWay(heat, c, x) && |Colder(heat, c)| >= npin
    ensures Proper(State(heat, pinned)) && |pinned| == npin
    ensures |SwappedIn(State(heat, pinned), Tries(npin + 1))| == npin + 1
  {
    hide Threshold, NoWrap, Run, SwappedIn, PickOf;
    pinned := ListOf(Colder(heat, c), npin);
    var s := State(heat, pinned);
    DistinctCount(pinned);
    assert Elements<nat>(pinned) - Wrapping(heat) == Elements<nat>(pinned);
    assert Climbing(s, c, x, npin);
    Climb(s, c, x, npin);
    AtTop(Run(s, Tries(npin)), c, x);
    OneMoreTry(npin + 1);
    LastStep(s, Tries(npin + 1));
  }

  /** There are never more swaps than pins exactly if the heats neither churn nor let the wrapping
      experts displace a full set of colder ones before one of them gives way. */
  lemma AtMostPinsIff(heat: seq<u32>, npin: nat)
    ensures SwapsEnd(heat, npin, npin) <==> !Exceeds(heat, npin)
  {
    hide Threshold, NoWrap, Run, SwappedIn, PickOf;
    if Exceeds(heat, npin) {
      var pinned: seq<nat>;
      if Churns(heat, npin) {
        pinned := ChurnsForever(heat, npin);
      } else {
        var c: nat, x: nat :| GivesWay(heat, c, x) && |Colder(heat, c)| >= npin;
        pinned := OneTooMany(heat, npin, c, x);
      }
      assert |SwappedIn(State(heat, pinned), Tries(npin + 1))| == npin + 1;
    } else {
      forall pinned: seq<nat>, events: seq<Event> | Proper(State(heat, pinned)) && |pinned| == npin
        ensures |SwappedIn(State(heat, pinned), events)| <= npin
      {
        WithinPins(State(heat, pinned), events);
      }
    }
  }

  // ---------------------------------------------------------------- nothing returns

  /** What came in is pinned and what went out is not. */
  predicate NoneReturned(s: State, events: seq<Event>)
    requires InRange(s.heat, s.pinned)
  {
    && (forall i :: 0 <= i < |SwappedIn(s, events)| ==> SwappedIn(s, events)[i] in Run(s, events).pinned)
    && (forall i :: 0 <= i < |SwappedOut(s, events)| ==> SwappedOut(s, events)[i] !in Run(s, events).pinned)
  }

  /** At no time from any proper pinning has an expert come back, or one that came in gone again. */
  ghost predicate NothingReturns(heat: seq<u32>, npin: nat) {
    forall pinned: seq<nat>, events: seq<Event> ::
      Proper(State(heat, pinned)) && |pinned| == npin ==> NoneReturned(State(heat, pinned), events)
  }

  lemma KeptNoneReturned(s: State, events: seq<Event>)
    requires Proper(s) && MarginKept(s, events)
    ensures NoneReturned(s, events)
  {
    RunKeeps(s, events);
    hide Run, SwappedIn, SwappedOut, MarginKept;
  }

  /** If the swap that loses its margin evicts what came in, or brings back what went out, the heats
      are such that this can happen. */
  lemma TakenBack(m: State, ins: seq<nat>, outs: seq<nat>, c: nat, x: nat)
    requires Proper(m) && Elements<nat>(m.pinned) == Wrapping(m.heat) && GivesWay(m.heat, c, x)
    requires InsStay(m, ins) && OutsStay(m, outs) && Ranked(m.heat, ins, outs) && |ins| == |outs|
    requires c in ins || x in outs
    ensures TakesBack(m.heat, c, x)
  {
    hide Threshold, NoWrap, Wrapping;
    if c in ins {
      var i := WhereIs(ins, c);
      assert m.heat[ins[i]] > Threshold(m.heat[outs[0]]);
      assert outs[0] !in Elements<nat>(m.pinned);
      assert outs[0] in Colder(m.heat, c);
    } else {
      var o := WhereIs(outs, x);
      assert m.heat[ins[0]] > Threshold(m.heat[outs[o]]);
      assert ins[0] in Elements<nat>(m.pinned);
    }
  }

  lemma NoneReturn(s: State, events: seq<Event>)
    requires Proper(s) && !Returns(s.heat, |s.pinned|)
    ensures NoneReturned(s, events)
  {
    ProperInRange(s);
    if MarginKept(s, events) {
      KeptNoneReturned(s, events);
    } else {
      if Churns(s.heat, |s.pinned|) { ChurnsReturn(s.heat, |s.pinned|); }
      hide Threshold, Wrapping, KeepsMargin, PickOf, Run, SwappedIn, SwappedOut, MarginKept, Ranked,
        Colder, Distinct, InRange, TakesBack, Churns;
      var k := FirstLost(s, events);
      var m, out, x := OneTurn(s, events, k);
      RunKeeps(s, events[..k]);
      RankedRun(s, events[..k]);
      DistinctCount(m.pinned);
      assert !TakesBack(s.heat, out, x);
      var ins, outs := SwappedIn(s, events[..k]), SwappedOut(s, events[..k]);
      if out in ins || x in outs {
        TakenBack(m, ins, outs, out, x);
        assert false;
      }
      TurnNoneReturned(m, ins, outs, out, x, Run(s, events).pinned);
    }
  }

  lemma ChurnsReturn(heat: seq<u32>, npin: nat)
    requires Churns(heat, npin)
    ensures Returns(heat, npin)
  {
    hide Threshold, Wrapping;
    if |Wrapping(heat)| == npin {
      var c: nat, x: nat :| GivesWay(heat, c, x) && x in Colder(heat, c);
      assert TakesBack(heat, c, x);
    }
  }

  lemma TurnNoneReturned(m: State, ins: seq<nat>, outs: seq<nat>, c: nat, x: nat, after: seq<nat>)
    requires InsStay(m, ins) && OutsStay(m, outs) && c !in ins && x !in outs
    requires c in Elements<nat>(m.pinned) && x !in Elements<nat>(m.pinned)
    requires Elements<nat>(after) == Elements<nat>(m.pinned) - {c} + {x}
    ensures forall i :: 0 <= i < |ins + [x]| ==> (ins + [x])[i] in after
    ensures forall i :: 0 <= i < |outs + [c]| ==> (outs + [c])[i] !in after
  {
    forall e: nat ensures e in after <==> (e in m.pinned && e != c) || e == x {
      assert e in after <==> e in Elements<nat>(after);
    }
  }

  /** If nothing returns, each swap brings in an expert not seen before, so that there are no more
      swaps than pins. */
  lemma {:induction false} FreshSwaps(s: State, n: nat)
    requires Proper(s) && InRange(s.heat, s.pinned)
    requires forall k: nat :: k <= n ==> NoneReturned(s, Tries(k))
    ensures Distinct(SwappedIn(s, Tries(n))) && |SwappedIn(s, Tries(n))| <= |s.pinned|
  {
    hide Run, PickOf, NoneReturned;
    if n > 0 {
      FreshSwaps(s, n - 1);
      FreshSwap(s, n);
    }
    RunProper(s, Tries(n));
    Within(s, n);
  }

  lemma FreshSwap(s: State, n: nat)
    requires Proper(s) && n > 0 && NoneReturned(s, Tries(n - 1)) && Distinct(SwappedIn(s, Tries(n - 1)))
    ensures Distinct(SwappedIn(s, Tries(n)))
  {
    OneMoreTry(n);
    LastStep(s, Tries(n));
    hide Run, SwappedIn, SwappedOut, Next;
  }

  lemma Within(s: State, n: nat)
    requires Proper(s) && NoneReturned(s, Tries(n)) && Distinct(SwappedIn(s, Tries(n)))
    requires Proper(Run(s, Tries(n))) && |Run(s, Tries(n)).pinned| == |s.pinned|
    ensures |SwappedIn(s, Tries(n))| <= |s.pinned|
  {
    hide Run, SwappedIn, SwappedOut;
    var ins, pinned := SwappedIn(s, Tries(n)), Run(s, Tries(n)).pinned;
    DistinctCount(ins);
    DistinctCount(pinned);
    SubsetCount(Elements<nat>(ins), Elements<nat>(pinned));
  }

  /** Two tries, each of them a swap. */
  lemma TwoTries(s: State)
    requires InRange(s.heat, s.pinned)
    ensures Run(s, Tries(2)) == Next(Next(s, TrySwap), TrySwap)
    ensures var t := Next(s, TrySwap); var p, q := PickOf(s.heat, s.pinned), PickOf(t.heat, t.pinned);
      p.Swap? && q.Swap? ==>
        && SwappedIn(s, Tries(2)) == [p.eid, q.eid]
        && SwappedOut(s, Tries(2)) == [s.pinned[p.slot], t.pinned[q.slot]]
  {
    NoTry(s);
    hide *;
    RunSplit(s, [], TrySwap);
    RunSplit(s, [TrySwap], TrySwap);
  }

  lemma NoTry(s: State)
    requires InRange(s.heat, s.pinned)
    ensures Tries(1) == [] + [TrySwap] == [TrySwap] && Tries(2) == [TrySwap] + [TrySwap]
    ensures Run(s, []) == s && SwappedIn(s, []) == SwappedOut(s, []) == []
  {
  }

  /** A list of a set's members in which `y` stands for `e`, in the first place. */
  lemma StandIn(w: set<nat>, y: nat, e: nat) returns (l: seq<nat>)
    requires e in w && y !in w
    ensures Distinct(l) && |l| == |w| && l[0] == y
    ensures Elements<nat>(l) == w - {e} + {y} && Elements<nat>(l[0 := e]) == w
  {
    var rest := ListOf(w - {e}, |w| - 1);
    l := [y] + rest;
    DistinctCount(rest);
    SubsetCount(Elements<nat>(rest), w - {e});
    assert l[0 := e] == [e] + rest;
    FrontElements(y, rest);
    FrontElements(e, rest);
  }

  lemma FrontElements(y: nat, rest: seq<nat>)
    ensures Elements<nat>([y] + rest) == {y} + Elements<nat>(rest)
  {
    forall x: nat ensures x in [y] + rest <==> x == y || x in rest {
      if x in rest {
        var i := WhereIs(rest, x);
        assert ([y] + rest)[i + 1] == x;
      }
    }
  }

  /** From such a pinning the first try puts the wrapping expert in. */
  lemma FirstSlot(s: State, y: nat, w: nat)
    requires Proper(s) && s.pinned != [] && s.pinned[0] == y
    requires w in Wrapping(s.heat) && y in Colder(s.heat, w)
    requires Elements<nat>(s.pinned) == Wrapping(s.heat) - {w} + {y}
    ensures PickOf(s.heat, s.pinned).Swap? && PickOf(s.heat, s.pinned).eid == w && PickOf(s.heat, s.pinned).slot == 0
    ensures Next(s, TrySwap) == State(s.heat, s.pinned[0 := w]) && Proper(Next(s, TrySwap))
  {
    hide Threshold, NoWrap;
    TurnsBack(s, w, y);
    PickMoves(s);
  }

  /** After a stand-in's swap all wrapping experts are pinned, and one of them gives way. */
  lemma SecondTry(s: State, y: nat, w: nat, c: nat, x: nat) returns (t: State)
    requires Proper(s) && s.pinned != [] && s.pinned[0] == y && |Wrapping(s.heat)| == |s.pinned|
    requires w in Wrapping(s.heat) && y in Colder(s.heat, w) && GivesWay(s.heat, c, x)
    requires Elements<nat>(s.pinned) == Wrapping(s.heat) - {w} + {y}
    requires Elements<nat>(s.pinned[0 := w]) == Wrapping(s.heat)
    ensures t == State(s.heat, s.pinned[0 := w]) && Proper(t) && PickOf(t.heat, t.pinned).Swap?
    ensures var p := PickOf(t.heat, t.pinned);
      && SwappedIn(s, Tries(2)) == [w, p.eid] && SwappedOut(s, Tries(2)) == [y, t.pinned[p.slot]]
      && Run(s, Tries(2)).pinned == t.pinned[p.slot := p.eid]
      && p.slot == Coldest(t.heat, t.pinned, |t.pinned|) && p.eid == Hottest(t.heat, t.pinned, |t.heat|)
  {
    hide Threshold, NoWrap, Wrapping, Colder, Run, SwappedIn, SwappedOut, Elements, Tries;
    t := State(s.heat, s.pinned[0 := w]);
    FirstSlot(s, y, w);
    TurnsOver(t, c, x);
    TwoTries(s);
  }

  /** An expert that came in goes out again. */
  lemma GoesAgain(heat: seq<u32>, c: nat, x: nat) returns (pinned: seq<nat>)
    requires GivesWay(heat, c, x) && Colder(heat, c) != {}
    ensures Proper(State(heat, pinned)) && |pinned| == |Wrapping(heat)|
    ensures !NoneReturned(State(heat, pinned), Tries(2))
  {
    var y :| y in Colder(heat, c);
    pinned := StandIn(Wrapping(heat), y, c);
    var s := State(heat, pinned);
    ListedProper(heat, pinned);
    var t := SecondTry(s, y, c, c, x);
    hide Threshold, NoWrap, Run, SwappedIn, SwappedOut, Tries, PickOf;
    FirstColdest(t, c);
    PickMoves(t);
    assert SwappedIn(s, Tries(2))[0] == c;
    SwappedIs(t.pinned, 0, PickOf(t.heat, t.pinned).eid, c);
  }

  /** An expert that went out comes back. */
  lemma ComesBack(heat: seq<u32>, c: nat, x: nat, w: nat) returns (pinned: seq<nat>)
    requires GivesWay(heat, c, x) && w in Wrapping(heat) && heat[w] > Threshold(heat[x])
    ensures Proper(State(heat, pinned)) && |pinned| == |Wrapping(heat)|
    ensures !NoneReturned(State(heat, pinned), Tries(2))
  {
    hide Threshold, NoWrap, Run, SwappedIn, SwappedOut, Tries;
    var full := ListOf(Wrapping(heat), |Wrapping(heat)|);
    ListedWrap(State(heat, full), |full|);
    TurnsOver(State(heat, full), c, x);
    var y := PickOf(heat, full).eid;
    hide PickOf;
    pinned := StandIn(Wrapping(heat), y, w);
    var s := State(heat, pinned);
    ListedProper(heat, pinned);
    var t := SecondTry(s, y, w, c, x);
    SameHottest(heat, full, t.pinned);
    assert SwappedOut(s, Tries(2))[0] == y;
    assert Run(s, Tries(2)).pinned[PickOf(t.heat, t.pinned).slot] == y;
  }

  lemma ListedProper(heat: seq<u32>, pinned: seq<nat>)
    requires Distinct(pinned) && forall e :: e in Elements<nat>(pinned) ==> e < |heat|
    ensures Proper(State(heat, pinned))
  {
    forall z | 0 <= z < |pinned| ensures pinned[z] < |heat| {
      assert pinned[z] in Elements<nat>(pinned);
    }
  }

  lemma FirstColdest(s: State, c: nat)
    requires Proper(s) && s.pinned != [] && s.pinned[0] == c
    requires Least(s.heat, c) && Elements<nat>(s.pinned) == Wrapping(s.heat)
    ensures Coldest(s.heat, s.pinned, |s.pinned|) == 0
  {
    var z := Coldest(s.heat, s.pinned, |s.pinned|);
    assert s.pinned[z] in Elements<nat>(s.pinned);
    assert HeatOf(s.heat, s.pinned, 0) <= HeatOf(s.heat, s.pinned, z);
  }

  lemma SameHottest(heat: seq<u32>, a: seq<nat>, b: seq<nat>)
    requires Elements<nat>(a) == Elements<nat>(b)
    ensures Hottest(heat, a, |heat|) == Hottest(heat, b, |heat|)
  {
    forall e: nat ensures e in a <==> e in b {
      assert e in a <==> e in Elements<nat>(a);
    }
    hide Elements;
    var h, k := Hottest(heat, a, |heat|), Hottest(heat, b, |heat|);
  }

  lemma Violated(heat: seq<u32>, npin: nat) returns (pinned: seq<nat>, n: nat)
    requires Returns(heat, npin)
    ensures Proper(State(heat, pinned)) && |pinned| == npin && !NoneReturned(State(heat, pinned), Tries(n))
  {
    hide Threshold, NoWrap, Colder, NoneReturned, SwappedIn;
    if |Wrapping(heat)| > npin {
      pinned := ChurnsForever(heat, npin);
      var s := State(heat, pinned);
      assert |SwappedIn(s, Tries(npin + 1))| == npin + 1;
      if forall k: nat :: k <= npin + 1 ==> NoneReturned(s, Tries(k)) { FreshSwaps(s, npin + 1); }
      n :| n <= npin + 1 && !NoneReturned(s, Tries(n));
    } else {
      var c: nat, x: nat :| GivesWay(heat, c, x) && TakesBack(heat, c, x);
      n := 2;
      if Colder(heat, c) != {} {
        pinned := GoesAgain(heat, c, x);
      } else {
        var w :| w in Wrapping(heat) && heat[w] > Threshold(heat[x]);
        pinned := ComesBack(heat, c, x, w);
      }
    }
  }

  /** No expert ever comes back, or goes after it came in, exactly for these heats. */
  lemma NothingReturnsIff(heat: seq<u32>, npin: nat)
    ensures NothingReturns(heat, npin) <==> !Returns(heat, npin)
  {
    hide NoneReturned;
    if Returns(heat, npin) {
      var pinned, n := Violated(heat, npin);
      assert !NoneReturned(State(heat, pinned), Tries(n));
    } else {
      hide Returns;
      forall pinned: seq<nat>, events: seq<Event> | Proper(State(heat, pinned)) && |pinned| == npin
        ensures NoneReturned(State(heat, pinned), events)
      {
        NoneReturn(State(heat, pinned), events);
      }
    }
  }

  // ---------------------------------------------------------------- how they compare

  /** Steady heats let nothing return; where nothing returns there are no more swaps than pins; and
      then they end. */
  lemma Hierarchy(heat: seq<u32>, npin: nat)
    ensures Steady(heat, npin) ==> !Returns(heat, npin)
    ensures !Returns(heat, npin) ==> !Exceeds(heat, npin)
    ensures !Exceeds(heat, npin) ==> !Churns(heat, npin)
  {
    hide Threshold, NoWrap, Wrapping;
    if Exceeds(heat, npin) {
      if Churns(heat, npin) {
        ChurnsReturn(heat, npin);
      } else {
        var c: nat, x: nat :| GivesWay(heat, c, x) && |Colder(heat, c)| >= npin;
        assert TakesBack(heat, c, x);
      }
    }
  }
}
