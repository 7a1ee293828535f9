/** Rebalancing the hot store: the coldest pinned expert makes room for the hottest other one. */
module TierSwap {
  import opened Sequences

  const TWO32: nat := 0x1_0000_0000

  type u32 = x: int | 0 <= x < 0x1_0000_0000

  datatype Pick = Stay | Swap(slot: nat, eid: nat, gain: int)

  /** fc + (fc >> 2) + 4 in 32 bits. */
  function Threshold(fc: u32): u32 {
    (fc + fc / 4 + 4) % TWO32
  }

  predicate NoWrap(fc: u32) {
    fc + fc / 4 + 4 < TWO32
  }

  predicate InRange(heat: seq<u32>, pinned: seq<nat>) {
    forall z :: 0 <= z < |pinned| ==> pinned[z] < |heat|
  }

  function HeatOf(heat: seq<u32>, pinned: seq<nat>, z: nat): u32
    requires InRange(heat, pinned) && z < |pinned|
  {
    heat[pinned[z]]
  }

  /** The first of the coldest among the first `n` pinned experts. */
  function Coldest(heat: seq<u32>, pinned: seq<nat>, n: nat): (c: nat)
    requires InRange(heat, pinned) && 1 <= n <= |pinned|
    ensures c < n
    ensures forall z :: 0 <= z < n ==> HeatOf(heat, pinned, c) <= HeatOf(heat, pinned, z)
    ensures forall z :: 0 <= z < c ==> HeatOf(heat, pinned, c) < HeatOf(heat, pinned, z)
  {
    if n == 1 then 0
    else
      var c := Coldest(heat, pinned, n - 1);
      if HeatOf(heat, pinned, n - 1) < HeatOf(heat, pinned, c) then n - 1 else c
  }

  /** The first of the hottest among the first `n` experts that are not pinned, or -1 if none of
      them has any heat. */
  function Hottest(heat: seq<u32>, pinned: seq<nat>, n: nat): (h: int)
    requires n <= |heat|
    ensures h == -1 || (0 <= h < n && h !in pinned && heat[h] > 0)
    ensures forall e :: 0 <= e < n && e !in pinned ==> heat[e] <= if h < 0 then 0 else heat[h]
    ensures forall e :: 0 <= e < h && e !in pinned ==> heat[e] < heat[h]
  {
    if n == 0 then -1
    else
      var h := Hottest(heat, pinned, n - 1);
      if n - 1 !in pinned && heat[n - 1] > if h < 0 then 0 else heat[h] then n - 1 else h
  }

  function PickOf(heat: seq<u32>, pinned: seq<nat>): (p: Pick)
    requires InRange(heat, pinned)
    ensures p.Swap? ==> p.slot < |pinned| && p.eid < |heat| && p.eid !in pinned
  {
    if |pinned| < 1 || |heat| < 1 then Stay
    else
      var cold, hot := Coldest(heat, pinned, |pinned|), Hottest(heat, pinned, |heat|);
      if hot < 0 then Stay
      else if heat[hot] <= Threshold(HeatOf(heat, pinned, cold)) then Stay
      else Swap(cold, hot, heat[hot] - HeatOf(heat, pinned, cold))
  }

  /** A swap brings in a hottest expert for a coldest one. */
  lemma PickIs(heat: seq<u32>, pinned: seq<nat>)
    requires InRange(heat, pinned) && PickOf(heat, pinned).Swap?
    ensures var p := PickOf(heat, pinned); var fc := HeatOf(heat, pinned, p.slot);
      && (forall z :: 0 <= z < |pinned| ==> fc <= HeatOf(heat, pinned, z))
      && (forall e :: 0 <= e < |heat| && e !in pinned ==> heat[e] <= heat[p.eid])
      && p.gain == heat[p.eid] - fc
      && heat[p.eid] > Threshold(fc)
  {
  }

  /** The margin holds, and so the swap is a gain of more than 4 and a quarter, exactly when the
      threshold has not wrapped round. */
  lemma MarginIffNoWrap(heat: seq<u32>, pinned: seq<nat>)
    requires InRange(heat, pinned) && PickOf(heat, pinned).Swap?
    ensures var p := PickOf(heat, pinned); var fc := HeatOf(heat, pinned, p.slot);
      p.gain > fc / 4 + 4 <==> NoWrap(fc)
  {
    PickIs(heat, pinned);
    ThresholdIs(HeatOf(heat, pinned, PickOf(heat, pinned).slot));
    hide PickOf, Threshold;
  }

  lemma ThresholdIs(fc: u32)
    ensures Threshold(fc) == fc + fc / 4 + 4 - if NoWrap(fc) then 0 else TWO32
  {
  }

  // ---------------------------------------------------------------- runs

  datatype Event = Decay | TrySwap

  datatype State = State(heat: seq<u32>, pinned: seq<nat>)

  function Halved(heat: seq<u32>): (h: seq<u32>)
    ensures |h| == |heat| && forall e :: 0 <= e < |heat| ==> h[e] == heat[e] / 2
  {
    seq(|heat|, e requires 0 <= e < |heat| => heat[e] / 2)
  }

  predicate Proper(s: State) {
    InRange(s.heat, s.pinned) && Distinct(s.pinned)
  }

  /** The swap picked, if any, is a gain of more than 4 and a quarter. */
  predicate KeepsMargin(s: State)
    requires InRange(s.heat, s.pinned)
  {
    var p := PickOf(s.heat, s.pinned);
    p.Swap? ==> p.gain > HeatOf(s.heat, s.pinned, p.slot) / 4 + 4
  }

  function Next(s: State, e: Event): State
    requires InRange(s.heat, s.pinned)
  {
    if e.Decay? then State(Halved(s.heat), s.pinned)
    else
      match PickOf(s.heat, s.pinned)
      case Stay => s
      case Swap(slot, eid, _) => State(s.heat, s.pinned[slot := eid])
  }

  lemma NextProper(s: State, e: Event)
    requires InRange(s.heat, s.pinned)
    ensures InRange(Next(s, e).heat, Next(s, e).pinned)
    ensures Distinct(s.pinned) ==> Distinct(Next(s, e).pinned)
  {
  }

  /** The state after a run of events. */
  function Run(s: State, events: seq<Event>): (r: State)
    requires InRange(s.heat, s.pinned)
    ensures InRange(r.heat, r.pinned)
    decreases |events|
  {
    if events == [] then s
    else
      var before := Run(s, events[..|events| - 1]);
      NextProper(before, events[|events| - 1]);
      Next(before, events[|events| - 1])
  }

  /** The swap picked by the last event of a run, if it is one. */
  function LastPick(s: State, events: seq<Event>): Pick
    requires InRange(s.heat, s.pinned) && events != []
  {
    var before := Run(s, events[..|events| - 1]);
    if events[|events| - 1].TrySwap? then PickOf(before.heat, before.pinned) else Stay
  }

  /** The experts swapped in, in order, and those swapped out. */
  function SwappedIn(s: State, events: seq<Event>): (ins: seq<nat>)
    requires InRange(s.heat, s.pinned)
    decreases |events|
  {
    if events == [] then []
    else
      var p := LastPick(s, events);
      SwappedIn(s, events[..|events| - 1]) + if p.Swap? then [p.eid] else []
  }

  function SwappedOut(s: State, events: seq<Event>): (outs: seq<nat>)
    requires InRange(s.heat, s.pinned)
    decreases |events|
  {
    if events == [] then []
    else
      var p := LastPick(s, events);
      SwappedOut(s, events[..|events| - 1])
        + if p.Swap? then [Run(s, events[..|events| - 1]).pinned[p.slot]] else []
  }

  /** The experts whose heat makes the threshold wrap round. */
  ghost function Wrapping(heat: seq<u32>): set<nat> {
    set e | 0 <= e < |heat| && !NoWrap(heat[e])
  }

  /** Fewer experts wrap than are pinned; or just as many, and no other is hotter than the wrapped
      threshold of any of them, the least of them having the least. */
  ghost predicate Steady(heat: seq<u32>, npin: nat) {
    || npin == 0
    || |Wrapping(heat)| < npin
    || (|Wrapping(heat)| == npin && BelowWrapped(heat))
  }

  ghost predicate BelowWrapped(heat: seq<u32>) {
    forall c, x :: c in Wrapping(heat) && 0 <= x < |heat| && x !in Wrapping(heat) ==> heat[x] <= Threshold(heat[c])
  }

  /** After a decay no threshold wraps, whatever the heats were. */
  lemma DecayCools(heat: seq<u32>, npin: nat)
    ensures Wrapping(Halved(heat)) == {} && Steady(Halved(heat), npin)
  {
    assert forall e :: 0 <= e < |heat| ==> NoWrap(Halved(heat)[e]);
  }

  /** If the coldest pin wraps, all pins do. */
  lemma AllPinsWrap(s: State, slot: nat)
    requires Proper(s) && slot < |s.pinned| && !NoWrap(HeatOf(s.heat, s.pinned, slot))
    requires forall z :: 0 <= z < |s.pinned| ==> HeatOf(s.heat, s.pinned, slot) <= HeatOf(s.heat, s.pinned, z)
    ensures Elements<nat>(s.pinned) <= Wrapping(s.heat) && |Elements<nat>(s.pinned)| == |s.pinned|
  {
    DistinctCount(s.pinned);
    forall x | x in Elements<nat>(s.pinned) ensures x in Wrapping(s.heat) {
      var z :| 0 <= z < |s.pinned| && s.pinned[z] == x;
      assert HeatOf(s.heat, s.pinned, slot) <= HeatOf(s.heat, s.pinned, z);
    }
  }

  /** With steady heats no pick meets a wrapped threshold. */
  lemma SteadyPick(s: State)
    requires Proper(s) && Steady(s.heat, |s.pinned|) && PickOf(s.heat, s.pinned).Swap?
    ensures NoWrap(HeatOf(s.heat, s.pinned, PickOf(s.heat, s.pinned).slot))
  {
    var p := PickOf(s.heat, s.pinned);
    PickIs(s.heat, s.pinned);
    hide PickOf, Threshold;
    if !NoWrap(HeatOf(s.heat, s.pinned, p.slot)) {
      AllPinsWrap(s, p.slot);
      SubsetCount(Elements<nat>(s.pinned), Wrapping(s.heat));
    }
  }

  /** What came in is still pinned and at least as hot as everything outside. */
  predicate InsStay(s: State, ins: seq<nat>) {
    && Distinct(ins)
    && (forall i :: 0 <= i < |ins| ==> ins[i] in s.pinned && ins[i] < |s.heat|)
    && (forall i, e :: 0 <= i < |ins| && 0 <= e < |s.heat| && e !in s.pinned ==> s.heat[e] <= s.heat[ins[i]])
  }

  /** What went out is still out and at most as hot as everything pinned. */
  predicate OutsStay(s: State, outs: seq<nat>) {
    && Distinct(outs)
    && (forall i :: 0 <= i < |outs| ==> outs[i] !in s.pinned && outs[i] < |s.heat|)
    && (forall i, z :: 0 <= i < |outs| && 0 <= z < |s.pinned| && s.pinned[z] < |s.heat| ==>
          s.heat[outs[i]] <= s.heat[s.pinned[z]])
  }

  lemma DecayKeeps(s: State, ins: seq<nat>, outs: seq<nat>)
    requires Proper(s) && InsStay(s, ins) && OutsStay(s, outs)
    ensures InsStay(Next(s, Decay), ins) && OutsStay(Next(s, Decay), outs)
  {
  }

  /** What a swap that keeps its margin changes. */
  lemma SwapIs(s: State)
    requires Proper(s) && KeepsMargin(s) && PickOf(s.heat, s.pinned).Swap?
    ensures var p := PickOf(s.heat, s.pinned); var out := s.pinned[p.slot];
      && Next(s, TrySwap) == State(s.heat, s.pinned[p.slot := p.eid])
      && p.eid !in s.pinned && out != p.eid
      && s.heat[out] < s.heat[p.eid] && p.gain > 4
      && (forall z :: 0 <= z < |s.pinned| ==> s.heat[out] <= s.heat[s.pinned[z]])
      && (forall e :: 0 <= e < |s.heat| && e !in s.pinned ==> s.heat[e] <= s.heat[p.eid])
  {
    PickIs(s.heat, s.pinned);
    MarginIffNoWrap(s.heat, s.pinned);
    var out := s.pinned[PickOf(s.heat, s.pinned).slot];
    hide PickOf, Threshold;
    forall z | 0 <= z < |s.pinned| ensures s.heat[out] <= s.heat[s.pinned[z]] {
      assert s.heat[out] <= HeatOf(s.heat, s.pinned, z);
    }
  }

  lemma SwappedIs(pinned: seq<nat>, slot: nat, eid: nat, x: nat)
    requires Distinct(pinned) && slot < |pinned| && eid !in pinned
    ensures x in pinned[slot := eid] <==> x == eid || (x in pinned && x != pinned[slot])
  {
    var after := pinned[slot := eid];
    assert after[slot] == eid;
    assert forall z :: 0 <= z < |pinned| && z != slot ==> after[z] == pinned[z];
  }

  lemma SwapKeepsIns(s: State, ins: seq<nat>)
    requires Proper(s) && KeepsMargin(s) && PickOf(s.heat, s.pinned).Swap? && InsStay(s, ins)
    ensures InsStay(Next(s, TrySwap), ins + [PickOf(s.heat, s.pinned).eid])
  {
    SwapIs(s);
    var p := PickOf(s.heat, s.pinned);
    hide PickOf, Next;
    var out, ins', after := s.pinned[p.slot], ins + [p.eid], s.pinned[p.slot := p.eid];
    forall x ensures x in after <==> x == p.eid || (x in s.pinned && x != out) {
      if x >= 0 { SwappedIs(s.pinned, p.slot, p.eid, x); }
    }
    forall i | 0 <= i < |ins| ensures ins[i] in after {
      assert s.heat[p.eid] <= s.heat[ins[i]];
    }
  }

  lemma SwapKeepsOuts(s: State, outs: seq<nat>)
    requires Proper(s) && KeepsMargin(s) && PickOf(s.heat, s.pinned).Swap? && OutsStay(s, outs)
    ensures OutsStay(Next(s, TrySwap), outs + [s.pinned[PickOf(s.heat, s.pinned).slot]])
  {
    SwapIs(s);
    var p := PickOf(s.heat, s.pinned);
    hide PickOf, Next;
    var out, after := s.pinned[p.slot], s.pinned[p.slot := p.eid];
    forall x ensures x in after <==> x == p.eid || (x in s.pinned && x != out) {
      if x >= 0 { SwappedIs(s.pinned, p.slot, p.eid, x); }
    }
    forall i | 0 <= i < |outs| ensures outs[i] != p.eid && s.heat[outs[i]] <= s.heat[out] {
      assert s.heat[outs[i]] <= s.heat[s.pinned[p.slot]];
    }
  }

  /** Every swap of the run keeps its margin. */
  predicate MarginKept(s: State, events: seq<Event>)
    requires InRange(s.heat, s.pinned)
    decreases |events|
  {
    events != [] ==>
      && MarginKept(s, events[..|events| - 1])
      && (events[|events| - 1].TrySwap? ==> KeepsMargin(Run(s, events[..|events| - 1])))
  }

  /** Through any run of decays and swaps that keep their margin: the pins stay distinct, what was
      swapped in is never evicted, and what was evicted never returns. */
  lemma {:induction false} RunKeeps(s: State, events: seq<Event>)
    requires Proper(s) && MarginKept(s, events)
    ensures var r := Run(s, events);
      && Proper(r) && |r.pinned| == |s.pinned|
      && InsStay(r, SwappedIn(s, events)) && OutsStay(r, SwappedOut(s, events))
    decreases |events|
  {
    hide InsStay, OutsStay, PickOf, KeepsMargin, Distinct, InRange;
    if events == [] {
      NothingMoved(s);
    } else {
      var init, last := events[..|events| - 1], events[|events| - 1];
      RunKeeps(s, init);
      var before := Run(s, init);
      NextProper(before, last);
      LastStep(s, events);
      if last.Decay? {
        DecayKeeps(before, SwappedIn(s, init), SwappedOut(s, init));
      } else if PickOf(before.heat, before.pinned).Swap? {
        SwapKeepsIns(before, SwappedIn(s, init));
        SwapKeepsOuts(before, SwappedOut(s, init));
      }
    }
  }

  lemma LastStep(s: State, events: seq<Event>)
    requires InRange(s.heat, s.pinned) && events != []
    ensures var (before, last) := (Run(s, events[..|events| - 1]), events[|events| - 1]);
      var p := if last.TrySwap? then PickOf(before.heat, before.pinned) else Stay;
      var (ins, outs) := (SwappedIn(s, events[..|events| - 1]), SwappedOut(s, events[..|events| - 1]));
      && SwappedIn(s, events) == (if p.Swap? then ins + [p.eid] else ins)
      && SwappedOut(s, events) == (if p.Swap? then outs + [before.pinned[p.slot]] else outs)
      && Run(s, events) == Next(before, last)
  {
    var ins, outs := SwappedIn(s, events[..|events| - 1]), SwappedOut(s, events[..|events| - 1]);
    assert ins + [] == ins && outs + [] == outs;
  }

  lemma NothingMoved(s: State)
    ensures InsStay(s, []) && OutsStay(s, [])
  {
  }

  /** There are never more swaps that keep their margin than pins. */
  lemma AtMostNpinSwaps(s: State, events: seq<Event>)
    requires Proper(s) && MarginKept(s, events)
    ensures |SwappedIn(s, events)| <= |s.pinned|
  {
    RunKeeps(s, events);
    var ins, pinned := SwappedIn(s, events), Run(s, events).pinned;
    hide SwappedIn, Run, MarginKept;
    DistinctCount(ins);
    DistinctCount(pinned);
    SubsetCount(Elements<nat>(ins), Elements<nat>(pinned));
  }

  function Total(heat: seq<u32>, pinned: seq<nat>): (t: nat)
    requires InRange(heat, pinned)
  {
    if pinned == [] then 0 else Total(heat, pinned[..|pinned| - 1]) + heat[pinned[|pinned| - 1]]
  }

  lemma {:induction false} TotalAfter(heat: seq<u32>, pinned: seq<nat>, slot: nat, eid: nat)
    requires InRange(heat, pinned) && slot < |pinned| && eid < |heat|
    ensures Total(heat, pinned[slot := eid]) == Total(heat, pinned) - heat[pinned[slot]] + heat[eid]
  {
    var n, after := |pinned| - 1, pinned[slot := eid];
    if slot < n {
      TotalAfter(heat, pinned[..n], slot, eid);
      assert after[..n] == pinned[..n][slot := eid];
    } else {
      assert after[..n] == pinned[..n];
    }
  }

  /** A swap raises the total heat of the pins by exactly its gain. */
  lemma SwapGains(s: State)
    requires InRange(s.heat, s.pinned) && PickOf(s.heat, s.pinned).Swap?
    ensures Total(s.heat, Next(s, TrySwap).pinned) == Total(s.heat, s.pinned) + PickOf(s.heat, s.pinned).gain
  {
    PickIs(s.heat, s.pinned);
    var p := PickOf(s.heat, s.pinned);
    TotalAfter(s.heat, s.pinned, p.slot, p.eid);
  }

  /** Without decay every swap that keeps its margin raises the total heat of the pins by more than 4. */
  lemma {:induction false} TotalRises(s: State, events: seq<Event>)
    requires Proper(s) && MarginKept(s, events) && Decay !in events
    ensures Run(s, events).heat == s.heat
    ensures Total(s.heat, Run(s, events).pinned) >= Total(s.heat, s.pinned) + 5 * |SwappedIn(s, events)|
    decreases |events|
  {
    if events != [] {
      var init, last := events[..|events| - 1], events[|events| - 1];
      TotalRises(s, init);
      RunKeeps(s, init);
      var before := Run(s, init);
      assert last in events;
      hide Proper, KeepsMargin, PickOf, InRange;
      if PickOf(before.heat, before.pinned).Swap? {
        SwapGains(before);
        assert PickOf(before.heat, before.pinned).gain > 4 by { SwapIs(before); }
      }
    }
  }

  // ---------------------------------------------------------------- from any heats

  /** From steady heats every swap keeps its margin. */
  lemma {:induction false} SteadyRun(s: State, events: seq<Event>)
    requires Proper(s) && Steady(s.heat, |s.pinned|)
    ensures var r := Run(s, events);
      MarginKept(s, events) && Proper(r) && |r.pinned| == |s.pinned| && Steady(r.heat, |r.pinned|) && KeepsMargin(r)
    decreases |events|
  {
    if events != [] {
      var before, last := Run(s, events[..|events| - 1]), events[|events| - 1];
      SteadyRun(s, events[..|events| - 1]);
      NextProper(before, last);
      DecayCools(before.heat, |s.pinned|);
    }
    hide Steady;
    SteadyMargin(Run(s, events));
  }

  lemma SteadyMargin(s: State)
    requires Proper(s) && Steady(s.heat, |s.pinned|)
    ensures KeepsMargin(s)
  {
    if PickOf(s.heat, s.pinned).Swap? {
      SteadyPick(s);
      MarginIffNoWrap(s.heat, s.pinned);
    }
  }

  lemma RunSplit(s: State, a: seq<Event>, e: Event)
    requires InRange(s.heat, s.pinned)
    ensures Run(s, a + [e]) == Next(Run(s, a), e)
    ensures var p := if e.TrySwap? then PickOf(Run(s, a).heat, Run(s, a).pinned) else Stay;
      && SwappedIn(s, a + [e]) == (if p.Swap? then SwappedIn(s, a) + [p.eid] else SwappedIn(s, a))
      && SwappedOut(s, a + [e]) ==
         (if p.Swap? then SwappedOut(s, a) + [Run(s, a).pinned[p.slot]] else SwappedOut(s, a))
  {
    assert (a + [e])[..|a|] == a;
    LastStep(s, a + [e]);
  }

  /** A run in two parts. */
  lemma {:induction false} RunConcat(s: State, a: seq<Event>, b: seq<Event>)
    requires InRange(s.heat, s.pinned)
    ensures Run(s, a + b) == Run(Run(s, a), b)
    ensures SwappedIn(s, a + b) == SwappedIn(s, a) + SwappedIn(Run(s, a), b)
    ensures SwappedOut(s, a + b) == SwappedOut(s, a) + SwappedOut(Run(s, a), b)
    decreases |b|
  {
    if b == [] {
      assert a + b == a;
    } else {
      RunConcat(s, a, b[..|b| - 1]);
      RunConcatLast(s, a, b);
    }
  }

  lemma RunConcatLast(s: State, a: seq<Event>, b: seq<Event>)
    requires InRange(s.heat, s.pinned) && b != []
    requires Run(s, a + b[..|b| - 1]) == Run(Run(s, a), b[..|b| - 1])
    requires SwappedIn(s, a + b[..|b| - 1]) == SwappedIn(s, a) + SwappedIn(Run(s, a), b[..|b| - 1])
    requires SwappedOut(s, a + b[..|b| - 1]) == SwappedOut(s, a) + SwappedOut(Run(s, a), b[..|b| - 1])
    ensures Run(s, a + b) == Run(Run(s, a), b)
    ensures SwappedIn(s, a + b) == SwappedIn(s, a) + SwappedIn(Run(s, a), b)
    ensures SwappedOut(s, a + b) == SwappedOut(s, a) + SwappedOut(Run(s, a), b)
  {
    hide *;
    var n := |b| - 1;
    var (mid, init, e) := (Run(s, a), b[..n], b[n]);
    assert b == init + [e] && a + b == (a + init) + [e];
    RunSplit(s, a + init, e);
    RunSplit(mid, init, e);
    var p := if e.TrySwap? then PickOf(Run(mid, init).heat, Run(mid, init).pinned) else Stay;
    if p.Swap? {
      var out := Run(mid, init).pinned[p.slot];
      assert SwappedIn(s, a) + SwappedIn(mid, init) + [p.eid] == SwappedIn(s, a) + (SwappedIn(mid, init) + [p.eid]);
      assert SwappedOut(s, a) + SwappedOut(mid, init) + [out] == SwappedOut(s, a) + (SwappedOut(mid, init) + [out]);
    }
  }

  /** From any heats at all, at most as many swaps as pins follow the first decay. */
  lemma SwapsAfterDecay(s: State, before: seq<Event>, after: seq<Event>)
    requires Proper(s)
    ensures |SwappedIn(s, before + [Decay] + after)| <= |SwappedIn(s, before)| + |s.pinned|
  {
    hide Steady, PickOf;
    RunProper(s, before);
    RunSplit(s, before, Decay);
    RunConcat(s, before + [Decay], after);
    var cooled := Run(s, before + [Decay]);
    RunProper(s, before + [Decay]);
    DecayCools(Run(s, before).heat, |s.pinned|);
    SteadyRun(cooled, after);
    AtMostNpinSwaps(cooled, after);
  }

  lemma {:induction false} RunProper(s: State, events: seq<Event>)
    requires Proper(s)
    ensures Proper(Run(s, events)) && |Run(s, events).pinned| == |s.pinned|
    decreases |events|
  {
    hide PickOf;
    if events != [] {
      RunProper(s, events[..|events| - 1]);
      NextProper(Run(s, events[..|events| - 1]), events[|events| - 1]);
    }
  }

  /** What the passes between turns do to one layer: at most one swap each, then a decay. */
  function Passes(carried: seq<bool>): seq<Event> {
    if carried == [] then []
    else (if carried[0] then [TrySwap] else []) + [Decay] + Passes(carried[1..])
  }

  /** However many passes there are with nothing routed between them, and whatever the heats, one
      layer sees at most one swap more than it has pins. */
  lemma PassesEnd(s: State, carried: seq<bool>)
    requires Proper(s)
    ensures |SwappedIn(s, Passes(carried))| <= |s.pinned| + 1
  {
    if carried != [] {
      var first: seq<Event> := if carried[0] then [TrySwap] else [];
      SwapsAfterDecay(s, first, Passes(carried[1..]));
      OneSwap(s, first);
    }
  }

  lemma OneSwap(s: State, events: seq<Event>)
    requires Proper(s) && |events| <= 1
    ensures |SwappedIn(s, events)| <= 1
  {
    if |events| == 1 {
      LastStep(s, events);
      assert events[..0] == [];
    }
  }

  // ---------------------------------------------------------------- exactly when the margin holds

  /** Every pick in every run from every proper pinning keeps its margin. */
  ghost predicate MarginAlways(heat: seq<u32>, npin: nat) {
    forall pinned: seq<nat>, events: seq<Event> ::
      Proper(State(heat, pinned)) && |pinned| == npin ==> KeepsMargin(Run(State(heat, pinned), events))
  }

  lemma WrappedThreshold(fc: u32)
    requires !NoWrap(fc)
    ensures Threshold(fc) == fc + fc / 4 + 4 - TWO32 && Threshold(fc) < fc
    ensures forall other: u32 :: !NoWrap(other) ==> Threshold(fc) < other
    ensures forall other: u32 :: !NoWrap(other) && fc <= other ==> Threshold(fc) <= Threshold(other)
  {
  }

  /** If all pins wrap and an expert outside is hotter than the wrapped threshold, the pick loses
      its margin. */
  lemma WrappedPick(s: State, x: nat)
    requires Proper(s) && s.pinned != [] && x < |s.heat| && x !in s.pinned
    requires forall z :: 0 <= z < |s.pinned| ==> !NoWrap(HeatOf(s.heat, s.pinned, z))
    requires s.heat[x] > Threshold(HeatOf(s.heat, s.pinned, Coldest(s.heat, s.pinned, |s.pinned|)))
    ensures !KeepsMargin(s)
  {
    hide Threshold, NoWrap;
    var cold := Coldest(s.heat, s.pinned, |s.pinned|);
    var hot := Hottest(s.heat, s.pinned, |s.heat|);
    assert PickOf(s.heat, s.pinned) == Swap(cold, hot, s.heat[hot] - HeatOf(s.heat, s.pinned, cold));
    MarginIffNoWrap(s.heat, s.pinned);
  }

  /** Any `n` members of a set, listed. */
  lemma {:induction false} ListOf(w: set<nat>, n: nat) returns (l: seq<nat>)
    requires n <= |w|
    ensures |l| == n && Distinct(l) && forall i :: 0 <= i < n ==> l[i] in w
  {
    if n == 0 {
      l := [];
    } else {
      var x :| x in w;
      l := ListOf(w - {x}, n - 1);
      l := l + [x];
    }
  }

  /** A pinning of wrapping experts only, and one outside hotter than their threshold. */
  lemma UnsteadyPinning(heat: seq<u32>, npin: nat) returns (pinned: seq<nat>, x: nat)
    requires !Steady(heat, npin)
    ensures |pinned| == npin && npin > 0 && Proper(State(heat, pinned))
    ensures forall z :: 0 <= z < npin ==> !NoWrap(HeatOf(heat, pinned, z))
    ensures x < |heat| && x !in pinned
    ensures heat[x] > Threshold(HeatOf(heat, pinned, Coldest(heat, pinned, npin)))
  {
    hide Threshold, NoWrap;
    var w := Wrapping(heat);
    pinned := ListOf(w, npin);
    DistinctCount(pinned);
    var fc := HeatOf(heat, pinned, Coldest(heat, pinned, npin));
    WrappedThreshold(fc);
    if |w| > npin {
      if w <= Elements<nat>(pinned) { SubsetCount(w, Elements<nat>(pinned)); }
      x :| x in w && x !in Elements<nat>(pinned);
    } else {
      SubsetCount(Elements<nat>(pinned), w);
      var c: nat;
      c, x :| c in w && 0 <= x < |heat| && x !in w && heat[x] > Threshold(heat[c]);
      var z :| 0 <= z < npin && pinned[z] == c;
      assert fc <= HeatOf(heat, pinned, z);
    }
  }

  /** Every pick in every run from every proper pinning keeps its margin exactly if the heats are
      steady: a condition on the heats and the number of pins. */
  lemma MarginAlwaysIffSteady(heat: seq<u32>, npin: nat)
    ensures MarginAlways(heat, npin) <==> Steady(heat, npin)
  {
    hide KeepsMargin;
    if Steady(heat, npin) {
      forall pinned: seq<nat>, events: seq<Event> | Proper(State(heat, pinned)) && |pinned| == npin
        ensures KeepsMargin(Run(State(heat, pinned), events))
      {
        SteadyRun(State(heat, pinned), events);
      }
    } else {
      var pinned, x := UnsteadyPinning(heat, npin);
      WrappedPick(State(heat, pinned), x);
      assert Run(State(heat, pinned), []) == State(heat, pinned);
    }
  }

  // ---------------------------------------------------------------- when the threshold wraps

  const TOP: u32 := 0xFFFF_FFFF
  const HALF: u32 := 0x8000_0000

  lemma PickOfTwo(x: nat)
    requires x < 2
    ensures InRange([TOP, HALF], [x])
    ensures PickOf([TOP, HALF], [x]) == Swap(0, 1 - x, if x == 0 then HALF - TOP else TOP - HALF)
  {
    var heat, pinned: seq<nat> := [TOP, HALF], [x];
    assert Coldest(heat, pinned, 1) == 0;
    assert 0 in pinned <==> x == 0;
    assert 1 in pinned <==> x == 1;
    assert Hottest(heat, pinned, 1) == if x == 0 then -1 else 0;
    assert Hottest(heat, pinned, 2) == 1 - x;
    assert Threshold(TOP) == 0x4000_0002;
    assert Threshold(HALF) == 0xA000_0004;
  }

  function Tries(n: nat): (e: seq<Event>)
    ensures |e| == n
  {
    if n == 0 then [] else Tries(n - 1) + [TrySwap]
  }

  /** Two experts of great heat, and one pin, on expert `x`. */
  predicate OnePin(s: State, x: nat) {
    s == State([TOP, HALF], [x])
  }

  lemma BackAndForth(s: State, x: nat)
    requires x < 2 && OnePin(s, x)
    ensures Proper(s) && !Steady(s.heat, 1) && PickOf(s.heat, s.pinned).Swap?
    ensures OnePin(Next(s, TrySwap), 1 - x)
  {
    PickOfTwo(x);
    hide PickOf;
    assert Threshold(TOP) == 0x4000_0002 && Wrapping(s.heat) == {0};
    assert [x][0 := 1 - x] == [1 - x];
  }

  /** With a heat at the top of the range and no decay, one pin is swapped back and forth without end. */
  lemma {:induction false} PingPong(s: State, n: nat)
    requires Proper(s) && OnePin(s, 0)
    ensures OnePin(Run(s, Tries(n)), n % 2) && |SwappedIn(s, Tries(n))| == n
  {
    hide OnePin, Run, SwappedIn, Tries, Distinct, InRange;
    if n > 0 {
      PingPong(s, n - 1);
      PingPongStep(s, n, (n - 1) % 2);
    } else {
      NoTries(s);
    }
  }

  lemma NoTries(s: State)
    requires InRange(s.heat, s.pinned)
    ensures Run(s, Tries(0)) == s && |SwappedIn(s, Tries(0))| == 0
  {
  }

  lemma PingPongStep(s: State, n: nat, x: nat)
    requires Proper(s) && n > 0 && x < 2 && OnePin(Run(s, Tries(n - 1)), x)
    ensures OnePin(Run(s, Tries(n)), 1 - x) && |SwappedIn(s, Tries(n))| == |SwappedIn(s, Tries(n - 1))| + 1
  {
    OneMoreTry(n);
    LastStep(s, Tries(n));
    var before := Run(s, Tries(n - 1));
    hide Run, SwappedIn, SwappedOut, Tries, Next, PickOf, InRange, OnePin;
    BackAndForth(before, x);
  }

  lemma OneMoreTry(n: nat)
    requires n > 0
    ensures Tries(n)[..n - 1] == Tries(n - 1) && Tries(n)[n - 1] == TrySwap
  {
  }

  /** One more try makes one more step, and one more swap if it is one. */
  lemma OneTry(s: State, n: nat)
    requires InRange(s.heat, s.pinned) && n > 0
    ensures var before := Run(s, Tries(n - 1));
      && Run(s, Tries(n)) == Next(before, TrySwap)
      && |SwappedIn(s, Tries(n))| ==
         |SwappedIn(s, Tries(n - 1))| + if PickOf(before.heat, before.pinned).Swap? then 1 else 0
  {
    hide *;
    OneMoreTry(n);
    LastStep(s, Tries(n));
  }

  // ---------------------------------------------------------------- in place

  class HotStore {
    const heat: array<u32>
    const pinned: array<nat>

    constructor (heat: array<u32>, pinned: array<nat>)
      ensures this.heat == heat && this.pinned == pinned
    {
      this.heat, this.pinned := heat, pinned;
    }

    ghost function Contents(): State
      reads heat, pinned
    {
      State(heat[..], pinned[..])
    }

    /** Scans for the coldest pin and the hottest other expert. */
    method PickSwap() returns (p: Pick)
      requires InRange(heat[..], pinned[..])
      ensures p == PickOf(heat[..], pinned[..])
    {
      hide InRange, Threshold;
      if pinned.Length < 1 || heat.Length < 1 {
        return Stay;
      }
      var cold := ColdestSlot();
      var hot, fh := HottestOther();
      if hot < 0 {
        return Stay;
      }
      AllInRange(heat[..], pinned[..]);
      var fc := heat[pinned[cold]];
      if fh <= Threshold(fc) {
        return Stay;
      }
      return Swap(cold, hot, fh - fc);
    }

    method ColdestSlot() returns (cold: nat)
      requires InRange(heat[..], pinned[..]) && pinned.Length > 0
      ensures cold == Coldest(heat[..], pinned[..], pinned.Length)
    {
      cold := 0;
      for z := 1 to pinned.Length
        invariant cold == Coldest(heat[..], pinned[..], z)
      {
        assert pinned[..][z] == pinned[z] && pinned[..][cold] == pinned[cold];
        if heat[pinned[z]] < heat[pinned[cold]] {
          cold := z;
        }
      }
    }

    method HottestOther() returns (hot: int, fh: u32)
      ensures hot == Hottest(heat[..], pinned[..], heat.Length)
      ensures fh == if hot < 0 then 0 else heat[hot]
    {
      hot, fh := -1, 0;
      for e := 0 to heat.Length
        invariant hot == Hottest(heat[..], pinned[..], e)
        invariant fh == if hot < 0 then 0 else heat[hot]
      {
        var resident := IsPinned(e);
        if !resident && heat[e] > fh {
          fh, hot := heat[e], e;
        }
      }
    }

    method IsPinned(e: nat) returns (resident: bool)
      ensures resident == (e in pinned[..])
    {
      resident := false;
      for z := 0 to pinned.Length
        invariant resident == (e in pinned[..z])
      {
        assert pinned[..z + 1] == pinned[..z] + [pinned[z]];
        if pinned[z] == e {
          resident := true;
          break;
        }
      }
    }

    /** Puts the picked expert, if any, in the picked slot. */
    method TrySwap() returns (p: Pick)
      requires InRange(heat[..], pinned[..])
      modifies pinned
      ensures p == old(PickOf(heat[..], pinned[..])) && Contents() == Next(old(Contents()), Event.TrySwap)
    {
      hide InRange, Coldest, Hottest, Threshold;
      p := PickSwap();
      if p.Swap? {
        pinned[p.slot] := p.eid;
      }
    }

    method Decay()
      modifies heat
      ensures heat[..] == Halved(old(heat[..])) && pinned[..] == old(pinned[..])
    {
      for e := 0 to heat.Length
        invariant forall x :: 0 <= x < e ==> heat[x] == old(heat[x]) / 2
        invariant forall x :: e <= x < heat.Length ==> heat[x] == old(heat[x])
        invariant pinned[..] == old(pinned[..])
      {
        heat[e] := heat[e] / 2;
      }
    }
  }

  lemma AllInRange(heat: seq<u32>, pinned: seq<nat>)
    requires InRange(heat, pinned)
    ensures forall z :: 0 <= z < |pinned| ==> pinned[z] < |heat|
  {
  }
}
