/** Open addressing with linear probing, as the tensor index and the tokenizer's maps use it. */
module Probing {
  datatype Option<T> = None | Some(value: T)

  /** The slot `d` steps after `a`, wrapping around. */
  function Slot(a: nat, d: nat, cap: nat): (h: nat)
    requires a < cap && d <= cap
    ensures h < cap
  {
    if a + d < cap then a + d else a + d - cap
  }

  /** How many steps after `a` slot `h` is. */
  function Dist(a: nat, h: nat, cap: nat): (d: nat)
    requires a < cap && h < cap
    ensures d < cap && Slot(a, d, cap) == h
  {
    if a <= h then h - a else h + cap - a
  }

  /** The slot after `h`. */
  function Step(h: nat, cap: nat): (n: nat)
    requires h < cap
    ensures n < cap
  {
    if h + 1 == cap then 0 else h + 1
  }

  lemma StepIsNext(a: nat, d: nat, cap: nat)
    requires a < cap && d < cap
    ensures Step(Slot(a, d, cap), cap) == Slot(a, d + 1, cap)
  {
  }

  /** A capacity that grows by doubling. */
  predicate PowerOfTwo(n: nat) {
    n == 1 || (n > 1 && n % 2 == 0 && PowerOfTwo(n / 2))
  }

  lemma PowerOfTwoDoubles(n: nat)
    ensures PowerOfTwo(1) && (PowerOfTwo(n) ==> PowerOfTwo(n * 2))
  {
  }

  /** `int c = 1; while (c < 2 * n) c <<= 1;` */
  method Capacity(n: nat) returns (cap: nat)
    ensures PowerOfTwo(cap) && cap >= 1 && 2 * n <= cap && (n > 0 ==> cap < 4 * n)
  {
    hide PowerOfTwo;
    cap := 1;
    PowerOfTwoDoubles(1);
    while cap < 2 * n
      invariant PowerOfTwo(cap) && cap >= 1 && (n > 0 ==> cap < 4 * n)
      decreases 2 * n - cap
    {
      PowerOfTwoDoubles(cap);
      cap := cap * 2;
    }
  }

  /** Bitwise and. */
  function BitAnd(x: nat, y: nat): nat {
    if x == 0 || y == 0 then 0 else 2 * BitAnd(x / 2, y / 2) + x % 2 * (y % 2)
  }

  lemma {:induction false} MulGap(m: nat, a: nat, b: nat)
    requires a < b
    ensures m * a + m <= m * b
  {
    if a + 1 < b { MulGap(m, a, b - 1); }
    assert m * b == m * (b - 1) + m;
  }

  lemma ModIs(x: nat, m: nat, t: nat, r: nat)
    requires x == m * t + r && r < m
    ensures x % m == r
  {
    var q := x / m;
    if q < t { MulGap(m, q, t); } else if t < q { MulGap(m, t, q); }
  }

  lemma HalfMod(x: nat, k: nat)
    requires k > 0
    ensures x % (2 * k) == 2 * (x / 2 % k) + x % 2
  {
    var t, r := x / 2 / k, x / 2 % k;
    assert x / 2 == k * t + r;
    assert 2 * (k * t) == 2 * k * t;
    ModIs(x, 2 * k, t, 2 * r + x % 2);
  }

  /** Masking with one less than a power of two is reduction modulo it. */
  lemma {:induction false} MaskIsMod(x: nat, cap: nat)
    requires PowerOfTwo(cap)
    ensures BitAnd(x, cap - 1) == x % cap
    decreases cap
  {
    if cap > 1 {
      var k := cap / 2;
      MaskIsMod(x / 2, k);
      HalfMod(x, k);
      assert (cap - 1) / 2 == k - 1 && (cap - 1) % 2 == 1;
      BitAndStep(x, cap - 1);
    }
  }

  lemma BitAndStep(x: nat, y: nat)
    requires y % 2 == 1
    ensures BitAnd(x, y) == 2 * BitAnd(x / 2, y / 2) + x % 2
  {
  }

  lemma MaskIsStep(h: nat, cap: nat)
    requires PowerOfTwo(cap) && h < cap
    ensures BitAnd(h + 1, cap - 1) == Step(h, cap)
  {
    MaskIsMod(h + 1, cap);
    if h + 1 == cap { ModIs(h + 1, cap, 1, 0); } else { ModIs(h + 1, cap, 0, h + 1); }
  }

  /** All slots from `a` to just before distance `d` are taken. */
  ghost predicate Taken<K>(slots: seq<Option<K>>, a: nat, d: nat)
    requires a < |slots| && d <= |slots|
  {
    forall e :: 0 <= e < d ==> slots[Slot(a, e, |slots|)].Some?
  }

  /** No gap: every key sits behind taken slots only, counting from where its probe starts. */
  ghost predicate Chained<K(!new)>(slots: seq<Option<K>>, start: K -> nat) {
    && (forall k :: start(k) < |slots|)
    && (forall h :: 0 <= h < |slots| && slots[h].Some? ==>
          var a := start(slots[h].value);
          Taken(slots, a, Dist(a, h, |slots|)))
  }

  ghost predicate HasFree<K>(slots: seq<Option<K>>) {
    exists h :: 0 <= h < |slots| && slots[h].None?
  }

  /** A probe through taken slots has not come round yet while some slot is free. */
  lemma NotRound<K>(slots: seq<Option<K>>, a: nat, d: nat)
    requires a < |slots| && d <= |slots| && Taken(slots, a, d) && HasFree(slots)
    ensures d < |slots|
  {
    var h :| 0 <= h < |slots| && slots[h].None?;
    assert Slot(a, Dist(a, h, |slots|), |slots|) == h;
  }

  /** A probe that ends at a free slot has passed every key that starts where it did. */
  lemma PassedAll<K(!new)>(slots: seq<Option<K>>, start: K -> nat, a: nat, d: nat, h: nat)
    requires Chained(slots, start) && a < |slots| && d < |slots| && slots[Slot(a, d, |slots|)].None?
    requires h < |slots| && slots[h].Some? && start(slots[h].value) == a
    ensures Dist(a, h, |slots|) < d
  {
    assert Taken(slots, a, Dist(a, h, |slots|));
    assert Slot(a, Dist(a, h, |slots|), |slots|) == h;
  }

  /** Taking the free slot at the end of a key's own probe leaves no gap. */
  lemma ChainedAfter<K(!new)>(slots: seq<Option<K>>, start: K -> nat, k: K, d: nat)
    requires Chained(slots, start) && d < |slots|
    requires Taken(slots, start(k), d) && slots[Slot(start(k), d, |slots|)].None?
    ensures Chained(slots[Slot(start(k), d, |slots|) := Some(k)], start)
  {
    var at := Slot(start(k), d, |slots|);
    var after := slots[at := Some(k)];
    forall h | 0 <= h < |after| && after[h].Some?
      ensures var a := start(after[h].value); Taken(after, a, Dist(a, h, |after|))
    {
      var a := start(after[h].value);
      if h == at {
        assert Dist(a, h, |slots|) == d;
      }
      assert Taken(slots, a, Dist(a, h, |slots|));
    }
  }

  function Count<K>(slots: seq<Option<K>>): (c: nat)
    ensures c <= |slots|
  {
    if slots == [] then 0
    else Count(slots[..|slots| - 1]) + if slots[|slots| - 1].Some? then 1 else 0
  }

  lemma {:induction false} CountFree<K>(slots: seq<Option<K>>)
    requires Count(slots) < |slots|
    ensures HasFree(slots)
  {
    var n := |slots| - 1;
    if slots[n].Some? {
      CountFree(slots[..n]);
      var h :| 0 <= h < n && slots[..n][h].None?;
      assert slots[h].None?;
    }
  }

  lemma {:induction false} CountAfter<K>(slots: seq<Option<K>>, h: nat, k: K)
    requires h < |slots|
    ensures Count(slots[h := Some(k)]) == Count(slots) + if slots[h].None? then 1 else 0
  {
    var n := |slots| - 1;
    if h < n {
      CountAfter(slots[..n], h, k);
      assert slots[h := Some(k)][..n] == slots[..n][h := Some(k)];
    } else {
      assert slots[h := Some(k)][..n] == slots[..n];
    }
  }

  lemma {:induction false} CountNone<K>(slots: seq<Option<K>>)
    requires forall h :: 0 <= h < |slots| ==> slots[h].None?
    ensures Count(slots) == 0
  {
    if slots != [] { CountNone(slots[..|slots| - 1]); }
  }
}
