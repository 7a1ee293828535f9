/** Occurrences of one sequence inside another. */
module Occurrences {
  predicate At<T(==)>(text: seq<T>, pat: seq<T>, i: nat) {
    i + |pat| <= |text| && text[i..i + |pat|] == pat
  }

  predicate Occurs<T(==)>(text: seq<T>, pat: seq<T>) {
    exists i: nat :: i <= |text| && At(text, pat, i)
  }

  lemma OccursIntro<T>(text: seq<T>, pat: seq<T>, i: nat)
    requires At(text, pat, i)
    ensures Occurs(text, pat)
  {
  }

  /** The first index at or after `i` where `pat` occurs, or -1. */
  function FindFrom<T(==)>(text: seq<T>, pat: seq<T>, i: nat): (r: int)
    requires i <= |text|
    ensures r == -1 || i <= r <= |text|
    ensures r >= 0 ==> At(text, pat, r)
    ensures forall j: nat :: i <= j <= |text| && At(text, pat, j) ==> 0 <= r <= j
    decreases |text| - i
  {
    if At(text, pat, i) then i
    else if i == |text| then -1
    else FindFrom(text, pat, i + 1)
  }

  function Find<T(==)>(text: seq<T>, pat: seq<T>): (r: int)
    ensures r == -1 || 0 <= r <= |text|
    ensures r >= 0 ==> At(text, pat, r)
    ensures r >= 0 <==> Occurs(text, pat)
    ensures forall j: nat :: j <= |text| && At(text, pat, j) ==> r <= j
  {
    FindFrom(text, pat, 0)
  }

  /** An occurrence inside a slice is an occurrence in the whole, and conversely. */
  lemma AtSlice<T>(text: seq<T>, a: nat, b: nat, pat: seq<T>, i: nat)
    requires a <= b <= |text| && i + |pat| <= b - a
    ensures At(text[a..b], pat, i) <==> At(text, pat, a + i)
  {
    var x, y := text[a..b][i..i + |pat|], text[a + i..a + i + |pat|];
    assert |x| == |y| && forall k :: 0 <= k < |x| ==> x[k] == y[k];
  }

  lemma OccursInPrefix<T>(text: seq<T>, n: nat, pat: seq<T>, i: nat)
    requires At(text, pat, i) && i + |pat| <= n <= |text|
    ensures Occurs(text[..n], pat)
  {
    AtSlice(text, 0, n, pat, i);
    assert text[0..n] == text[..n];
    OccursIntro(text[..n], pat, i);
  }

  lemma AtTail<T>(head: seq<T>, tail: seq<T>, pat: seq<T>, i: nat)
    requires i + |pat| <= |tail|
    ensures At(head + tail, pat, |head| + i) <==> At(tail, pat, i)
  {
    AtSlice(head + tail, |head|, |head| + |tail|, pat, i);
    assert (head + tail)[|head|..|head| + |tail|] == tail;
  }

  lemma AtHead<T>(head: seq<T>, tail: seq<T>, pat: seq<T>, i: nat)
    requires i + |pat| <= |head|
    ensures At(head + tail, pat, i) <==> At(head, pat, i)
  {
    AtSlice(head + tail, 0, |head|, pat, i);
    assert (head + tail)[0..|head|] == head;
  }

  /** A proper border: a nonempty shorter prefix that is also a suffix. */
  predicate Border<T(==)>(s: seq<T>, d: nat) {
    0 < d < |s| && s[..d] == s[|s| - d..]
  }

  predicate Unbordered<T(==)>(s: seq<T>) {
    forall d :: 0 < d < |s| ==> !Border(s, d)
  }

  /** Two occurrences that overlap make the overlap a border. */
  lemma OverlapIsBorder<T>(text: seq<T>, s: seq<T>, i: nat, j: nat)
    requires At(text, s, i) && At(text, s, j) && i < j < i + |s|
    ensures Border(s, i + |s| - j)
  {
    var d := i + |s| - j;
    forall k | 0 <= k < d ensures s[..d][k] == s[|s| - d..][k] {
      assert text[j..j + |s|][k] == text[j + k];
      assert text[i..i + |s|][j - i + k] == text[j + k];
    }
  }
}
