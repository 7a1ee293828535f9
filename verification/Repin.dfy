/** Choosing the layers of one pass between turns: those whose swaps gain most. */
module Repin {
  import opened TierSwap

  datatype Candidate = Candidate(gain: int, layer: nat, slot: nat, eid: nat)

  /** The candidate is a layer's own swap. */
  predicate IsCandidate(picks: seq<Pick>, c: Candidate) {
    c.layer < |picks| && picks[c.layer] == Swap(c.slot, c.eid, c.gain)
  }

  predicate Chosen(out: seq<Candidate>, layer: nat) {
    exists i :: 0 <= i < |out| && out[i].layer == layer
  }

  /** Of the layers before `n` with a swap at most `most` are chosen, each once; all of them if they
      are no more than that, and otherwise none is left out that gains more than a chosen one. */
  ghost predicate Best(picks: seq<Pick>, n: nat, most: nat, out: seq<Candidate>) {
    && n <= |picks| && |out| <= most
    && (forall i :: 0 <= i < |out| ==> IsCandidate(picks, out[i]) && out[i].layer < n)
    && (forall i, j :: 0 <= i < j < |out| ==> out[i].layer != out[j].layer)
    && (forall l :: 0 <= l < n && picks[l].Swap? && !Chosen(out, l) ==>
          |out| == most && forall i :: 0 <= i < |out| ==> picks[l].gain <= out[i].gain)
  }

  /** What is chosen: different layers' own swaps; if fewer than may be, those of all layers that have
      one; and else none that gains less than one left out. */
  lemma BestIs(picks: seq<Pick>, n: nat, most: nat, out: seq<Candidate>)
    requires Best(picks, n, most, out)
    ensures forall i, j :: 0 <= i < |out| && 0 <= j < |out| && i != j ==> out[i].layer != out[j].layer
    ensures forall c :: c in out ==>
      c.layer < n <= |picks| && picks[c.layer].Swap? && picks[c.layer].gain == c.gain
      && picks[c.layer].slot == c.slot && picks[c.layer].eid == c.eid
    ensures |out| < most ==> forall l: nat :: l < n && picks[l].Swap? ==> exists c :: c in out && c.layer == l
    ensures forall l: nat, c :: l < n && picks[l].Swap? && c in out && c.gain < picks[l].gain ==>
      exists c' :: c' in out && c'.layer == l
  {
    forall l: nat | l < n && picks[l].Swap? && Chosen(out, l) ensures exists c :: c in out && c.layer == l {
      var i :| 0 <= i < |out| && out[i].layer == l;
      assert out[i] in out;
    }
  }

  /** The first of the chosen that gain least. */
  method Worst(out: seq<Candidate>) returns (w: nat)
    requires out != []
    ensures w < |out| && forall b :: 0 <= b < |out| ==> out[w].gain <= out[b].gain
  {
    w := 0;
    for b := 1 to |out|
      invariant w < b && forall k :: 0 <= k < b ==> out[w].gain <= out[k].gain
    {
      if out[b].gain < out[w].gain {
        w := b;
      }
    }
  }

  lemma Appended(picks: seq<Pick>, n: nat, most: nat, out: seq<Candidate>, c: Candidate)
    requires Best(picks, n, most, out) && |out| < most && n < |picks| && IsCandidate(picks, c) && c.layer == n
    ensures Best(picks, n + 1, most, out + [c])
  {
    var after := out + [c];
    forall l | 0 <= l < n + 1 && picks[l].Swap? ensures Chosen(after, l) {
      if l < n {
        var i :| 0 <= i < |out| && out[i].layer == l;
        assert after[i].layer == l;
      } else {
        assert after[|out|].layer == l;
      }
    }
  }

  lemma Replaced(picks: seq<Pick>, n: nat, most: nat, out: seq<Candidate>, w: nat, c: Candidate)
    requires Best(picks, n, most, out) && |out| == most && n < |picks| && IsCandidate(picks, c) && c.layer == n
    requires w < |out| && c.gain > out[w].gain && forall b :: 0 <= b < |out| ==> out[w].gain <= out[b].gain
    ensures Best(picks, n + 1, most, out[w := c])
  {
    var after := out[w := c];
    assert after[w].layer == n;
    forall l | 0 <= l < n + 1 && picks[l].Swap? && !Chosen(after, l)
      ensures picks[l].gain <= out[w].gain
    {
      if l != out[w].layer { StillOut(out, w, c, l); }
    }
  }

  lemma StillOut(out: seq<Candidate>, w: nat, c: Candidate, l: nat)
    requires w < |out| && out[w].layer != l && !Chosen(out[w := c], l)
    ensures !Chosen(out, l)
  {
    assert forall i :: 0 <= i < |out| && i != w ==> out[w := c][i] == out[i];
  }

  /** Collects the swaps of the layers; when there are too many, a new one takes the place of the
      one that gains least, if it gains more. */
  method RepinPick(picks: seq<Pick>, most: nat) returns (out: seq<Candidate>)
    requires most >= 1
    ensures Best(picks, |picks|, most, out)
  {
    hide Best;
    out := [];
    NoneYet(picks, most);
    for l := 0 to |picks|
      invariant Best(picks, l, most, out)
    {
      SizeOf(picks, l, most, out);
      if picks[l].Swap? {
        var c := Candidate(picks[l].gain, l, picks[l].slot, picks[l].eid);
        if |out| < most {
          Appended(picks, l, most, out, c);
          out := out + [c];
        } else {
          var w := Worst(out);
          if c.gain > out[w].gain {
            Replaced(picks, l, most, out, w, c);
            out := out[w := c];
          } else {
            LeftOut(picks, l, most, out, w);
          }
        }
      } else {
        NoSwap(picks, l, most, out);
      }
    }
  }

  lemma NoneYet(picks: seq<Pick>, most: nat)
    ensures Best(picks, 0, most, [])
  {
  }

  lemma SizeOf(picks: seq<Pick>, n: nat, most: nat, out: seq<Candidate>)
    requires Best(picks, n, most, out)
    ensures |out| <= most
  {
  }

  lemma NoSwap(picks: seq<Pick>, n: nat, most: nat, out: seq<Candidate>)
    requires Best(picks, n, most, out) && n < |picks| && picks[n].Stay?
    ensures Best(picks, n + 1, most, out)
  {
  }

  lemma LeftOut(picks: seq<Pick>, n: nat, most: nat, out: seq<Candidate>, w: nat)
    requires Best(picks, n, most, out) && |out| == most && n < |picks| && picks[n].Swap?
    requires w < |out| && picks[n].gain <= out[w].gain && forall b :: 0 <= b < |out| ==> out[w].gain <= out[b].gain
    ensures Best(picks, n + 1, most, out)
  {
  }
}
