/** What each step of the scheduler does to the queue, the counters and the tickets. */
module SchedulerLaws {
  import opened Scheduler
  import opened Sequences

  /** Of a request that arrives at a closed scheduler nothing but its fate is kept. */
  lemma ArriveClosed(s: State, m: nat, t: Ticket, cancelled: bool, expired: bool)
    requires s.closed && t !in s.fates
    ensures var r := Next(s, m, Arrive(t, cancelled, expired));
      r == State(s.queue, s.active, true, s.counts, s.fates[t := ClosedOut], s.enqueued, s.log)
  {
  }

  /** With the engine free and nobody waiting a request is admitted at once, whatever the limit, and
      even if it is cancelled or too late. */
  lemma ArriveFree(s: State, m: nat, t: Ticket, cancelled: bool, expired: bool)
    requires !s.closed && t !in s.fates && !s.active && s.queue == []
    ensures var r := Next(s, m, Arrive(t, cancelled, expired)); var c := s.counts;
      r == State([], true, false, Counters(c.admitted + 1, c.completed, c.rejected, c.timedOut, c.cancelled),
                 s.fates[t := Holding], s.enqueued + [t], s.log + [t])
  {
    assert s.queue + [t] == [t];
    assert s.fates[t := Waiting][t := Holding] == s.fates[t := Holding];
  }

  /** Otherwise it is rejected exactly if as many wait as may, and nothing else changes. */
  lemma ArriveBusy(s: State, m: nat, t: Ticket, cancelled: bool, expired: bool)
    requires !s.closed && t !in s.fates && (s.active || s.queue != []) && t !in s.queue
    ensures var r := Next(s, m, Arrive(t, cancelled, expired)); var c := s.counts;
      && (r.fates[t] == Rejected <==> |s.queue| >= m)
      && (|s.queue| >= m ==>
            r == State(s.queue, s.active, false,
                       Counters(c.admitted, c.completed, c.rejected + 1, c.timedOut, c.cancelled),
                       s.fates[t := Rejected], s.enqueued, s.log))
      && (|s.queue| < m && !cancelled && !expired ==>
            r == State(s.queue + [t], s.active, false, c, s.fates[t := Waiting], s.enqueued + [t], s.log))
      && (|s.queue| < m && cancelled ==>
            r == State(s.queue, s.active, false,
                       Counters(c.admitted, c.completed, c.rejected, c.timedOut, c.cancelled + 1),
                       s.fates[t := Cancelled], s.enqueued + [t], s.log))
      && (|s.queue| < m && !cancelled && expired ==>
            r == State(s.queue, s.active, false,
                       Counters(c.admitted, c.completed, c.rejected, c.timedOut + 1, c.cancelled),
                       s.fates[t := TimedOut], s.enqueued + [t], s.log))
  {
    RemoveLast(s.queue, t);
    hide Remove;
    assert s.fates[t := Waiting][t := Cancelled] == s.fates[t := Cancelled];
    assert s.fates[t := Waiting][t := TimedOut] == s.fates[t := TimedOut];
    if s.queue != [] { assert (s.queue + [t])[0] == s.queue[0]; }
  }

  lemma {:induction false} RemoveLast(q: seq<Ticket>, t: Ticket)
    requires t !in q
    ensures Remove(q + [t], t) == q
  {
    if q != [] {
      RemoveLast(q[1..], t);
      assert (q + [t])[1..] == q[1..] + [t] && [q[0]] + q[1..] == q;
    }
  }

  lemma {:induction false} RemoveIs(a: seq<Ticket>, t: Ticket, b: seq<Ticket>)
    requires t !in a
    ensures Remove(a + [t] + b, t) == a + b
  {
    hide *;
    if a == [] {
      RemoveStep(t, b, t);
      assert a + [t] + b == [t] + b && a + b == b;
    } else {
      var x, rest := a[0], a[1..];
      assert x in a && forall y :: y in rest ==> y in a;
      RemoveIs(rest, t, b);
      RemoveStep(x, rest + [t] + b, t);
      assert a + [t] + b == [x] + (rest + [t] + b);
      assert a + b == [x] + (rest + b);
    }
  }

  /** A waiting request that gets its turn: closing comes first, then admission of the head of the
      queue, then cancelling, then the deadline. `a` wait ahead of it and `b` behind. */
  lemma WakeIs(s: State, m: nat, a: seq<Ticket>, t: Ticket, b: seq<Ticket>, cancelled: bool, expired: bool)
    requires s.queue == a + [t] + b && t !in a
    ensures t in s.queue
    ensures var r := Next(s, m, Wake(t, cancelled, expired)); var c := s.counts;
      && (s.closed ==> r == State(a + b, s.active, true, c, s.fates[t := ClosedOut], s.enqueued, s.log))
      && (!s.closed && !s.active && a == [] ==>
            r == State(b, true, false, Counters(c.admitted + 1, c.completed, c.rejected, c.timedOut, c.cancelled),
                       s.fates[t := Holding], s.enqueued, s.log + [t]))
      && (!s.closed && (s.active || a != []) && cancelled ==>
            r == State(a + b, s.active, false,
                       Counters(c.admitted, c.completed, c.rejected, c.timedOut, c.cancelled + 1),
                       s.fates[t := Cancelled], s.enqueued, s.log))
      && (!s.closed && (s.active || a != []) && !cancelled && expired ==>
            r == State(a + b, s.active, false,
                       Counters(c.admitted, c.completed, c.rejected, c.timedOut + 1, c.cancelled),
                       s.fates[t := TimedOut], s.enqueued, s.log))
      && (!s.closed && (s.active || a != []) && !cancelled && !expired ==> r == s)
  {
    RemoveIs(a, t, b);
    AheadOf(a, t, b);
    hide Remove;
  }

  lemma AheadOf(a: seq<Ticket>, t: Ticket, b: seq<Ticket>)
    requires t !in a
    ensures t in a + [t] + b && ((a + [t] + b)[0] == t <==> a == []) && (a == [] ==> (a + [t] + b)[1..] == b)
  {
    assert (a + [t] + b)[|a|] == t;
    if a != [] { assert (a + [t] + b)[0] == a[0]; }
  }

  /** The holder leaving frees the engine and changes no other ticket. */
  lemma ReleaseIs(s: State, m: nat)
    requires s.active
    ensures var r := Next(s, m, Release); var c := s.counts;
      && r.queue == s.queue && !r.active && r.closed == s.closed && r.enqueued == s.enqueued && r.log == s.log
      && r.counts == Counters(c.admitted, c.completed + 1, c.rejected, c.timedOut, c.cancelled)
      && r.fates.Keys == s.fates.Keys
      && forall t :: t in s.fates ==> r.fates[t] == if s.fates[t] == Holding then Done else s.fates[t]
  {
  }

  lemma CloseIs(s: State, m: nat)
    ensures Next(s, m, Close) == State(s.queue, s.active, true, s.counts, s.fates, s.enqueued, s.log)
  {
  }

  /** The others are notified exactly when a ticket leaves the queue without being admitted, when the
      holder leaves, and on closing. */
  lemma NotifiesIff(s: State, m: nat, e: Event)
    requires Enabled(s, e) && (e.Arrive? ==> e.t !in s.queue)
    ensures Notifies(s, m, e) <==>
      match e
      case Arrive(t, _, _) => Next(s, m, e).fates[t] in {Cancelled, TimedOut}
      case Wake(t, _, _) => |Next(s, m, e).queue| < |s.queue| && !(Next(s, m, e).active && !s.active)
      case Release => true
      case Close => true
  {
    match e
    case Arrive(t, cancelled, expired) =>
      if s.closed {
        ArriveClosed(s, m, t, cancelled, expired);
      } else if !s.active && s.queue == [] {
        ArriveFree(s, m, t, cancelled, expired);
      } else {
        ArriveBusy(s, m, t, cancelled, expired);
      }
    case Wake(t, cancelled, expired) =>
      var i := IndexOf(s.queue, t);
      IndexOfFirst(s.queue, t);
      assert s.queue == s.queue[..i] + [t] + s.queue[i + 1..];
      hide IndexOf;
      WakeIs(s, m, s.queue[..i], t, s.queue[i + 1..], cancelled, expired);
    case _ =>
  }

  /** What the caller is told, for each fate. */
  lemma ToldIff(f: Fate)
    ensures Told(f) == Entered <==> f in {Holding, Done}
    ensures Told(f) == StillWaiting <==> f == Waiting
    ensures Told(f) == SchedulerClosed <==> f == ClosedOut
    ensures Told(f) == QueueFull <==> f == Rejected
    ensures Told(f) == ClientCancelled <==> f == Cancelled
    ensures Told(f) == QueueTimeout <==> f == TimedOut
  {
  }

  /** A run takes its steps one by one, skipping those that cannot be taken: a ticket arriving twice,
      one getting a turn that does not wait, and leaving with nobody holding the engine. */
  lemma AfterAdds(m: nat, es: seq<Event>, e: Event)
    ensures After(m, []) == State([], false, false, Counters(0, 0, 0, 0, 0), map[], [], [])
    ensures var s := After(m, es);
      && (Enabled(s, e) ==> After(m, es + [e]) == Next(s, m, e))
      && (!Enabled(s, e) ==> After(m, es + [e]) == s)
      && (Enabled(s, e) <==>
            match e
            case Arrive(t, _, _) => t !in s.fates.Keys
            case Wake(t, _, _) => exists i :: 0 <= i < |s.queue| && s.queue[i] == t
            case Release => s.active == true
            case Close => true)
  {
    assert (es + [e])[..|es|] == es;
    hide Next;
  }

  /** A waiting ticket can go exactly if a turn, without cancellation or timeout, changes anything. */
  lemma CanGoIff(s: State, m: nat, t: Ticket)
    requires t in s.queue
    ensures CanGo(s, t) <==> Next(s, m, Wake(t, false, false)) != s
  {
    if s.closed {
      RemoveShorter(s.queue, t);
    }
  }

  lemma {:induction false} RemoveShorter(q: seq<Ticket>, t: Ticket)
    requires t in q
    ensures |Remove(q, t)| == |q| - 1
  {
    if q[0] != t { RemoveShorter(q[1..], t); }
  }
}
