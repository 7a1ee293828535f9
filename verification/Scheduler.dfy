/** Bounded FIFO admission to the engine's one generation context. Each step is what a thread does
    between taking the lock and giving it up by waiting or leaving. */
module Scheduler {
  import opened Sequences

  type Ticket = nat

  /** What has become of a ticket. All but `Waiting` and `Holding` are final. */
  datatype Fate = Waiting | Holding | Done | Rejected | TimedOut | Cancelled | ClosedOut

  /** `cancelled` and `expired` are what the cancel callback and the clock say in that step. */
  datatype Event =
    | Arrive(t: Ticket, cancelled: bool, expired: bool)
    | Wake(t: Ticket, cancelled: bool, expired: bool)
    | Release
    | Close

  datatype Counters = Counters(admitted: nat, completed: nat, rejected: nat, timedOut: nat, cancelled: nat)

  /** The scheduler's fields, and the history: every ticket's fate, and the tickets that were ever
      put in the queue and that were admitted, in order. */
  datatype State = State(
    queue: seq<Ticket>, active: bool, closed: bool, counts: Counters,
    fates: map<Ticket, Fate>, enqueued: seq<Ticket>, log: seq<Ticket>)

  const START := State([], false, false, Counters(0, 0, 0, 0, 0), map[], [], [])

  function Remove(q: seq<Ticket>, t: Ticket): seq<Ticket> {
    if q == [] then [] else if q[0] == t then q[1..] else [q[0]] + Remove(q[1..], t)
  }

  /** Leaving the queue without having been admitted. */
  function GiveUp(s: State, t: Ticket, fate: Fate, counts: Counters): State {
    s.(queue := Remove(s.queue, t), fates := s.fates[t := fate], counts := counts)
  }

  /** One turn of the waiting loop by a queued ticket. */
  function Attempt(s: State, t: Ticket, cancelled: bool, expired: bool): State
    requires s.queue != []
  {
    if s.closed then GiveUp(s, t, ClosedOut, s.counts)
    else if !s.active && s.queue[0] == t then
      s.(queue := s.queue[1..], active := true, fates := s.fates[t := Holding], log := s.log + [t],
         counts := s.counts.(admitted := s.counts.admitted + 1))
    else if cancelled then GiveUp(s, t, Cancelled, s.counts.(cancelled := s.counts.cancelled + 1))
    else if expired then GiveUp(s, t, TimedOut, s.counts.(timedOut := s.counts.timedOut + 1))
    else s
  }

  /** Whether a turn of the waiting loop ends in `notify_all`. */
  predicate AttemptNotifies(s: State, t: Ticket, cancelled: bool, expired: bool)
    requires s.queue != []
  {
    s.closed || ((s.active || s.queue[0] != t) && (cancelled || expired))
  }

  function Enqueue(s: State, t: Ticket): State {
    s.(queue := s.queue + [t], fates := s.fates[t := Waiting], enqueued := s.enqueued + [t])
  }

  predicate Full(s: State, maxQueue: nat) {
    (s.active || s.queue != []) && |s.queue| >= maxQueue
  }

  /** The holder is done. */
  function Released(fates: map<Ticket, Fate>): map<Ticket, Fate> {
    map t | t in fates :: if fates[t] == Holding then Done else fates[t]
  }

  /** Which steps can be taken: tickets are new objects, only queued ones wake, only a holder
      releases. */
  predicate Enabled(s: State, e: Event) {
    match e
    case Arrive(t, _, _) => t !in s.fates
    case Wake(t, _, _) => t in s.queue
    case Release => s.active
    case Close => true
  }

  function Next(s: State, maxQueue: nat, e: Event): State
    requires Enabled(s, e)
  {
    match e
    case Arrive(t, cancelled, expired) =>
      if s.closed then s.(fates := s.fates[t := ClosedOut])
      else if Full(s, maxQueue) then
        s.(fates := s.fates[t := Rejected], counts := s.counts.(rejected := s.counts.rejected + 1))
      else Attempt(Enqueue(s, t), t, cancelled, expired)
    case Wake(t, cancelled, expired) => Attempt(s, t, cancelled, expired)
    case Release =>
      s.(active := false, counts := s.counts.(completed := s.counts.completed + 1),
         fates := Released(s.fates))
    case Close => s.(closed := true)
  }

  predicate Notifies(s: State, maxQueue: nat, e: Event)
    requires Enabled(s, e)
  {
    match e
    case Arrive(t, cancelled, expired) =>
      !s.closed && !Full(s, maxQueue) && AttemptNotifies(Enqueue(s, t), t, cancelled, expired)
    case Wake(t, cancelled, expired) => AttemptNotifies(s, t, cancelled, expired)
    case Release => true
    case Close => true
  }

  // ---------------------------------------------------------------- the scheduler object

  datatype Outcome = Entered | StillWaiting | SchedulerClosed | QueueFull | ClientCancelled | QueueTimeout

  /** What the caller of `admit` gets for each fate. */
  function Told(f: Fate): Outcome {
    match f
    case Waiting => StillWaiting
    case Holding => Entered
    case Done => Entered
    case Rejected => QueueFull
    case TimedOut => QueueTimeout
    case Cancelled => ClientCancelled
    case ClosedOut => SchedulerClosed
  }

  class GenerationScheduler {
    const maxQueue: nat
    var queue: seq<Ticket>
    var active: bool
    var closed: bool
    var admitted: nat
    var completed: nat
    var rejected: nat
    var timedOut: nat
    var cancelled: nat
    var notifications: nat
    ghost var fates: map<Ticket, Fate>
    ghost var enqueued: seq<Ticket>
    ghost var log: seq<Ticket>

    constructor (maxQueue: nat)
      ensures this.maxQueue == maxQueue && Abstract() == START
    {
      this.maxQueue := maxQueue;
      queue, active, closed := [], false, false;
      admitted, completed, rejected, timedOut, cancelled, notifications := 0, 0, 0, 0, 0, 0;
      fates, enqueued, log := map[], [], [];
    }

    ghost function Abstract(): State
      reads this
    {
      State(queue, active, closed, Counters(admitted, completed, rejected, timedOut, cancelled),
        fates, enqueued, log)
    }

    method RemoveFromQueue(t: Ticket)
      modifies this`queue
      ensures queue == Remove(old(queue), t)
    {
      var i := 0;
      while i < |queue| && queue[i] != t
        invariant i <= |queue|
        invariant Remove(queue, t) == queue[..i] + Remove(queue[i..], t)
      {
        i := i + 1;
      }
      queue := queue[..i] + (if i < |queue| then queue[i + 1..] else []);
    }

    /** Out of the queue without admission, waking the others. */
    method LeaveQueue(t: Ticket, ghost f: Fate)
      modifies `queue, `notifications, `fates
      ensures Abstract() == GiveUp(old(Abstract()), t, f, old(Abstract()).counts)
      ensures notifications == old(notifications) + 1 && t in fates && fates[t] == f
    {
      RemoveFromQueue(t);
      notifications := notifications + 1;
      fates := fates[t := f];
    }

    /** Out of the queue into the engine. */
    method Enter(t: Ticket)
      requires queue != [] && queue[0] == t && !active && !closed
      modifies this
      ensures Abstract() == Attempt(old(Abstract()), t, false, false)
      ensures notifications == old(notifications) && t in fates && fates[t] == Holding
    {
      queue := queue[1..];
      active := true;
      admitted := admitted + 1;
      fates, log := fates[t := Holding], log + [t];
    }

    /** One turn of the waiting loop of `admit`, with the lock held. */
    method WaitTurn(t: Ticket, isCancelled: bool, isExpired: bool) returns (o: Outcome)
      requires t in queue && t in fates && fates[t] == Waiting
      modifies this
      ensures Abstract() == Attempt(old(Abstract()), t, isCancelled, isExpired)
      ensures notifications ==
        old(notifications) + if AttemptNotifies(old(Abstract()), t, isCancelled, isExpired) then 1 else 0
      ensures t in fates && o == Told(fates[t])
    {
      hide Remove;
      if closed {
        LeaveQueue(t, ClosedOut);
        return SchedulerClosed;
      }
      if !active && queue[0] == t {
        Enter(t);
        return Entered;
      }
      if isCancelled {
        LeaveQueue(t, Fate.Cancelled);
        cancelled := cancelled + 1;
        return ClientCancelled;
      }
      if isExpired {
        LeaveQueue(t, Fate.TimedOut);
        timedOut := timedOut + 1;
        return QueueTimeout;
      }
      return StillWaiting;
    }

    /** `admit` from its entry to the first wait, or to its end. */
    method Admit(t: Ticket, isCancelled: bool, isExpired: bool) returns (o: Outcome)
      requires Enabled(Abstract(), Arrive(t, isCancelled, isExpired))
      modifies this
      ensures Abstract() == Next(old(Abstract()), maxQueue, Arrive(t, isCancelled, isExpired))
      ensures notifications == old(notifications) +
        if Notifies(old(Abstract()), maxQueue, Arrive(t, isCancelled, isExpired)) then 1 else 0
      ensures t in fates && o == Told(fates[t])
    {
      hide Attempt, AttemptNotifies, GiveUp, Remove, Released;
      if closed {
        fates := fates[t := ClosedOut];
        return SchedulerClosed;
      }
      if (active || |queue| > 0) && |queue| >= maxQueue {
        rejected := rejected + 1;
        fates := fates[t := Fate.Rejected];
        return QueueFull;
      }
      queue := queue + [t];
      fates, enqueued := fates[t := Waiting], enqueued + [t];
      o := WaitTurn(t, isCancelled, isExpired);
    }

    /** The `finally` block of the holder. */
    method Leave()
      requires active
      modifies this
      ensures Abstract() == Next(old(Abstract()), maxQueue, Release)
      ensures notifications == old(notifications) + 1
    {
      active := false;
      completed := completed + 1;
      notifications := notifications + 1;
      fates := Released(fates);
    }

    method Shutdown()
      modifies this
      ensures Abstract() == Next(old(Abstract()), maxQueue, Close)
      ensures notifications == old(notifications) + 1
    {
      closed := true;
      notifications := notifications + 1;
    }
  }

  // ---------------------------------------------------------------- what every step keeps

  /** The tickets of `ts` whose fate satisfies `keep`, in order. */
  function Select(ts: seq<Ticket>, fates: map<Ticket, Fate>, keep: Fate -> bool): seq<Ticket> {
    if ts == [] then []
    else
      var t := ts[|ts| - 1];
      Select(ts[..|ts| - 1], fates, keep) + if t in fates && keep(fates[t]) then [t] else []
  }

  const IsWaiting: Fate -> bool := f => f == Waiting
  const WasAdmitted: Fate -> bool := f => f == Holding || f == Done

  function WithFate(fates: map<Ticket, Fate>, f: Fate): set<Ticket> {
    set t | t in fates && fates[t] == f
  }

  /** Every ticket put in the queue is in the fates; whoever was admitted came before everyone
      who still waits. */
  predicate FirstCome(enqueued: seq<Ticket>, fates: map<Ticket, Fate>) {
    && (forall i :: 0 <= i < |enqueued| ==> enqueued[i] in fates)
    && (forall i, j :: 0 <= i < j < |enqueued| ==> enqueued[i] != enqueued[j])
    && (forall i, j :: 0 <= i < j < |enqueued| && WasAdmitted(fates[enqueued[j]]) ==> !IsWaiting(fates[enqueued[i]]))
  }

  predicate Counted(s: State) {
    && |WithFate(s.fates, Holding)| == (if s.active then 1 else 0)
    && |WithFate(s.fates, Done)| == s.counts.completed
    && |WithFate(s.fates, Rejected)| == s.counts.rejected
    && |WithFate(s.fates, TimedOut)| == s.counts.timedOut
    && |WithFate(s.fates, Cancelled)| == s.counts.cancelled
    && s.counts.admitted == s.counts.completed + (if s.active then 1 else 0)
    && |s.log| == s.counts.admitted
  }

  /** The queue is the enqueued tickets that still wait and the log those that were admitted, both
      in the order of enqueueing. */
  predicate InOrder(s: State) {
    && FirstCome(s.enqueued, s.fates)
    && s.queue == Select(s.enqueued, s.fates, IsWaiting)
    && s.log == Select(s.enqueued, s.fates, WasAdmitted)
    && (forall t :: t in s.fates && (IsWaiting(s.fates[t]) || WasAdmitted(s.fates[t])) ==> t in s.enqueued)
  }

  predicate Safe(s: State, maxQueue: nat) {
    && Counted(s)
    && InOrder(s)
    && |s.queue| <= (if maxQueue > 1 then maxQueue else 1)
  }

  // ---------------------------------------------------------------- selections and counts

  lemma {:induction false} SelectIn(ts: seq<Ticket>, fates: map<Ticket, Fate>, keep: Fate -> bool, t: Ticket)
    ensures t in Select(ts, fates, keep) <==> t in ts && t in fates && keep(fates[t])
  {
    if ts != [] {
      var init := ts[..|ts| - 1];
      SelectIn(init, fates, keep, t);
      assert ts == init + [ts[|ts| - 1]];
    }
  }

  /** A change of fates that no ticket of `ts` notices, as far as `keep` goes. */
  lemma {:induction false} SelectSame(ts: seq<Ticket>, f: map<Ticket, Fate>, g: map<Ticket, Fate>, keep: Fate -> bool)
    requires forall i :: 0 <= i < |ts| ==>
      (ts[i] in f && keep(f[ts[i]]) <==> ts[i] in g && keep(g[ts[i]]))
    ensures Select(ts, f, keep) == Select(ts, g, keep)
  {
    if ts != [] { SelectSame(ts[..|ts| - 1], f, g, keep); }
  }

  lemma {:induction false} RemoveAbsent(q: seq<Ticket>, t: Ticket)
    requires t !in q
    ensures Remove(q, t) == q
  {
    if q != [] { RemoveAbsent(q[1..], t); }
  }

  lemma RemoveStep(x: Ticket, rest: seq<Ticket>, t: Ticket)
    ensures Remove([x] + rest, t) == if x == t then rest else [x] + Remove(rest, t)
  {
    assert ([x] + rest)[1..] == rest;
  }

  lemma RemoveOverStep(x: Ticket, rest: seq<Ticket>, r: seq<Ticket>, t: Ticket)
    requires Remove(rest + r, t) == if t in rest then Remove(rest, t) + r else rest + Remove(r, t)
    ensures var q := [x] + rest; Remove(q + r, t) == if t in q then Remove(q, t) + r else q + Remove(r, t)
  {
    RemoveStep(x, rest, t);
    RemoveStep(x, rest + r, t);
    hide *;
    assert [x] + rest + r == [x] + (rest + r);
    if x != t {
      if t in rest {
        assert [x] + Remove(rest, t) + r == [x] + (Remove(rest, t) + r);
      } else {
        assert [x] + rest + Remove(r, t) == [x] + (rest + Remove(r, t));
      }
    }
  }

  lemma {:induction false} RemoveOverConcat(q: seq<Ticket>, r: seq<Ticket>, t: Ticket)
    ensures Remove(q + r, t) == if t in q then Remove(q, t) + r else q + Remove(r, t)
  {
    hide *;
    if q == [] {
      assert q + r == r && q + Remove(r, t) == Remove(r, t);
    } else {
      RemoveOverConcat(q[1..], r, t);
      assert q == [q[0]] + q[1..];
      RemoveOverStep(q[0], q[1..], r, t);
    }
  }

  /** A ticket that stops being kept is removed from the selection; the rest keeps its order. */
  lemma {:induction false} SelectDrop(ts: seq<Ticket>, fates: map<Ticket, Fate>, keep: Fate -> bool, t: Ticket, f: Fate)
    requires Distinct(ts) && !keep(f)
    ensures Select(ts, fates[t := f], keep) == Remove(Select(ts, fates, keep), t)
  {
    if ts != [] {
      var n := |ts| - 1;
      var init, last := ts[..n], ts[n];
      SelectDrop(init, fates, keep, t, f);
      var kept := if last in fates && keep(fates[last]) then [last] else [];
      RemoveOverConcat(Select(init, fates, keep), kept, t);
      if t !in Select(init, fates, keep) {
        RemoveAbsent(Select(init, fates, keep), t);
      }
      if last == t {
        SelectIn(init, fates, keep, t);
      } else {
        RemoveAbsent(kept, t);
      }
    }
  }

  /** A ticket that starts being kept, with no kept one behind it, joins at the end. */
  lemma {:induction false} SelectJoin(ts: seq<Ticket>, fates: map<Ticket, Fate>, keep: Fate -> bool, p: nat, f: Fate)
    requires Distinct(ts) && p < |ts| && ts[p] in fates && !keep(fates[ts[p]]) && keep(f)
    requires forall j :: p < j < |ts| ==> ts[j] in fates && !keep(fates[ts[j]])
    ensures Select(ts, fates[ts[p] := f], keep) == Select(ts, fates, keep) + [ts[p]]
  {
    var n := |ts| - 1;
    if p < n {
      SelectJoin(ts[..n], fates, keep, p, f);
    } else {
      SelectSame(ts[..n], fates, fates[ts[p] := f], keep);
    }
  }

  /** The head of a selection is the first kept ticket. */
  lemma {:induction false} SelectHead(ts: seq<Ticket>, fates: map<Ticket, Fate>, keep: Fate -> bool) returns (p: nat)
    requires Select(ts, fates, keep) != []
    ensures p < |ts| && ts[p] == Select(ts, fates, keep)[0]
    ensures forall i :: 0 <= i < p ==> !(ts[i] in fates && keep(fates[ts[i]]))
  {
    var n := |ts| - 1;
    if Select(ts[..n], fates, keep) == [] {
      p := n;
      forall i | 0 <= i < n ensures !(ts[i] in fates && keep(fates[ts[i]])) {
        assert ts[..n][i] == ts[i];
        SelectIn(ts[..n], fates, keep, ts[i]);
      }
    } else {
      p := SelectHead(ts[..n], fates, keep);
    }
  }

  lemma CountNew(fates: map<Ticket, Fate>, t: Ticket, f: Fate, g: Fate)
    requires t !in fates
    ensures |WithFate(fates[t := f], g)| == |WithFate(fates, g)| + if f == g then 1 else 0
  {
    assert WithFate(fates[t := f], g) == WithFate(fates, g) + if f == g then {t} else {};
  }

  lemma WithFateMoved(fates: map<Ticket, Fate>, t: Ticket, f: Fate, g: Fate)
    ensures WithFate(fates[t := f], g) == if f == g then WithFate(fates, g) + {t} else WithFate(fates, g) - {t}
  {
  }

  lemma CountMove(fates: map<Ticket, Fate>, t: Ticket, f: Fate, g: Fate)
    requires t in fates && fates[t] != f
    ensures |WithFate(fates[t := f], g)| ==
      |WithFate(fates, g)| + (if f == g then 1 else 0) - (if fates[t] == g then 1 else 0)
  {
    WithFateMoved(fates, t, f, g);
    var before := WithFate(fates, g);
    assert t in before <==> fates[t] == g;
    hide WithFate;
    assert t !in before ==> before - {t} == before;
  }

  lemma CountsMove(fates: map<Ticket, Fate>, t: Ticket, f: Fate)
    requires t in fates && fates[t] == Waiting && f != Waiting
    ensures forall g :: g != Waiting ==> |WithFate(fates[t := f], g)| == |WithFate(fates, g)| + if f == g then 1 else 0
  {
    forall g | g != Waiting ensures |WithFate(fates[t := f], g)| == |WithFate(fates, g)| + if f == g then 1 else 0 {
      CountMove(fates, t, f, g);
    }
  }

  lemma CountsNew(fates: map<Ticket, Fate>, t: Ticket, f: Fate)
    requires t !in fates
    ensures forall g :: |WithFate(fates[t := f], g)| == |WithFate(fates, g)| + if f == g then 1 else 0
  {
    forall g ensures |WithFate(fates[t := f], g)| == |WithFate(fates, g)| + if f == g then 1 else 0 {
      CountNew(fates, t, f, g);
    }
  }

  // ---------------------------------------------------------------- every step keeps it

  lemma {:induction false} RemoveLength(q: seq<Ticket>, t: Ticket)
    ensures |Remove(q, t)| <= |q|
  {
    if q != [] { RemoveLength(q[1..], t); }
  }

  lemma QueuedWaits(s: State, t: Ticket)
    requires InOrder(s) && t in s.queue
    ensures t in s.enqueued && t in s.fates && s.fates[t] == Waiting
  {
    SelectIn(s.enqueued, s.fates, IsWaiting, t);
  }

  lemma GiveUpSafe(s: State, maxQueue: nat, t: Ticket, f: Fate, counts: Counters)
    requires Safe(s, maxQueue) && t in s.queue
    requires (f == ClosedOut && counts == s.counts)
      || (f == Cancelled && counts == s.counts.(cancelled := s.counts.cancelled + 1))
      || (f == TimedOut && counts == s.counts.(timedOut := s.counts.timedOut + 1))
    ensures Safe(GiveUp(s, t, f, counts), maxQueue)
  {
    QueuedWaits(s, t);
    hide Select, Remove, WithFate, InOrder;
    CountsMove(s.fates, t, f);
    GiveUpInOrder(s, t, f, counts);
    RemoveLength(s.queue, t);
  }

  lemma GiveUpInOrder(s: State, t: Ticket, f: Fate, counts: Counters)
    requires InOrder(s) && t in s.queue && f !in {Waiting, Holding, Done}
    ensures InOrder(GiveUp(s, t, f, counts))
  {
    QueuedWaits(s, t);
    hide Select, Remove, WithFate;
    SelectDrop(s.enqueued, s.fates, IsWaiting, t, f);
    SelectSame(s.enqueued, s.fates, s.fates[t := f], WasAdmitted);
    GiveUpFirstCome(s.enqueued, s.fates, t, f);
  }

  lemma GiveUpFirstCome(ts: seq<Ticket>, fates: map<Ticket, Fate>, t: Ticket, f: Fate)
    requires FirstCome(ts, fates) && f !in {Waiting, Holding, Done}
    ensures FirstCome(ts, fates[t := f])
  {
  }

  lemma EnterSafe(s: State, maxQueue: nat)
    requires Safe(s, maxQueue) && s.queue != [] && !s.active && !s.closed
    ensures Safe(Attempt(s, s.queue[0], false, false), maxQueue)
  {
    QueuedWaits(s, s.queue[0]);
    hide Select, WithFate, InOrder;
    CountsMove(s.fates, s.queue[0], Holding);
    EnterInOrder(s);
  }

  lemma EnterFirstCome(ts: seq<Ticket>, fates: map<Ticket, Fate>, p: nat)
    requires FirstCome(ts, fates) && p < |ts| && fates[ts[p]] == Waiting
    requires forall i :: 0 <= i < p ==> !(ts[i] in fates && IsWaiting(fates[ts[i]]))
    ensures FirstCome(ts, fates[ts[p] := Holding]) && Distinct(ts)
    ensures forall j :: p < j < |ts| ==> ts[j] in fates && !WasAdmitted(fates[ts[j]])
  {
    var after := fates[ts[p] := Holding];
    forall i, j | 0 <= i < j < |ts| && WasAdmitted(after[ts[j]]) ensures !IsWaiting(after[ts[i]]) {
      assert ts[i] != ts[j];
    }
  }

  lemma EnterInOrder(s: State)
    requires InOrder(s) && s.queue != [] && !s.active && !s.closed
    ensures InOrder(Attempt(s, s.queue[0], false, false))
  {
    var t := s.queue[0];
    QueuedWaits(s, t);
    hide Remove;
    assert Remove(s.queue, t) == s.queue[1..] by {
      assert s.queue == [t] + s.queue[1..];
      RemoveStep(t, s.queue[1..], t);
    }
    var p := SelectHead(s.enqueued, s.fates, IsWaiting);
    EnterFirstCome(s.enqueued, s.fates, p);
    hide Select, FirstCome;
    SelectDrop(s.enqueued, s.fates, IsWaiting, t, Holding);
    SelectJoin(s.enqueued, s.fates, WasAdmitted, p, Holding);
  }

  lemma AttemptSafe(s: State, maxQueue: nat, t: Ticket, cancelled: bool, expired: bool)
    requires Safe(s, maxQueue) && t in s.queue
    ensures Safe(Attempt(s, t, cancelled, expired), maxQueue)
  {
    hide Safe;
    if s.closed {
      GiveUpSafe(s, maxQueue, t, ClosedOut, s.counts);
    } else if !s.active && s.queue[0] == t {
      EnterSafe(s, maxQueue);
    } else if cancelled {
      GiveUpSafe(s, maxQueue, t, Cancelled, s.counts.(cancelled := s.counts.cancelled + 1));
    } else if expired {
      GiveUpSafe(s, maxQueue, t, TimedOut, s.counts.(timedOut := s.counts.timedOut + 1));
    }
  }

  lemma EnqueueSafe(s: State, maxQueue: nat, t: Ticket)
    requires Safe(s, maxQueue) && t !in s.fates && !Full(s, maxQueue)
    ensures Safe(Enqueue(s, t), maxQueue)
  {
    hide Select, WithFate, InOrder;
    CountsNew(s.fates, t, Waiting);
    EnqueueInOrder(s, t);
  }

  lemma EnqueueInOrder(s: State, t: Ticket)
    requires InOrder(s) && t !in s.fates
    ensures InOrder(Enqueue(s, t))
  {
    var fates := s.fates[t := Waiting];
    SelectSnoc(s.enqueued, t, fates, IsWaiting);
    SelectSnoc(s.enqueued, t, fates, WasAdmitted);
    hide Select;
    SelectSame(s.enqueued, s.fates, fates, IsWaiting);
    SelectSame(s.enqueued, s.fates, fates, WasAdmitted);
  }

  lemma SelectSnoc(ts: seq<Ticket>, t: Ticket, fates: map<Ticket, Fate>, keep: Fate -> bool)
    ensures Select(ts + [t], fates, keep) ==
      Select(ts, fates, keep) + if t in fates && keep(fates[t]) then [t] else []
  {
    assert (ts + [t])[..|ts|] == ts;
  }

  lemma TurnAwaySafe(s: State, maxQueue: nat, t: Ticket, f: Fate, counts: Counters)
    requires Safe(s, maxQueue) && t !in s.fates
    requires (f == ClosedOut && counts == s.counts)
      || (f == Rejected && counts == s.counts.(rejected := s.counts.rejected + 1))
    ensures Safe(s.(fates := s.fates[t := f], counts := counts), maxQueue)
  {
    hide Select, WithFate;
    CountsNew(s.fates, t, f);
    SelectSame(s.enqueued, s.fates, s.fates[t := f], IsWaiting);
    SelectSame(s.enqueued, s.fates, s.fates[t := f], WasAdmitted);
  }

  lemma ReleaseSafe(s: State, maxQueue: nat)
    requires Safe(s, maxQueue) && s.active
    ensures Safe(Next(s, maxQueue, Release), maxQueue)
  {
    ReleasedCounts(s.fates);
    hide Select, WithFate, InOrder, Released;
    ReleaseInOrder(s, maxQueue);
  }

  lemma ReleasedCounts(fates: map<Ticket, Fate>)
    ensures |WithFate(Released(fates), Holding)| == 0
    ensures |WithFate(Released(fates), Done)| == |WithFate(fates, Done)| + |WithFate(fates, Holding)|
    ensures forall g :: g !in {Holding, Done} ==> |WithFate(Released(fates), g)| == |WithFate(fates, g)|
  {
    var after := Released(fates);
    assert WithFate(after, Holding) == {};
    ReleasedDone(fates);
    forall g | g !in {Holding, Done} ensures |WithFate(after, g)| == |WithFate(fates, g)| {
      assert WithFate(after, g) == WithFate(fates, g);
    }
  }

  lemma ReleasedDone(fates: map<Ticket, Fate>)
    ensures |WithFate(Released(fates), Done)| == |WithFate(fates, Done)| + |WithFate(fates, Holding)|
  {
    assert WithFate(Released(fates), Done) == WithFate(fates, Done) + WithFate(fates, Holding);
    Disjoint(WithFate(fates, Done), WithFate(fates, Holding));
  }

  lemma ReleaseInOrder(s: State, maxQueue: nat)
    requires InOrder(s) && s.active
    ensures InOrder(Next(s, maxQueue, Release))
  {
    var fates := Next(s, maxQueue, Release).fates;
    hide Select;
    SelectSame(s.enqueued, s.fates, fates, IsWaiting);
    SelectSame(s.enqueued, s.fates, fates, WasAdmitted);
  }

  lemma NextSafe(s: State, maxQueue: nat, e: Event)
    requires Safe(s, maxQueue) && Enabled(s, e)
    ensures Safe(Next(s, maxQueue, e), maxQueue)
  {
    match e
    case Arrive(t, cancelled, expired) =>
      if s.closed {
        TurnAwaySafe(s, maxQueue, t, ClosedOut, s.counts);
      } else if Full(s, maxQueue) {
        TurnAwaySafe(s, maxQueue, t, Rejected, s.counts.(rejected := s.counts.rejected + 1));
      } else {
        EnqueueSafe(s, maxQueue, t);
        AttemptSafe(Enqueue(s, t), maxQueue, t, cancelled, expired);
      }
    case Wake(t, cancelled, expired) => AttemptSafe(s, maxQueue, t, cancelled, expired);
    case Release => ReleaseSafe(s, maxQueue);
    case Close =>
  }

  // ---------------------------------------------------------------- whole runs

  /** The state after any interleaving of steps; a step that cannot be taken is skipped. */
  function After(maxQueue: nat, es: seq<Event>): State {
    if es == [] then START
    else
      var s, e := After(maxQueue, es[..|es| - 1]), es[|es| - 1];
      if Enabled(s, e) then Next(s, maxQueue, e) else s
  }

  /** After any interleaving: one holder at most, the counters count the fates, the queue is
      bounded, and both the queue and the admissions are in the order of arrival in the queue. */
  lemma {:induction false} RunSafe(maxQueue: nat, es: seq<Event>)
    ensures Safe(After(maxQueue, es), maxQueue)
  {
    if es != [] {
      RunSafe(maxQueue, es[..|es| - 1]);
      var s, e := After(maxQueue, es[..|es| - 1]), es[|es| - 1];
      if Enabled(s, e) { NextSafe(s, maxQueue, e); }
    }
  }

  /** A final fate stays; in particular nobody is admitted twice or after being turned away. */
  lemma FatesAreFinal(s: State, maxQueue: nat, e: Event, t: Ticket)
    requires Safe(s, maxQueue) && Enabled(s, e) && t in s.fates
    requires s.fates[t] != Waiting && s.fates[t] != Holding
    ensures t in Next(s, maxQueue, e).fates && Next(s, maxQueue, e).fates[t] == s.fates[t]
  {
    hide Select, Remove, WithFate;
    if e.Wake? { QueuedWaits(s, e.t); }
  }

  /** Closing is for good, and from then on nobody is admitted. */
  lemma {:induction false} NoAdmissionAfterClose(maxQueue: nat, es: seq<Event>, more: seq<Event>)
    requires After(maxQueue, es).closed
    ensures After(maxQueue, es + more).closed
    ensures After(maxQueue, es + more).log == After(maxQueue, es).log
  {
    if more == [] {
      assert es + more == es;
    } else {
      var init, e := more[..|more| - 1], more[|more| - 1];
      NoAdmissionAfterClose(maxQueue, es, init);
      assert (es + more)[..|es + more| - 1] == es + init;
    }
  }

  /** Whether a waiting ticket would leave the loop on its next turn without cancellation or
      timeout. */
  predicate CanGo(s: State, t: Ticket) {
    t in s.queue && (s.closed || (!s.active && s.queue[0] == t))
  }

  /** No lost wakeup: a step that lets some other waiting ticket go ends in `notify_all`. */
  lemma NoLostWakeup(s: State, maxQueue: nat, e: Event, t: Ticket)
    requires Safe(s, maxQueue) && Enabled(s, e)
    requires t in s.queue && !CanGo(s, t) && CanGo(Next(s, maxQueue, e), t)
    ensures Notifies(s, maxQueue, e)
  {
    hide Select, Remove, WithFate, Counted, InOrder;
  }

  /** With the engine free and the scheduler open, the head of the queue is admitted on its next
      turn, even if by then it was cancelled or has expired. */
  lemma HeadEnters(s: State, maxQueue: nat, cancelled: bool, expired: bool)
    requires s.queue != [] && !s.active && !s.closed
    ensures var r := Next(s, maxQueue, Wake(s.queue[0], cancelled, expired));
      && r.active && !r.closed && r.queue == s.queue[1..] && r.log == s.log + [s.queue[0]]
      && s.queue[0] in r.fates && r.fates[s.queue[0]] == Holding
  {
  }

  /** Rounds in which the holder, if any, leaves and the head of the queue gets its turn; the flags
      say what the cancel callback and the clock tell it. */
  function Rounds(s: State, maxQueue: nat, flags: seq<(bool, bool)>): (r: State)
    requires |flags| <= |s.queue| && !s.closed
    ensures r.queue == s.queue[|flags|..] && !r.closed
  {
    if flags == [] then s
    else
      var n := |flags| - 1;
      var before := Rounds(s, maxQueue, flags[..n]);
      var free := if before.active then Next(before, maxQueue, Release) else before;
      Next(free, maxQueue, Wake(free.queue[0], flags[n].0, flags[n].1))
  }

  lemma NoRounds(s: State, maxQueue: nat, flags: seq<(bool, bool)>)
    requires flags == [] && !s.closed
    ensures Rounds(s, maxQueue, flags) == s
  {
  }

  lemma LastRound(s: State, maxQueue: nat, flags: seq<(bool, bool)>)
    requires 0 < |flags| <= |s.queue| && !s.closed
    ensures var p := |flags| - 1;
      var r := Rounds(s, maxQueue, flags);
      && r.log == Rounds(s, maxQueue, flags[..p]).log + [s.queue[p]]
      && s.queue[p] in r.fates && r.fates[s.queue[p]] == Holding
  {
    var p := |flags| - 1;
    var before := Rounds(s, maxQueue, flags[..p]);
    var free := if before.active then Next(before, maxQueue, Release) else before;
    assert free.queue == s.queue[p..] && free.log == before.log && !free.active && !free.closed;
    assert Rounds(s, maxQueue, flags) ==
      Next(free, maxQueue, Wake(free.queue[0], flags[p].0, flags[p].1));
    hide Rounds, Next;
    HeadEnters(free, maxQueue, flags[p].0, flags[p].1);
  }

  /** Progress: a ticket at position `p` of the queue holds the engine after p + 1 such rounds,
      after exactly the tickets ahead of it, in their order. */
  lemma {:induction false} Progress(s: State, maxQueue: nat, flags: seq<(bool, bool)>, p: nat)
    requires p < |s.queue| && !s.closed && |flags| == p + 1
    ensures var r := Rounds(s, maxQueue, flags);
      && r.log == s.log + s.queue[..p + 1]
      && s.queue[p] in r.fates && r.fates[s.queue[p]] == Holding
    decreases p
  {
    hide *;
    var before := Rounds(s, maxQueue, flags[..p]);
    LastRound(s, maxQueue, flags);
    if p > 0 {
      Progress(s, maxQueue, flags[..p], p - 1);
    } else {
      NoRounds(s, maxQueue, flags[..p]);
      assert s.log + s.queue[..0] == s.log;
    }
    assert s.log + s.queue[..p] + [s.queue[p]] == s.log + s.queue[..p + 1];
  }

  lemma {:induction false} RemovePosition(q: seq<Ticket>, u: Ticket, t: Ticket)
    requires t in q && t != u
    ensures t in Remove(q, u) && IndexOf(Remove(q, u), t) <= IndexOf(q, t)
  {
    if q[0] != u && q[0] != t {
      RemovePosition(q[1..], u, t);
    }
  }

  lemma {:induction false} RemoveGone(q: seq<Ticket>, t: Ticket)
    requires Distinct(q)
    ensures t !in Remove(q, t)
  {
    if q != [] && q[0] != t {
      RemoveGone(q[1..], t);
    } else if q != [] {
      assert forall i :: 0 <= i < |q[1..]| ==> q[1..][i] == q[i + 1];
    }
  }

  lemma {:induction false} PositionBefore(q: seq<Ticket>, u: Ticket, t: Ticket)
    requires t in q
    ensures IndexOf(q + [u], t) == IndexOf(q, t)
  {
    if q[0] != t {
      assert (q + [u])[1..] == q[1..] + [u];
      PositionBefore(q[1..], u, t);
    }
  }

  /** One turn of the waiting loop of `u` costs a ticket still waiting no place in the queue, and
      an admission takes one from those ahead of it. */
  lemma AttemptPosition(s: State, u: Ticket, cancelled: bool, expired: bool, t: Ticket)
    requires Distinct(s.queue) && u in s.queue && t in Attempt(s, u, cancelled, expired).queue
    ensures var r := Attempt(s, u, cancelled, expired);
      && t in s.queue && |s.log| <= |r.log|
      && |r.log| + IndexOf(r.queue, t) <= |s.log| + IndexOf(s.queue, t)
  {
    RemoveGone(s.queue, u);
    if t in s.queue && t != u { RemovePosition(s.queue, u, t); }
    RemoveSubset(s.queue, u, t);
    if !s.closed && !s.active && s.queue[0] == u {
      assert t != u by { HeadOnce(s.queue, t); }
    }
  }

  lemma HeadOnce(q: seq<Ticket>, t: Ticket)
    requires q != [] && Distinct(q) && t in q[1..]
    ensures t != q[0]
  {
  }

  lemma {:induction false} RemoveSubset(q: seq<Ticket>, u: Ticket, t: Ticket)
    ensures t in Remove(q, u) ==> t in q
  {
    if q != [] && q[0] != u { RemoveSubset(q[1..], u, t); }
  }

  lemma StepPosition(s: State, maxQueue: nat, e: Event, t: Ticket)
    requires Safe(s, maxQueue) && Enabled(s, e) && t in s.fates && t in Next(s, maxQueue, e).queue
    ensures t in Next(s, maxQueue, e).fates && t in s.queue
    ensures var r := Next(s, maxQueue, e);
      |s.log| <= |r.log| && |r.log| + IndexOf(r.queue, t) <= |s.log| + IndexOf(s.queue, t)
  {
    QueueDistinct(s);
    hide Select, Remove, WithFate, IndexOf, Distinct, Counted, FirstCome, Attempt;
    match e
    case Arrive(u, cancelled, expired) =>
      if !s.closed && !Full(s, maxQueue) {
        EnqueuedDistinct(s, u);
        AttemptPosition(Enqueue(s, u), u, cancelled, expired, t);
        PositionBefore(s.queue, u, t);
        AttemptFates(Enqueue(s, u), u, cancelled, expired, t);
      }
    case Wake(u, cancelled, expired) =>
      AttemptPosition(s, u, cancelled, expired, t);
      AttemptFates(s, u, cancelled, expired, t);
    case Release =>
    case Close =>
  }

  lemma AttemptFates(s: State, u: Ticket, cancelled: bool, expired: bool, t: Ticket)
    requires s.queue != [] && t in s.fates
    ensures t in Attempt(s, u, cancelled, expired).fates
  {
  }

  lemma QueueDistinct(s: State)
    requires InOrder(s)
    ensures Distinct(s.queue)
  {
    SelectDistinct(s.enqueued, s.fates, IsWaiting);
  }

  lemma EnqueuedDistinct(s: State, u: Ticket)
    requires InOrder(s) && u !in s.fates
    ensures Distinct(s.queue + [u])
  {
    QueueDistinct(s);
    SelectIn(s.enqueued, s.fates, IsWaiting, u);
  }

  /** No overtaking, over every interleaving: while a ticket waits, no more tickets are admitted
      than were ahead of it, and its position only falls. */
  lemma {:induction false} NoOvertaking(maxQueue: nat, es: seq<Event>, more: seq<Event>, t: Ticket)
    requires t in After(maxQueue, es).queue && t in After(maxQueue, es + more).queue
    ensures var s, r := After(maxQueue, es), After(maxQueue, es + more);
      |s.log| <= |r.log| && |r.log| + IndexOf(r.queue, t) <= |s.log| + IndexOf(s.queue, t)
  {
    hide Safe, IndexOf;
    if more == [] {
      assert es + more == es;
    } else {
      var init, e := more[..|more| - 1], more[|more| - 1];
      assert (es + more)[..|es + more| - 1] == es + init;
      var before := After(maxQueue, es + init);
      RunSafe(maxQueue, es + init);
      StaysKnown(maxQueue, es, init, t);
      if Enabled(before, e) {
        StepPosition(before, maxQueue, e, t);
      }
      NoOvertaking(maxQueue, es, init, t);
    }
  }

  /** Nobody who has arrived is forgotten. */
  lemma {:induction false} StaysKnown(maxQueue: nat, es: seq<Event>, more: seq<Event>, t: Ticket)
    requires t in After(maxQueue, es).queue
    ensures t in After(maxQueue, es + more).fates
  {
    if more == [] {
      assert es + more == es;
      RunSafe(maxQueue, es);
      QueuedWaits(After(maxQueue, es), t);
    } else {
      var init := more[..|more| - 1];
      StaysKnown(maxQueue, es, init, t);
      assert (es + more)[..|es + more| - 1] == es + init;
      hide Remove, Select;
    }
  }

  /** Every ticket that ever arrived has exactly one fate, and the counters account for all. */
  lemma EveryTicketAccounted(s: State, maxQueue: nat)
    requires Safe(s, maxQueue)
    ensures |s.fates| == |s.queue| + s.counts.admitted + s.counts.rejected + s.counts.timedOut
      + s.counts.cancelled + |WithFate(s.fates, ClosedOut)|
  {
    WaitingAreQueued(s);
    FatesPartition(s.fates);
  }

  lemma {:induction false} FatesPartition(f: map<Ticket, Fate>)
    ensures |f| == |WithFate(f, Waiting)| + |WithFate(f, Holding)| + |WithFate(f, Done)| + |WithFate(f, Rejected)|
      + |WithFate(f, TimedOut)| + |WithFate(f, Cancelled)| + |WithFate(f, ClosedOut)|
    decreases |f|
  {
    if f == map[] {
      assert forall g :: WithFate(f, g) == {};
    } else {
      var t :| t in f;
      var rest := f - {t};
      assert f == rest[t := f[t]];
      CountsNew(rest, t, f[t]);
      hide WithFate;
      FatesPartition(rest);
    }
  }

  lemma Disjoint(a: set<Ticket>, b: set<Ticket>)
    requires a !! b
    ensures |a + b| == |a| + |b|
  {
  }

  lemma WaitingAreQueued(s: State)
    requires InOrder(s)
    ensures |WithFate(s.fates, Waiting)| == |s.queue|
  {
    forall t ensures t in WithFate(s.fates, Waiting) <==> t in s.queue {
      SelectIn(s.enqueued, s.fates, IsWaiting, t);
    }
    SelectDistinct(s.enqueued, s.fates, IsWaiting);
    DistinctCount(s.queue);
    assert WithFate(s.fates, Waiting) == Elements(s.queue);
  }

  lemma {:induction false} SelectDistinct(ts: seq<Ticket>, fates: map<Ticket, Fate>, keep: Fate -> bool)
    requires Distinct(ts)
    ensures Distinct(Select(ts, fates, keep))
  {
    if ts != [] {
      var init := ts[..|ts| - 1];
      SelectDistinct(init, fates, keep);
      SelectIn(init, fates, keep, ts[|ts| - 1]);
    }
  }
}
