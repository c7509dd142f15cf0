/**
 * `internal/sink/batch.go`: the batch buffer, its timers and their races.
 *
 * The object is the set of fields guarded by the mutex together with the runtime's timers;
 * its methods are the critical sections. The system around it interleaves those sections
 * with timers firing, callbacks being scheduled, batches being handed over outside the lock
 * and time passing, in any order.
 */
module Batch {
  import opened Wrappers
  import opened Events
  import Multisets
  import Seqs

  /** `Pending` is a timer that fired: its callback goroutine exists and `Stop` can no longer cancel it. */
  datatype Status = Armed | Pending | Stopped | Ran
  datatype Timer = Timer(deadline: nat, status: Status)
  datatype Trigger = Size | Time | Close

  /** A batch taken out of the buffer, why, and the context its delivery will use (None: Close makes its own). */
  datatype Taken = Taken(events: seq<Event>, trigger: Trigger, ctx: Option<nat>)

  datatype Config = Config(maxSize: nat, maxWait: nat)

  /** `buffer`, `timer`, `flushCtx`, and the timers created so far; a timer's name is its index. */
  datatype Sink = Sink(buffer: seq<Event>, timer: Option<nat>, flushCtx: Option<nat>, timers: seq<Timer>)

  const EMPTY := Sink([], None, None, [])

  predicate WellNamed(c: Sink) { c.timer.Some? ==> c.timer.value < |c.timers| }

  /** `b.timer.Stop()` and `b.timer = nil`. */
  function StopTimer(c: Sink): Sink
    requires WellNamed(c)
  {
    match c.timer
    case None => c
    case Some(id) =>
      c.(timer := None,
         timers := if c.timers[id].status.Armed? then c.timers[id := c.timers[id].(status := Stopped)] else c.timers)
  }

  function DeliverSection(cfg: Config, c: Sink, event: Event, ctx: nat, now: nat): (Sink, Option<Taken>)
    requires WellNamed(c)
  {
    var c1 := c.(flushCtx := if c.flushCtx.None? then Some(ctx) else c.flushCtx, buffer := c.buffer + [event]);
    var c2 := if |c1.buffer| == 1
              then c1.(timer := Some(|c.timers|), timers := c.timers + [Timer(now + cfg.maxWait, Armed)])
              else c1;
    if |c2.buffer| >= cfg.maxSize
    then (StopTimer(c2.(buffer := [])), Some(Taken(c2.buffer, Size, Some(ctx))))
    else (c2, None)
  }

  function CallbackSection(c: Sink, id: nat): (Sink, Option<Taken>)
    requires id < |c.timers|
  {
    (c.(buffer := [], timers := c.timers[id := c.timers[id].(status := Ran)]),
     if c.buffer == [] then None else Some(Taken(c.buffer, Time, c.flushCtx)))
  }

  function CloseSection(c: Sink): (Sink, Option<Taken>)
    requires WellNamed(c)
  {
    (StopTimer(c).(buffer := []), if c.buffer == [] then None else Some(Taken(c.buffer, Close, None)))
  }

  class BatchSink {
    const cfg: Config
    var buffer: seq<Event>
    var timer: Option<nat>
    var flushCtx: Option<nat>
    var timers: seq<Timer>

    function Abs(): Sink
      reads this
    {
      Sink(buffer, timer, flushCtx, timers)
    }

    predicate Valid()
      reads this
    {
      WellNamed(Abs())
    }

    constructor (cfg: Config)
      ensures this.cfg == cfg && Abs() == EMPTY && Valid()
    {
      this.cfg := cfg;
      buffer, timer, flushCtx, timers := [], None, None, [];
    }

    method TakeBatchLocked() returns (batch: seq<Event>)
      modifies this
      ensures batch == old(buffer)
      ensures Abs() == old(Abs()).(buffer := [])
    {
      batch := buffer;
      buffer := [];
    }

    method StopTimerLocked()
      requires Valid()
      modifies this
      ensures Valid() && Abs() == StopTimer(old(Abs()))
    {
      if timer.Some? {
        if timers[timer.value].status.Armed? {
          timers := timers[timer.value := timers[timer.value].(status := Stopped)];
        }
        timer := None;
      }
    }

    /** The critical section of `Deliver`; a batch comes back when the size trigger fired. */
    method Deliver(event: Event, ctx: nat, now: nat) returns (batch: Option<Taken>)
      requires Valid()
      modifies this
      ensures Valid() && (Abs(), batch) == DeliverSection(cfg, old(Abs()), event, ctx, now)
    {
      batch := None;
      if flushCtx.None? {
        flushCtx := Some(ctx);
      }
      buffer := buffer + [event];
      if |buffer| == 1 {
        timer := Some(|timers|);
        timers := timers + [Timer(now + cfg.maxWait, Armed)];
      }
      if |buffer| >= cfg.maxSize {
        var events := TakeBatchLocked();
        StopTimerLocked();
        batch := Some(Taken(events, Size, Some(ctx)));
      }
    }

    /** The critical section of a timer's callback; an empty batch is not handed over. */
    method TimerCallback(id: nat) returns (batch: Option<Taken>)
      requires Valid() && id < |timers|
      modifies this
      ensures Valid() && (Abs(), batch) == CallbackSection(old(Abs()), id)
    {
      timers := timers[id := timers[id].(status := Ran)];
      var events := TakeBatchLocked();
      batch := if |events| > 0 then Some(Taken(events, Time, flushCtx)) else None;
    }

    /** The critical section of `Close`. */
    method CloseSink() returns (batch: Option<Taken>)
      requires Valid()
      modifies this
      ensures Valid() && (Abs(), batch) == CloseSection(old(Abs()))
    {
      StopTimerLocked();
      var events := TakeBatchLocked();
      batch := if |events| > 0 then Some(Taken(events, Close, None)) else None;
    }
  }

  // ------------------------------------------------------------------- system

  /** An event given to Deliver. `waits` names the batch whose `DeliverBatch` error that call returns; without one it
      returned nil at once. */
  datatype Arrival = Arrival(event: Event, at: nat, ctx: nat, waits: Option<nat>)

  /** `taken` lists the batches in the order they left the buffer; `handed` the order in which
      `DeliverBatch` was called on them. A batch taken and not handed is held by some goroutine. */
  datatype System = System(sink: Sink, now: nat, accepted: seq<Arrival>, taken: seq<Taken>, handed: seq<nat>)

  datatype Action =
    | DoDeliver(event: Event, ctx: nat)
    | Fire(id: nat)
    | Callback(id: nat)
    | DoClose
    | Hand(i: nat)
    | Advance(dt: nat)

  const INITIAL := System(EMPTY, 0, [], [], [])

  predicate Enabled(s: System, a: Action)
  {
    match a
    case Fire(id) => id < |s.sink.timers| && s.sink.timers[id].status.Armed? && s.sink.timers[id].deadline <= s.now
    case Callback(id) => id < |s.sink.timers| && s.sink.timers[id].status.Pending?
    case Hand(i) => i < |s.taken| && i !in s.handed
    case _ => true
  }

  function Leave(s: System, r: (Sink, Option<Taken>)): System
  {
    s.(sink := r.0, taken := s.taken + (match r.1 case Some(t) => [t] case None => []))
  }

  function Apply(cfg: Config, s: System, a: Action): System
    requires WellNamed(s.sink) && Enabled(s, a)
  {
    match a
    case DoDeliver(e, ctx) =>
      var r := DeliverSection(cfg, s.sink, e, ctx, s.now);
      var waits := if r.1.Some? then Some(|s.taken|) else None;
      Leave(s.(accepted := s.accepted + [Arrival(e, s.now, ctx, waits)]), r)
    case Fire(id) =>
      s.(sink := s.sink.(timers := s.sink.timers[id := s.sink.timers[id].(status := Pending)]))
    case Callback(id) => Leave(s, CallbackSection(s.sink, id))
    case DoClose => Leave(s, CloseSection(s.sink))
    case Hand(i) => s.(handed := s.handed + [i])
    case Advance(dt) => s.(now := s.now + dt)
  }

  /** Any interleaving: an action that is not enabled does not happen. */
  function Exec(cfg: Config, s: System, actions: seq<Action>): System
  {
    if actions == [] then s else
    var s1 := Exec(cfg, s, actions[..|actions| - 1]);
    var a := actions[|actions| - 1];
    if WellNamed(s1.sink) && Enabled(s1, a) then Apply(cfg, s1, a) else s1
  }

  lemma {:induction false} ExecSnoc(cfg: Config, s: System, actions: seq<Action>, a: Action)
    ensures var s1 := Exec(cfg, s, actions);
            Exec(cfg, s, actions + [a]) == if WellNamed(s1.sink) && Enabled(s1, a) then Apply(cfg, s1, a) else s1
  {
    assert (actions + [a])[..|actions|] == actions;
  }

  // --------------------------------------------------------------- invariants

  ghost function Flat(taken: seq<Taken>): seq<Event>
  {
    if taken == [] then [] else Flat(taken[..|taken| - 1]) + taken[|taken| - 1].events
  }

  ghost function EventsOf(arrivals: seq<Arrival>): seq<Event>
  {
    seq(|arrivals|, i requires 0 <= i < |arrivals| => arrivals[i].event)
  }

  /** The largest a batch gets; a maxSize of zero behaves like one. */
  function Capacity(cfg: Config): nat { if cfg.maxSize == 0 then 1 else cfg.maxSize }

  /** The batches in take order followed by the buffer are the accepted events, in order, each once. */
  ghost predicate Conserved(s: System)
  {
    Flat(s.taken) + s.sink.buffer == EventsOf(s.accepted)
  }

  ghost predicate Sized(cfg: Config, s: System)
  {
    && |s.sink.buffer| < Capacity(cfg)
    && forall i :: 0 <= i < |s.taken| ==>
         && 0 < |s.taken[i].events| <= Capacity(cfg)
         && (s.taken[i].trigger.Size? <==> |s.taken[i].events| == Capacity(cfg))
  }

  ghost predicate HandedOnce(s: System)
  {
    && (forall i :: 0 <= i < |s.handed| ==> s.handed[i] < |s.taken|)
    && (forall i, j :: 0 <= i < j < |s.handed| ==> s.handed[i] != s.handed[j])
  }

  ghost predicate Timed(s: System)
  {
    && WellNamed(s.sink)
    && (forall i :: 0 <= i < |s.sink.timers| && s.sink.timers[i].status.Pending? ==> s.sink.timers[i].deadline <= s.now)
    && (forall i :: 0 <= i < |s.accepted| ==> s.accepted[i].at <= s.now)
    && (forall i, j :: 0 <= i < j < |s.accepted| ==> s.accepted[i].at <= s.accepted[j].at)
  }

  /** A non-empty buffer is watched by the timer its own first event started, which `b.timer` names and
      which is still armed or has its callback pending. */
  ghost predicate Covered(cfg: Config, s: System)
  {
    s.sink.buffer != [] ==>
      && |s.sink.buffer| <= |s.accepted|
      && |s.sink.timers| > 0
      && s.sink.timer == Some(|s.sink.timers| - 1)
      && var t := s.sink.timers[|s.sink.timers| - 1];
         && (t.status.Armed? || t.status.Pending?)
         && t.deadline == s.accepted[|s.accepted| - |s.sink.buffer|].at + cfg.maxWait
  }

  /** Timer flushes use the context of the very first Deliver. */
  ghost predicate Contexts(s: System)
  {
    && (s.sink.flushCtx == if s.accepted == [] then None else Some(s.accepted[0].ctx))
    && (forall i :: 0 <= i < |s.taken| && s.taken[i].trigger.Time? ==>
          s.accepted != [] && s.taken[i].ctx == Some(s.accepted[0].ctx))
  }

  /** Of the calls that brought batch `i`, the one that filled it waits for its delivery. */
  ghost function BatchWaits(t: Taken, i: nat): seq<Option<nat>>
  {
    seq(|t.events|, n => if t.trigger.Size? && n == |t.events| - 1 then Some(i) else None)
  }

  ghost function AllWaits(taken: seq<Taken>): seq<Option<nat>>
  {
    if taken == [] then [] else AllWaits(taken[..|taken| - 1]) + BatchWaits(taken[|taken| - 1], |taken| - 1)
  }

  ghost function WaitsIn(arrivals: seq<Arrival>): seq<Option<nat>>
  {
    seq(|arrivals|, i requires 0 <= i < |arrivals| => arrivals[i].waits)
  }

  ghost function Nones(n: nat): seq<Option<nat>> { seq(n, _ => None) }

  /** Which calls of Deliver wait for the batch their event is in: the last of each Size batch. */
  ghost predicate Answered(s: System)
  {
    WaitsIn(s.accepted) == AllWaits(s.taken) + Nones(|s.sink.buffer|)
  }

  ghost predicate Inv(cfg: Config, s: System)
  {
    Conserved(s) && Sized(cfg, s) && HandedOnce(s) && Timed(s) && Covered(cfg, s) && Contexts(s) && Answered(s)
  }

  lemma FlatSnoc(taken: seq<Taken>, t: Taken)
    ensures Flat(taken + [t]) == Flat(taken) + t.events
  {
    assert (taken + [t])[..|taken|] == taken;
  }

  lemma LeaveConserves(s: System, r: (Sink, Option<Taken>))
    requires match r.1 case Some(t) => t.events + r.0.buffer == s.sink.buffer case None => r.0.buffer == s.sink.buffer
    ensures Flat(Leave(s, r).taken) + r.0.buffer == Flat(s.taken) + s.sink.buffer
  {
    match r.1
    case Some(t) => FlatSnoc(s.taken, t);
    case None => assert Leave(s, r).taken == s.taken;
  }

  lemma DeliverConserves(cfg: Config, s: System, e: Event, ctx: nat)
    requires WellNamed(s.sink) && Conserved(s)
    ensures Conserved(Apply(cfg, s, DoDeliver(e, ctx)))
  {
    var r := DeliverSection(cfg, s.sink, e, ctx, s.now);
    var waits := if r.1.Some? then Some(|s.taken|) else None;
    var s1 := s.(accepted := s.accepted + [Arrival(e, s.now, ctx, waits)],
                 sink := s.sink.(buffer := s.sink.buffer + [e]));
    LeaveConserves(s1, r);
    assert EventsOf(s1.accepted) == EventsOf(s.accepted) + [e];
    assert Flat(s.taken) + (s.sink.buffer + [e]) == (Flat(s.taken) + s.sink.buffer) + [e];
  }

  lemma ApplyConserves(cfg: Config, s: System, a: Action)
    requires WellNamed(s.sink) && Enabled(s, a) && Conserved(s)
    ensures Conserved(Apply(cfg, s, a))
  {
    match a
    case DoDeliver(e, ctx) => DeliverConserves(cfg, s, e, ctx);
    case Callback(id) => LeaveConserves(s, CallbackSection(s.sink, id));
    case DoClose => LeaveConserves(s, CloseSection(s.sink));
    case _ =>
  }

  lemma ApplyKeepsSized(cfg: Config, s: System, a: Action)
    requires WellNamed(s.sink) && Enabled(s, a) && Sized(cfg, s)
    ensures Sized(cfg, Apply(cfg, s, a))
  {
  }

  lemma ApplyKeepsHandedOnce(cfg: Config, s: System, a: Action)
    requires WellNamed(s.sink) && Enabled(s, a) && HandedOnce(s)
    ensures HandedOnce(Apply(cfg, s, a))
  {
  }

  lemma ApplyKeepsTimed(cfg: Config, s: System, a: Action)
    requires Enabled(s, a) && Timed(s)
    ensures Timed(Apply(cfg, s, a))
  {
    var s' := Apply(cfg, s, a);
    assert forall i :: 0 <= i < |s.accepted| ==> s'.accepted[i] == s.accepted[i];
  }

  lemma ApplyKeepsContexts(cfg: Config, s: System, a: Action)
    requires WellNamed(s.sink) && Enabled(s, a) && Contexts(s) && Conserved(s)
    ensures Contexts(Apply(cfg, s, a))
  {
    assert |Flat(s.taken)| + |s.sink.buffer| == |s.accepted|;
  }

  lemma DeliverKeepsCovered(cfg: Config, s: System, e: Event, ctx: nat)
    requires WellNamed(s.sink) && Covered(cfg, s)
    ensures Covered(cfg, Apply(cfg, s, DoDeliver(e, ctx)))
  {
    var s' := Apply(cfg, s, DoDeliver(e, ctx));
    if s'.sink.buffer != [] {
      assert s'.sink.buffer == s.sink.buffer + [e];
      var first := |s'.accepted| - |s'.sink.buffer|;
      if s.sink.buffer == [] {
        assert first == |s.accepted|;
      } else {
        assert first == |s.accepted| - |s.sink.buffer|;
        assert s'.accepted[first] == s.accepted[first];
      }
    }
  }

  lemma ApplyKeepsCovered(cfg: Config, s: System, a: Action)
    requires WellNamed(s.sink) && Enabled(s, a) && Covered(cfg, s)
    ensures Covered(cfg, Apply(cfg, s, a))
  {
    match a
    case DoDeliver(e, ctx) => DeliverKeepsCovered(cfg, s, e, ctx);
    case Fire(id) => assert Apply(cfg, s, a).sink.buffer == s.sink.buffer;
    case _ =>
  }

  lemma AllWaitsSnoc(taken: seq<Taken>, t: Taken)
    ensures AllWaits(taken + [t]) == AllWaits(taken) + BatchWaits(t, |taken|)
  {
    assert (taken + [t])[..|taken|] == taken;
  }

  lemma WaitsSnoc(arrivals: seq<Arrival>, a: Arrival)
    ensures WaitsIn(arrivals + [a]) == WaitsIn(arrivals) + [a.waits]
  {
  }

  /** The call that fills a batch is the one that waits for it; the others did not. */
  lemma FilledWaits(t: Taken, i: nat, before: nat)
    requires |t.events| == before + 1
    ensures BatchWaits(t, i) == Nones(before) + [if t.trigger.Size? then Some(i) else None]
  {
  }

  lemma NonesSnoc(n: nat)
    ensures Nones(n) + [None] == Nones(n + 1) && Nones(0) == []
  {
  }

  lemma DeliverKeepsAnswered(cfg: Config, s: System, e: Event, ctx: nat)
    requires WellNamed(s.sink) && Answered(s)
    ensures Answered(Apply(cfg, s, DoDeliver(e, ctx)))
  {
    var r := DeliverSection(cfg, s.sink, e, ctx, s.now);
    var waits := if r.1.Some? then Some(|s.taken|) else None;
    var before := |s.sink.buffer|;
    WaitsSnoc(s.accepted, Arrival(e, s.now, ctx, waits));
    NonesSnoc(before);
    Seqs.Assoc(AllWaits(s.taken), Nones(before), [waits]);
    match r.1
    case None => assert s.taken + [] == s.taken;
    case Some(t) =>
      AllWaitsSnoc(s.taken, t);
      FilledWaits(t, |s.taken|, before);
      assert AllWaits(s.taken + [t]) + [] == AllWaits(s.taken + [t]);
  }

  /** A timer or Close takes a batch for which no call waits. */
  lemma TakeKeepsAnswered(s: System, r: (Sink, Option<Taken>))
    requires Answered(s) && r.0.buffer == []
    requires match r.1
             case None => s.sink.buffer == []
             case Some(t) => t.events == s.sink.buffer && !t.trigger.Size?
    ensures Answered(Leave(s, r))
  {
    assert Nones(0) == [];
    match r.1
    case None => assert Leave(s, r).taken == s.taken;
    case Some(t) =>
      AllWaitsSnoc(s.taken, t);
      assert BatchWaits(t, |s.taken|) == Nones(|s.sink.buffer|);
  }

  lemma ApplyKeepsAnswered(cfg: Config, s: System, a: Action)
    requires WellNamed(s.sink) && Enabled(s, a) && Answered(s)
    ensures Answered(Apply(cfg, s, a))
  {
    match a
    case DoDeliver(e, ctx) => DeliverKeepsAnswered(cfg, s, e, ctx);
    case Callback(id) => TakeKeepsAnswered(s, CallbackSection(s.sink, id));
    case DoClose => TakeKeepsAnswered(s, CloseSection(s.sink));
    case _ =>
  }

  /** Every interleaving keeps the invariant. */
  lemma {:induction false} ExecKeepsInv(cfg: Config, actions: seq<Action>)
    ensures Inv(cfg, Exec(cfg, INITIAL, actions))
  {
    if actions != [] {
      var n := |actions| - 1;
      ExecKeepsInv(cfg, actions[..n]);
      var s := Exec(cfg, INITIAL, actions[..n]);
      if Enabled(s, actions[n]) {
        ApplyConserves(cfg, s, actions[n]);
        ApplyKeepsSized(cfg, s, actions[n]);
        ApplyKeepsHandedOnce(cfg, s, actions[n]);
        ApplyKeepsTimed(cfg, s, actions[n]);
        ApplyKeepsContexts(cfg, s, actions[n]);
        ApplyKeepsCovered(cfg, s, actions[n]);
        ApplyKeepsAnswered(cfg, s, actions[n]);
      }
    }
  }

  // -------------------------------------------------------------- consequences

  /** Conservation in take order, the size bounds and the triggers, over every interleaving. */
  lemma BatchesConserve(cfg: Config, actions: seq<Action>)
    ensures var s := Exec(cfg, INITIAL, actions);
            && Flat(s.taken) + s.sink.buffer == EventsOf(s.accepted)
            && |s.sink.buffer| < Capacity(cfg)
            && (forall i :: 0 <= i < |s.taken| ==>
                  0 < |s.taken[i].events| && (s.taken[i].trigger.Size? <==> |s.taken[i].events| == Capacity(cfg)))
  {
    ExecKeepsInv(cfg, actions);
  }

  /** Events in the batches handed over by the first `n` DeliverBatch calls. */
  ghost function Handed(s: System, n: nat): multiset<Event>
    requires n <= |s.handed| && HandedOnce(s)
  {
    if n == 0 then multiset{} else Handed(s, n - 1) + multiset(s.taken[s.handed[n - 1]].events)
  }

  /** Events in batches taken and not yet handed over, among the first `n` batches. */
  ghost function Held(taken: seq<Taken>, gone: set<nat>, n: nat): multiset<Event>
    requires n <= |taken|
  {
    if n == 0 then multiset{}
    else if n - 1 in gone then Held(taken, gone, n - 1)
    else Held(taken, gone, n - 1) + multiset(taken[n - 1].events)
  }

  ghost function Gone(s: System, n: nat): set<nat>
    requires n <= |s.handed|
  {
    set i | 0 <= i < n :: s.handed[i]
  }

  /** Handing batch `i` over removes exactly its events from those held. */
  lemma {:induction false} HeldWithout(taken: seq<Taken>, gone: set<nat>, gone': set<nat>, i: nat, n: nat)
    requires i < n <= |taken| && i !in gone && gone' == gone + {i}
    ensures Held(taken, gone, n) == Held(taken, gone', n) + multiset(taken[i].events)
  {
    if i == n - 1 {
      HeldSame(taken, gone, gone', n - 1);
    } else {
      HeldWithout(taken, gone, gone', i, n - 1);
      Multisets.Swap(Held(taken, gone', n - 1), multiset(taken[i].events), multiset(taken[n - 1].events));
    }
  }

  lemma {:induction false} HeldSame(taken: seq<Taken>, gone: set<nat>, gone': set<nat>, n: nat)
    requires n <= |taken|
    requires forall i :: 0 <= i < n ==> (i in gone <==> i in gone')
    ensures Held(taken, gone, n) == Held(taken, gone', n)
  {
    if n > 0 {
      HeldSame(taken, gone, gone', n - 1);
    }
  }

  lemma FlatTake(taken: seq<Taken>, n: nat)
    requires 0 < n <= |taken|
    ensures Flat(taken[..n]) == Flat(taken[..n - 1]) + taken[n - 1].events
  {
    assert taken[..n] == taken[..n - 1] + [taken[n - 1]];
    FlatSnoc(taken[..n - 1], taken[n - 1]);
  }

  lemma {:induction false} HeldAll(taken: seq<Taken>, n: nat)
    requires n <= |taken|
    ensures Held(taken, {}, n) == multiset(Flat(taken[..n]))
  {
    if n > 0 {
      HeldAll(taken, n - 1);
      FlatTake(taken, n);
      Multisets.Append(Flat(taken[..n - 1]), taken[n - 1].events);
    }
  }

  lemma HeldAtFirst(s: System)
    ensures Held(s.taken, Gone(s, 0), |s.taken|) == multiset(Flat(s.taken))
  {
    HeldAll(s.taken, |s.taken|);
    assert s.taken[..|s.taken|] == s.taken;
    HeldSame(s.taken, {}, Gone(s, 0), |s.taken|);
  }

  lemma GoneGrows(s: System, n: nat)
    requires HandedOnce(s) && 0 < n <= |s.handed|
    ensures Gone(s, n) == Gone(s, n - 1) + {s.handed[n - 1]} && s.handed[n - 1] !in Gone(s, n - 1)
  {
  }

  /** The `n`-th hand-over takes the events of its batch away from those held. */
  lemma HeldDrops(s: System, n: nat)
    requires HandedOnce(s) && 0 < n <= |s.handed|
    ensures Held(s.taken, Gone(s, n - 1), |s.taken|)
         == Held(s.taken, Gone(s, n), |s.taken|) + multiset(s.taken[s.handed[n - 1]].events)
  {
    GoneGrows(s, n);
    HeldWithout(s.taken, Gone(s, n - 1), Gone(s, n), s.handed[n - 1], |s.taken|);
  }

  ghost function HeldAfter(s: System, n: nat): multiset<Event>
    requires n <= |s.handed|
  {
    Held(s.taken, Gone(s, n), |s.taken|)
  }

  lemma HandOver(s: System, n: nat, all: multiset<Event>)
    requires HandedOnce(s) && 0 < n <= |s.handed|
    requires Handed(s, n - 1) + HeldAfter(s, n - 1) == all
    ensures Handed(s, n) + HeldAfter(s, n) == all
  {
    HeldDrops(s, n);
    var moved := multiset(s.taken[s.handed[n - 1]].events);
    Multisets.Move(Handed(s, n - 1), HeldAfter(s, n - 1), HeldAfter(s, n), moved, all);
  }

  lemma {:induction false} HandedAndHeld(s: System, n: nat)
    requires HandedOnce(s) && n <= |s.handed|
    ensures Handed(s, n) + HeldAfter(s, n) == multiset(Flat(s.taken))
  {
    if n == 0 {
      HeldAtFirst(s);
    } else {
      HandedAndHeld(s, n - 1);
      HandOver(s, n, multiset(Flat(s.taken)));
    }
  }

  /** Whatever order the flushers hand their batches over in, every accepted event is exactly once in a
      batch handed over, in a batch still held by a flusher, or in the buffer. */
  lemma EveryEventOnce(cfg: Config, actions: seq<Action>)
    ensures var s := Exec(cfg, INITIAL, actions);
            && HandedOnce(s)
            && Handed(s, |s.handed|) + HeldAfter(s, |s.handed|) + multiset(s.sink.buffer)
               == multiset(EventsOf(s.accepted))
  {
    ExecKeepsInv(cfg, actions);
    var s := Exec(cfg, INITIAL, actions);
    HandedAndHeld(s, |s.handed|);
    Multisets.Append(Flat(s.taken), s.sink.buffer);
  }

  /** Once the callbacks that are due have run, no buffered event has waited for maxWait,
      whatever stale timers did in between. */
  lemma NoEventOutlivesMaxWait(cfg: Config, actions: seq<Action>, i: nat)
    requires var s := Exec(cfg, INITIAL, actions);
             && (forall t :: t in s.sink.timers && t.deadline <= s.now ==> t.status.Stopped? || t.status.Ran?)
             && i < |s.accepted| && |s.accepted| - |s.sink.buffer| <= i
    ensures var s := Exec(cfg, INITIAL, actions); s.now < s.accepted[i].at + cfg.maxWait
  {
    ExecKeepsInv(cfg, actions);
    var s := Exec(cfg, INITIAL, actions);
    var first := |s.accepted| - |s.sink.buffer|;
    var t := s.sink.timers[|s.sink.timers| - 1];
    assert t in s.sink.timers;
    assert s.accepted[first].at <= s.accepted[i].at;
  }

  // --------------------------------------------------------------- not too early

  /** The action takes a batch by size or by Close. */
  predicate Flushes(cfg: Config, s: System, a: Action)
  {
    a.DoClose? || (a.DoDeliver? && |s.sink.buffer| + 1 >= cfg.maxSize)
  }

  /** Right after a Size batch or a Close `b.timer` names nothing, and the timer it named (or that the event of the
      full batch had just started) can no longer fire; all others are as they were. */
  lemma FlushStopsTimer(cfg: Config, s: System, a: Action)
    requires WellNamed(s.sink) && Flushes(cfg, s, a)
    ensures var s' := Apply(cfg, s, a);
            var named := if a.DoDeliver? && s.sink.buffer == [] then Some(|s.sink.timers|) else s.sink.timer;
            && s'.sink.timer.None? && s'.sink.buffer == []
            && (|s'.taken| > |s.taken| ==>
                  s'.taken[|s.taken|].ctx == if a.DoDeliver? then Some(a.ctx) else None)
            && (named.Some? ==> !s'.sink.timers[named.value].status.Armed?)
            && (forall id :: 0 <= id < |s.sink.timers| && named != Some(id) ==> s'.sink.timers[id] == s.sink.timers[id])
  {
  }

  predicate DoneTimer(s: System, id: nat)
  {
    id < |s.sink.timers| && (s.sink.timers[id].status.Ran? || s.sink.timers[id].status.Stopped?)
  }

  lemma ApplyKeepsDone(cfg: Config, s: System, a: Action, id: nat)
    requires WellNamed(s.sink) && Enabled(s, a) && DoneTimer(s, id)
    ensures DoneTimer(Apply(cfg, s, a), id)
  {
  }

  /** A timer that has run or was stopped stays so: no callback runs twice. */
  lemma {:induction false} DoneForGood(cfg: Config, s: System, actions: seq<Action>, id: nat)
    requires DoneTimer(s, id)
    ensures DoneTimer(Exec(cfg, s, actions), id)
  {
    if actions != [] {
      var n := |actions| - 1;
      var s1 := Exec(cfg, s, actions[..n]);
      DoneForGood(cfg, s, actions[..n], id);
      if WellNamed(s1.sink) && Enabled(s1, actions[n]) {
        ApplyKeepsDone(cfg, s1, actions[n], id);
      }
    }
  }

  lemma CallbackIsDone(cfg: Config, s: System, id: nat)
    requires WellNamed(s.sink) && Enabled(s, Callback(id))
    ensures var s' := Apply(cfg, s, Callback(id));
            DoneTimer(s', id) && !Enabled(s', Callback(id)) && s'.sink.timer == s.sink.timer && s'.sink.buffer == []
  {
  }

  /** Every callback that ran was that of the timer `b.timer` named. */
  ghost predicate OwnCallbacks(cfg: Config, actions: seq<Action>)
  {
    forall k :: 0 <= k < |actions| ==> OwnCallback(Exec(cfg, INITIAL, actions[..k]), actions[k])
  }

  predicate OwnCallback(s: System, a: Action)
  {
    a.Callback? && Enabled(s, a) ==> s.sink.timer == Some(a.id)
  }

  /** Only the named timer can fire, and only for a batch in the buffer. */
  ghost predicate OneArmed(s: System)
  {
    forall id :: 0 <= id < |s.sink.timers| && s.sink.timers[id].status.Armed? ==>
      s.sink.timer == Some(id) && s.sink.buffer != []
  }

  lemma ApplyKeepsOneArmed(cfg: Config, s: System, a: Action)
    requires WellNamed(s.sink) && Enabled(s, a) && OneArmed(s) && OwnCallback(s, a)
    ensures OneArmed(Apply(cfg, s, a))
  {
  }

  /** In an interleaving without stale callbacks no timer but the named one is armed, and none without a batch to
      flush. */
  lemma {:induction false} OneTimerArmed(cfg: Config, actions: seq<Action>)
    requires OwnCallbacks(cfg, actions)
    ensures OneArmed(Exec(cfg, INITIAL, actions))
  {
    if actions != [] {
      var n := |actions| - 1;
      var s := Exec(cfg, INITIAL, actions[..n]);
      assert forall k :: 0 <= k < n ==> actions[..n][..k] == actions[..k];
      OneTimerArmed(cfg, actions[..n]);
      ExecKeepsInv(cfg, actions[..n]);
      if Enabled(s, actions[n]) {
        ApplyKeepsOneArmed(cfg, s, actions[n]);
      }
    }
  }

  /** A timer's own callback flushes no earlier than maxWait after the first event of its batch arrived, */
  lemma OwnFlushIsNotEarly(cfg: Config, actions: seq<Action>, id: nat)
    requires var s := Exec(cfg, INITIAL, actions);
             Enabled(s, Callback(id)) && s.sink.timer == Some(id) && s.sink.buffer != []
    ensures var s := Exec(cfg, INITIAL, actions);
            && |s.sink.buffer| <= |s.accepted|
            && s.now >= s.accepted[|s.accepted| - |s.sink.buffer|].at + cfg.maxWait
  {
    ExecKeepsInv(cfg, actions);
  }

  /** but a stale one does: its timer fired just before the size trigger could stop it, and its callback takes an event
      that has only just come. */
  lemma StaleFlushIsEarly(cfg: Config, e: Event) returns (actions: seq<Action>)
    requires cfg.maxSize == 2 && cfg.maxWait > 0
    ensures var s := Exec(cfg, INITIAL, actions);
            && Enabled(s, Callback(0)) && s.sink.timer == Some(1)
            && s.sink.buffer == [e] && |s.accepted| == 3 && s.accepted[2].at == s.now
  {
    var s1 := Apply(cfg, INITIAL, DoDeliver(e, 0));
    assert [] + [DoDeliver(e, 0)] == [DoDeliver(e, 0)];
    ExecNext(cfg, [], INITIAL, DoDeliver(e, 0));
    actions := [DoDeliver(e, 0)];
    var s2 := Apply(cfg, s1, Advance(cfg.maxWait));
    ExecNext(cfg, actions, s1, Advance(cfg.maxWait));
    actions := actions + [Advance(cfg.maxWait)];
    assert s2.sink.timers == [Timer(cfg.maxWait, Armed)];
    var s3 := Apply(cfg, s2, Fire(0));
    ExecNext(cfg, actions, s2, Fire(0));
    actions := actions + [Fire(0)];
    assert s3.sink.timers == [Timer(cfg.maxWait, Pending)];
    var s4 := Apply(cfg, s3, DoDeliver(e, 0));
    ExecNext(cfg, actions, s3, DoDeliver(e, 0));
    actions := actions + [DoDeliver(e, 0)];
    assert s4.sink == Sink([], None, Some(0), [Timer(cfg.maxWait, Pending)]);
    ExecNext(cfg, actions, s4, DoDeliver(e, 0));
    actions := actions + [DoDeliver(e, 0)];
  }

  /** With an empty buffer and no Deliver, timers however late take nothing. */
  lemma {:induction false} NothingWithoutDeliver(cfg: Config, s: System, actions: seq<Action>)
    requires s.sink.buffer == []
    requires forall a :: a in actions ==> !a.DoDeliver?
    ensures var s' := Exec(cfg, s, actions); s'.sink.buffer == [] && s'.taken == s.taken
  {
    if actions != [] {
      NothingWithoutDeliver(cfg, s, actions[..|actions| - 1]);
    }
  }

  /** After Close, with no later Deliver, nothing more is ever taken. */
  lemma QuietAfterClose(cfg: Config, before: seq<Action>, after: seq<Action>)
    requires forall a :: a in after ==> !a.DoDeliver?
    ensures var closed := Exec(cfg, INITIAL, before + [DoClose]);
            Exec(cfg, closed, after).taken == closed.taken && Exec(cfg, closed, after).sink.buffer == []
  {
    ExecKeepsInv(cfg, before);
    assert (before + [DoClose])[..|before|] == before;
    NothingWithoutDeliver(cfg, Exec(cfg, INITIAL, before + [DoClose]), after);
  }

  // ---------------------------------------------------- what batching gives away

  /** Batch `i` stands in the accepted events where the batches before it end, and so do its waits. */
  lemma {:induction false} BatchStands(taken: seq<Taken>, i: nat)
    requires i < |taken|
    ensures var first, end := |Flat(taken[..i])|, |Flat(taken[..i])| + |taken[i].events|;
            && end <= |Flat(taken)| == |AllWaits(taken)|
            && Flat(taken)[first..end] == taken[i].events && AllWaits(taken)[first..end] == BatchWaits(taken[i], i)
  {
    var n := |taken| - 1;
    WaitsAsLong(taken);
    WaitsAsLong(taken[..n]);
    if i < n {
      BatchStands(taken[..n], i);
      assert taken[..n][..i] == taken[..i];
    }
  }

  lemma {:induction false} WaitsAsLong(taken: seq<Taken>)
    ensures |AllWaits(taken)| == |Flat(taken)|
  {
    if taken != [] {
      WaitsAsLong(taken[..|taken| - 1]);
    }
  }

  lemma StandsIn<T>(whole: seq<T>, part: seq<T>, first: nat, piece: seq<T>)
    requires part <= whole && first + |piece| <= |part| && part[first..first + |piece|] == piece
    ensures first + |piece| <= |whole| && whole[first..first + |piece|] == piece
  {
  }

  /** The arrivals of batch `i`. */
  ghost function Members(s: System, i: nat): seq<Arrival>
    requires i < |s.taken| && |Flat(s.taken[..i])| + |s.taken[i].events| <= |s.accepted|
  {
    var first := |Flat(s.taken[..i])|;
    s.accepted[first..first + |s.taken[i].events|]
  }

  lemma MembersAre(arrivals: seq<Arrival>, first: nat, end: nat)
    requires first <= end <= |arrivals|
    ensures EventsOf(arrivals[first..end]) == EventsOf(arrivals)[first..end]
    ensures WaitsIn(arrivals[first..end]) == WaitsIn(arrivals)[first..end]
  {
    var part := arrivals[first..end];
    forall i | 0 <= i < end - first
      ensures EventsOf(part)[i] == EventsOf(arrivals)[first..end][i]
      ensures WaitsIn(part)[i] == WaitsIn(arrivals)[first..end][i]
    {
      assert part[i] == arrivals[first + i];
    }
  }

  lemma WaitsOfMembers(members: seq<Arrival>, t: Taken, i: nat)
    requires WaitsIn(members) == BatchWaits(t, i)
    ensures |members| == |t.events|
    ensures forall n :: 0 <= n < |members| ==>
              members[n].waits == if t.trigger.Size? && n == |members| - 1 then Some(i) else None
  {
    forall n | 0 <= n < |members|
      ensures members[n].waits == if t.trigger.Size? && n == |members| - 1 then Some(i) else None
    {
      assert WaitsIn(members)[n] == BatchWaits(t, i)[n];
    }
  }

  /** The events of batch `i` lie together among the accepted ones; only a Size batch is waited for, by its
      last call. */
  ghost predicate WaitedFor(s: System, i: nat)
    requires i < |s.taken|
  {
    && |Flat(s.taken[..i])| + |s.taken[i].events| <= |s.accepted|
    && EventsOf(Members(s, i)) == s.taken[i].events
    && forall n :: 0 <= n < |Members(s, i)| ==>
         Members(s, i)[n].waits == if s.taken[i].trigger.Size? && n == |Members(s, i)| - 1 then Some(i) else None
  }

  lemma MembersWait(s: System, i: nat)
    requires i < |s.taken| && Conserved(s) && Answered(s)
    ensures WaitedFor(s, i)
  {
    var batch := s.taken[i];
    var first := |Flat(s.taken[..i])|;
    BatchStands(s.taken, i);
    StandsIn(EventsOf(s.accepted), Flat(s.taken), first, batch.events);
    StandsIn(WaitsIn(s.accepted), AllWaits(s.taken), first, BatchWaits(batch, i));
    MembersAre(s.accepted, first, first + |batch.events|);
    WaitsOfMembers(Members(s, i), batch, i);
  }

  /** What a failing `DeliverBatch` loses, over every interleaving. The call that brought an event of the batch had
      returned nil, except the one that filled a Size batch: it waits for the batch and returns its error. So all
      events of a Time or Close batch are lost though answered nil, and all but the last of a Size batch. */
  lemma FailingBatchLoses(cfg: Config, actions: seq<Action>, i: nat)
    requires i < |Exec(cfg, INITIAL, actions).taken|
    ensures WaitedFor(Exec(cfg, INITIAL, actions), i)
  {
    ExecKeepsInv(cfg, actions);
    MembersWait(Exec(cfg, INITIAL, actions), i);
  }

  /** An event that does not fill the batch stays in the buffer. */
  lemma BufferOne(cfg: Config, s: System, e: Event)
    requires WellNamed(s.sink) && |s.sink.buffer| + 1 < Capacity(cfg)
    ensures var s' := Apply(cfg, s, DoDeliver(e, 0));
            && WellNamed(s'.sink) && s'.sink.buffer == s.sink.buffer + [e] && s'.taken == s.taken
            && EventsOf(s'.accepted) == EventsOf(s.accepted) + [e]
  {
  }

  /** An event alone in the buffer leaves it, and no batch is handed over. */
  ghost predicate Flushed(s: System, e: Event, s': System)
  {
    && WellNamed(s'.sink) && s'.sink.buffer == [] && s'.handed == s.handed
    && EventsOf(s'.accepted) == EventsOf(s.accepted) + [e]
  }

  /** By its timer, maxWait later. */
  lemma TimerFlush(cfg: Config, s: System, e: Event)
    requires cfg.maxSize >= 2 && WellNamed(s.sink) && s.sink.buffer == []
    ensures var id := |s.sink.timers|;
            var s1 := Apply(cfg, s, DoDeliver(e, 0));
            && WellNamed(s1.sink)
            && var s2 := Apply(cfg, s1, Advance(cfg.maxWait));
               && WellNamed(s2.sink) && Enabled(s2, Fire(id))
               && var s3 := Apply(cfg, s2, Fire(id));
                  && WellNamed(s3.sink) && Enabled(s3, Callback(id))
                  && var s4 := Apply(cfg, s3, Callback(id));
                     && Flushed(s, e, s4)
                     && s4.taken == s.taken + [Taken([e], Time, s1.sink.flushCtx)]
  {
    var id := |s.sink.timers|;
    var s1 := Apply(cfg, s, DoDeliver(e, 0));
    assert s1.sink.timers == s.sink.timers + [Timer(s.now + cfg.maxWait, Armed)] && s1.sink.buffer == [e];
    assert EventsOf(s1.accepted) == EventsOf(s.accepted) + [e];
    var s2 := Apply(cfg, s1, Advance(cfg.maxWait));
    assert s2.sink == s1.sink && s2.now == s.now + cfg.maxWait;
    var s3 := Apply(cfg, s2, Fire(id));
    assert s3.sink.timers[id].status.Pending? && s3.sink.buffer == [e];
  }

  lemma ExecNext(cfg: Config, actions: seq<Action>, s: System, a: Action)
    requires Exec(cfg, INITIAL, actions) == s && WellNamed(s.sink) && Enabled(s, a)
    ensures Exec(cfg, INITIAL, actions + [a]) == Apply(cfg, s, a)
  {
    ExecSnoc(cfg, INITIAL, actions, a);
  }

  lemma FlushByTimer(cfg: Config, actions: seq<Action>, s: System, e: Event) returns (all: seq<Action>)
    requires s == Exec(cfg, INITIAL, actions) && WellNamed(s.sink) && s.sink.buffer == [] && cfg.maxSize >= 2
    ensures var s' := Exec(cfg, INITIAL, all);
            Flushed(s, e, s') && |s'.taken| == |s.taken| + 1 && s'.taken[|s.taken|].trigger.Time?
  {
    var id := |s.sink.timers|;
    TimerFlush(cfg, s, e);
    all := actions + [DoDeliver(e, 0)];
    ExecNext(cfg, actions, s, DoDeliver(e, 0));
    var s1 := Apply(cfg, s, DoDeliver(e, 0));
    ExecNext(cfg, all, s1, Advance(cfg.maxWait));
    all := all + [Advance(cfg.maxWait)];
    var s2 := Apply(cfg, s1, Advance(cfg.maxWait));
    ExecNext(cfg, all, s2, Fire(id));
    all := all + [Fire(id)];
    var s3 := Apply(cfg, s2, Fire(id));
    ExecNext(cfg, all, s3, Callback(id));
    all := all + [Callback(id)];
  }

  /** At once by size, or by its timer. */
  lemma FlushOne(cfg: Config, actions: seq<Action>, e: Event) returns (all: seq<Action>)
    requires var s := Exec(cfg, INITIAL, actions); WellNamed(s.sink) && s.sink.buffer == []
    ensures Flushed(Exec(cfg, INITIAL, actions), e, Exec(cfg, INITIAL, all))
  {
    var s := Exec(cfg, INITIAL, actions);
    if cfg.maxSize <= 1 {
      all := actions + [DoDeliver(e, 0)];
      ExecNext(cfg, actions, s, DoDeliver(e, 0));
    } else {
      all := FlushByTimer(cfg, actions, s, e);
    }
  }

  /** Any events can have left the buffer, whatever the sizes. */
  lemma {:induction false} FlushAll(cfg: Config, events: seq<Event>) returns (actions: seq<Action>)
    ensures var s := Exec(cfg, INITIAL, actions);
            WellNamed(s.sink) && s.sink.buffer == [] && EventsOf(s.accepted) == events
  {
    if events == [] {
      actions := [];
    } else {
      var n := |events| - 1;
      var before := FlushAll(cfg, events[..n]);
      actions := FlushOne(cfg, before, events[n]);
      assert events == events[..n] + [events[n]];
    }
  }

  /** And then up to one less than a batch can be held back. */
  lemma {:induction false} HoldBack(cfg: Config, events: seq<Event>, m: nat) returns (actions: seq<Action>)
    requires m <= |events| && m < Capacity(cfg)
    ensures var s := Exec(cfg, INITIAL, actions);
            WellNamed(s.sink) && s.sink.buffer == events[|events| - m..] && EventsOf(s.accepted) == events
  {
    if m == 0 {
      actions := FlushAll(cfg, events);
    } else {
      var n := |events| - 1;
      var before := HoldBack(cfg, events[..n], m - 1);
      BufferOne(cfg, Exec(cfg, INITIAL, before), events[n]);
      ExecSnoc(cfg, INITIAL, before, DoDeliver(events[n], 0));
      actions := before + [DoDeliver(events[n], 0)];
      assert events == events[..n] + [events[n]];
      assert events[|events| - m..] == events[..n][n - (m - 1)..] + [events[n]];
    }
  }

  /** A call that waits for a batch emptied the buffer. */
  lemma WaitingEmpties(cfg: Config, actions: seq<Action>)
    requires var s := Exec(cfg, INITIAL, actions); s.accepted != [] && s.accepted[|s.accepted| - 1].waits.Some?
    ensures Exec(cfg, INITIAL, actions).sink.buffer == []
  {
    ExecKeepsInv(cfg, actions);
    var s := Exec(cfg, INITIAL, actions);
    var all := AllWaits(s.taken) + Nones(|s.sink.buffer|);
    assert WaitsIn(s.accepted)[|s.accepted| - 1] == all[|all| - 1];
  }

  /** The sink was given exactly these events, and the last `m` of them are only in the buffer. */
  ghost predicate Buffers(s: System, events: seq<Event>, m: nat)
  {
    EventsOf(s.accepted) == events && |s.sink.buffer| >= m
  }

  /** Exactly how many events, all answered nil, can be in the buffer and nowhere else: less than a batch. */
  lemma BuffersIff(cfg: Config, events: seq<Event>, m: nat)
    requires m <= |events|
    ensures (exists actions :: Buffers(Exec(cfg, INITIAL, actions), events, m)) <==> m < Capacity(cfg)
  {
    forall actions | Buffers(Exec(cfg, INITIAL, actions), events, m)
      ensures m < Capacity(cfg)
    {
      ExecKeepsInv(cfg, actions);
    }
    if m < Capacity(cfg) {
      var actions := HoldBack(cfg, events, m);
      assert Buffers(Exec(cfg, INITIAL, actions), events, m);
    }
  }

  /** Close leaves its critical section with nothing to flush, ready to close the inner sink, while a timer's flusher
      still holds a batch. */
  ghost predicate CloseOvertakes(cfg: Config, actions: seq<Action>)
  {
    var before := Exec(cfg, INITIAL, actions);
    var after := Exec(cfg, INITIAL, actions + [DoClose]);
    && after.taken == before.taken
    && exists i :: 0 <= i < |after.taken| && after.taken[i].trigger.Time? && i !in after.handed
  }

  lemma OvertakenWitness(cfg: Config, e: Event) returns (actions: seq<Action>)
    requires cfg.maxSize >= 2
    ensures CloseOvertakes(cfg, actions)
  {
    actions := FlushByTimer(cfg, [], INITIAL, e);
    ExecSnoc(cfg, INITIAL, actions, DoClose);
    var after := Exec(cfg, INITIAL, actions + [DoClose]);
    assert after.taken[0].trigger.Time? && 0 !in after.handed;
  }

  /** Exactly when Close can overtake a timer: when a batch can hold more than one event, whatever maxWait. */
  lemma CloseRacesFlusher(cfg: Config, e: Event)
    ensures (exists actions :: CloseOvertakes(cfg, actions)) <==> cfg.maxSize >= 2
  {
    forall actions | CloseOvertakes(cfg, actions)
      ensures cfg.maxSize >= 2
    {
      ExecKeepsInv(cfg, actions + [DoClose]);
    }
    if cfg.maxSize >= 2 {
      var actions := OvertakenWitness(cfg, e);
    }
  }
}
