/**
 * The life of `messageLoop` (`internal/cdc/stream.go`) told from its ticks alone: which tick ends it and
 * how, what it has received until then, and every position it reports.
 */
module LoopRuns {
  import opened Wrappers
  import opened Events
  import opened Decoder
  import opened StreamLoop
  import opened AckSafety

  /** The XLogData messages of the ticks, in order. */
  ghost function Heard(ticks: seq<Tick>): seq<XLogData>
  {
    if ticks == [] then [] else
    var n := |ticks| - 1;
    Heard(ticks[..n]) + (match ticks[n].received case XLog(x, _) => [x] case _ => [])
  }

  /** The end of the last message heard before tick `i`. */
  ghost function Held(ticks: seq<Tick>, i: nat): Lsn
    requires i <= |ticks|
  {
    LastEnd(Heard(ticks[..i]))
  }

  /** The last tick before `i` on which a periodic ack was due. */
  ghost function LastDue(now: nat, ticks: seq<Tick>, i: nat): Option<nat>
    requires i <= |ticks|
    ensures LastDue(now, ticks, i).Some? ==> LastDue(now, ticks, i).value < i
    decreases i, 0
  {
    if i == 0 then None else if Due(now, ticks, i - 1) then Some(i - 1) else LastDue(now, ticks, i - 1)
  }

  /** A periodic ack is due on a tick more than ten seconds after the last one (or after the start), when the
      position has advanced since. */
  ghost predicate Due(now: nat, ticks: seq<Tick>, i: nat)
    requires i < |ticks|
    decreases i, 1
  {
    match LastDue(now, ticks, i)
    case None => ticks[i].now > now + 10_000_000_000 && Held(ticks, i) > 0
    case Some(p) => ticks[i].now > ticks[p].nowAfterAck + 10_000_000_000 && Held(ticks, i) > Held(ticks, p)
  }

  // ---------------------------------------------------- one tick, on plain values

  /** What a loop that goes on has to show: the messages heard, the acks sent, the position last reported by a periodic
      ack and the time after which the next is due. */
  datatype View = View(heard: seq<XLogData>, acks: seq<Ack>, acked: Lsn, next: nat)

  ghost predicate DueAt(v: View, t: Tick) { t.now > v.next && LastEnd(v.heard) > v.acked }

  /** Why a message is not decodable after the ones before it. */
  ghost function Fault(heard: seq<XLogData>, x: XLogData): Verdict
  {
    if x.msg.Malformed? then ParseError
    else if IsRow(x.msg) && LatestRelation(heard, x.msg.relId).None? then UnknownRelation
    else IndexPanic
  }

  /** How what a loop receives ends it: a failing receive, parse or reply, a panic, a message that is not decodable
      after those before it, or a refused event; anything else does not. */
  ghost function EndBy(cfg: Config, heard: seq<XLogData>, r: Received): Option<Exit>
  {
    if r == ReceiveError(true) then Some(Shutdown)
    else if r == ReceiveError(false) then Some(ReceiveFailed)
    else if r == EmptyCopyData then Some(Panicked)
    else if r == BadKeepalive then Some(BadKeepaliveMessage)
    else if r == Keepalive(true, false) then Some(KeepaliveReplyFailed)
    else if r == BadXLog then Some(BadXLogMessage)
    else if r.XLog? && !Decodable(heard, r.data) then Some(ProcessFailed(Fault(heard, r.data)))
    else if r.XLog? && !r.handlerOk && Owed(cfg, heard, r.data).Some? then Some(ProcessFailed(HandlerError))
    else None
  }

  /** How a tick ends it: by cancellation, by a periodic ack that cannot be sent, or by what it receives. */
  ghost function EndAt(cfg: Config, v: View, t: Tick): Option<Exit>
  {
    if t.cancelled then Some(Shutdown)
    else if DueAt(v, t) && !t.ackSent then Some(AckFailed)
    else EndBy(cfg, v.heard, t.received)
  }

  /** The acks of a tick, each one past the last message heard: the periodic one if it is due, and then, unless that one
      could not be sent, the answer to a keepalive that asks for one. */
  ghost function AcksBy(heard: seq<XLogData>, due: bool, t: Tick): seq<Ack>
  {
    var position := LastEnd(heard) + 1;
    if t.cancelled then []
    else
      (if due then [Ack(Periodic, position, |heard|)] else [])
      + (if t.received.Keepalive? && t.received.reply && (due ==> t.ackSent)
         then [Ack(KeepaliveReply, position, |heard|)] else [])
  }

  ghost predicate Shows(cfg: Config, s: Loop, v: View)
  {
    && s.exit.Running?
    && s.log == v.heard && s.processed == |v.heard| && s.delivered == OwedEvents(cfg, v.heard)
    && Tracks(s.decoder, v.heard)
    && s.lastReceived == LastEnd(v.heard) && s.acks == v.acks && s.lastAcked == v.acked && s.nextAck == v.next
  }

  ghost function AckNow(v: View, kind: AckKind): Ack { Ack(kind, LastEnd(v.heard) + 1, |v.heard|) }

  /** The view after the periodic ack, */
  ghost function Acknowledge(v: View, t: Tick): View
  {
    if DueAt(v, t)
    then v.(acks := v.acks + [AckNow(v, Periodic)], acked := LastEnd(v.heard), next := t.nowAfterAck + 10_000_000_000)
    else v
  }

  /** and after what was received. */
  ghost function Hear(v: View, r: Received): View
  {
    if r.XLog? then v.(heard := v.heard + [r.data])
    else if r.Keepalive? && r.reply then v.(acks := v.acks + [AckNow(v, KeepaliveReply)])
    else v
  }

  lemma AcknowledgeShows(cfg: Config, s: Loop, v: View, t: Tick)
    requires Shows(cfg, s, v) && (DueAt(v, t) ==> t.ackSent)
    ensures Shows(cfg, PeriodicAck(s, t), Acknowledge(v, t))
  {
  }

  /** The decoder's verdict on a message, from the history alone. */
  lemma VerdictIs(cfg: Config, st: State, history: seq<XLogData>, x: XLogData, handlerOk: bool)
    requires Tracks(st, history)
    ensures Process(cfg, st, x, handlerOk).verdict ==
            if !Decodable(history, x) then Fault(history, x)
            else if !handlerOk && Owed(cfg, history, x).Some? then HandlerError
            else Ok
  {
  }

  lemma HandleGoesOn(order: Order, cfg: Config, s: Loop, v: View, x: XLogData, handlerOk: bool)
    requires Shows(cfg, s, v) && EndBy(cfg, v.heard, XLog(x, handlerOk)).None?
    ensures Shows(cfg, Handle(order, cfg, s, x, handlerOk), Hear(v, XLog(x, handlerOk)))
  {
    ProcessRefines(cfg, s.decoder, v.heard, x, handlerOk);
    OwedEventsSnoc(cfg, v.heard, x);
  }

  lemma ReceiveGoesOn(order: Order, cfg: Config, s: Loop, v: View, r: Received)
    requires Shows(cfg, s, v) && EndBy(cfg, v.heard, r).None?
    ensures Shows(cfg, Receive(order, cfg, s, r), Hear(v, r))
  {
    match r
    case XLog(x, ok) => HandleGoesOn(order, cfg, s, v, x, ok);
    case _ =>
  }

  lemma StepGoesOn(order: Order, cfg: Config, s: Loop, v: View, t: Tick)
    requires Shows(cfg, s, v) && EndAt(cfg, v, t).None?
    ensures Shows(cfg, Step(order, cfg, s, t), Hear(Acknowledge(v, t), t.received))
  {
    AcknowledgeShows(cfg, s, v, t);
    ReceiveGoesOn(order, cfg, PeriodicAck(s, t), Acknowledge(v, t), t.received);
  }

  lemma AcksAre(v: View, t: Tick)
    requires !t.cancelled && (DueAt(v, t) ==> t.ackSent)
    ensures Hear(Acknowledge(v, t), t.received).acks == v.acks + AcksBy(v.heard, DueAt(v, t), t)
  {
  }

  /** The message that could not be processed, if that is how the loop ended. */
  ghost function FailingBy(e: Option<Exit>, t: Tick): seq<XLogData>
  {
    if e.Some? && e.value.ProcessFailed? && t.received.XLog? then [t.received.data] else []
  }

  /** The loop as the tick that ended it left it. */
  ghost predicate Left(order: Order, cfg: Config, s: Loop, v: View, t: Tick)
  {
    && Some(s.exit) == EndAt(cfg, v, t)
    && s.log == v.heard + FailingBy(EndAt(cfg, v, t), t)
    && s.processed == |v.heard| && s.delivered == OwedEvents(cfg, v.heard)
    && s.acks == v.acks + AcksBy(v.heard, DueAt(v, t), t)
    && s.lastReceived == LastEnd(if order.AsWritten? then s.log else v.heard)
    && s.lastAcked == AckedBy(v, t)
  }

  /** The position of the last periodic ack that was sent. */
  ghost function AckedBy(v: View, t: Tick): Lsn
  {
    if DueAt(v, t) && !t.cancelled && t.ackSent then LastEnd(v.heard) else v.acked
  }

  lemma HandleEnds(order: Order, cfg: Config, s: Loop, v: View, x: XLogData, handlerOk: bool)
    requires Shows(cfg, s, v) && EndBy(cfg, v.heard, XLog(x, handlerOk)).Some?
    ensures var s' := Handle(order, cfg, s, x, handlerOk);
            && Some(s'.exit) == EndBy(cfg, v.heard, XLog(x, handlerOk))
            && s'.log == s.log + [x] && s'.processed == s.processed && s'.delivered == s.delivered
            && s'.acks == s.acks && s'.lastAcked == s.lastAcked
            && s'.lastReceived == if order.AsWritten? then End(x) else s.lastReceived
  {
    ProcessRefines(cfg, s.decoder, v.heard, x, handlerOk);
    VerdictIs(cfg, s.decoder, v.heard, x, handlerOk);
  }

  lemma OtherEnds(order: Order, cfg: Config, s: Loop, v: View, r: Received)
    requires Shows(cfg, s, v) && !r.XLog? && EndBy(cfg, v.heard, r).Some?
    ensures Receive(order, cfg, s, r) == s.(exit := EndBy(cfg, v.heard, r).value, acks := Hear(v, r).acks)
  {
  }

  /** Ended by what it received, after its periodic ack. */
  lemma ReceiveEnds(order: Order, cfg: Config, s: Loop, v: View, t: Tick)
    requires Shows(cfg, s, v) && !t.cancelled && (DueAt(v, t) ==> t.ackSent) && EndBy(cfg, v.heard, t.received).Some?
    ensures Left(order, cfg, Step(order, cfg, s, t), v, t)
  {
    AcknowledgeShows(cfg, s, v, t);
    AcksAre(v, t);
    var s1, v1 := PeriodicAck(s, t), Acknowledge(v, t);
    assert Step(order, cfg, s, t) == Receive(order, cfg, s1, t.received);
    if t.received.XLog? {
      HandleEnds(order, cfg, s1, v1, t.received.data, t.received.handlerOk);
    } else {
      OtherEnds(order, cfg, s1, v1, t.received);
      assert v.heard + [] == v.heard;
    }
  }

  lemma StepEnds(order: Order, cfg: Config, s: Loop, v: View, t: Tick)
    requires Shows(cfg, s, v) && EndAt(cfg, v, t).Some?
    ensures Left(order, cfg, Step(order, cfg, s, t), v, t)
  {
    assert v.heard + [] == v.heard;
    if !t.cancelled && (DueAt(v, t) ==> t.ackSent) {
      ReceiveEnds(order, cfg, s, v, t);
    }
  }

  /** A run that a tick ended: its exit, what it received and delivered, and every ack, the deferred one included, which
      is sent exactly when the position held lies past the last periodic ack. */
  ghost predicate EndedBy(order: Order, cfg: Config, s: Loop, v: View, t: Tick)
  {
    var last := LastEnd(if order.AsWritten? then s.log else v.heard);
    && Some(s.exit) == EndAt(cfg, v, t)
    && s.log == v.heard + FailingBy(EndAt(cfg, v, t), t)
    && s.processed == |v.heard| && s.delivered == OwedEvents(cfg, v.heard)
    && s.acks == v.acks + AcksBy(v.heard, DueAt(v, t), t)
                 + (if last > AckedBy(v, t) then [Ack(Final, last + 1, |v.heard|)] else [])
  }

  lemma DeferredEnds(order: Order, cfg: Config, s: Loop, v: View, t: Tick)
    requires EndAt(cfg, v, t).Some? && Left(order, cfg, s, v, t)
    ensures EndedBy(order, cfg, Deferred(s), v, t)
  {
    assert !s.exit.Running?;
  }

  // --------------------------------------------------------------- whole runs

  ghost function Flat<T>(parts: nat -> seq<T>, n: nat): seq<T>
  {
    if n == 0 then [] else Flat(parts, n - 1) + parts(n - 1)
  }

  lemma {:induction false} FlatGrows<T>(parts: nat -> seq<T>, i: nat, n: nat)
    requires i <= n
    ensures Flat(parts, i) <= Flat(parts, n)
  {
    if i < n {
      FlatGrows(parts, i, n - 1);
    }
  }

  lemma FlatWithin<T>(parts: nat -> seq<T>, i: nat, n: nat, whole: seq<T>)
    requires i <= n && Flat(parts, n) <= whole
    ensures Flat(parts, i) <= whole
  {
    FlatGrows(parts, i, n);
  }

  ghost function TickAcks(now: nat, ticks: seq<Tick>): nat -> seq<Ack>
  {
    (k: nat) => if k < |ticks| then AcksBy(Heard(ticks[..k]), Due(now, ticks, k), ticks[k]) else []
  }

  /** The acks of the ticks before `n`, were none of them to end the loop. */
  ghost function AcksTo(now: nat, ticks: seq<Tick>, n: nat): seq<Ack> { Flat(TickAcks(now, ticks), n) }

  /** What a loop has to show before tick `n`. */
  ghost function ViewAt(now: nat, ticks: seq<Tick>, n: nat): View
    requires n <= |ticks|
  {
    match LastDue(now, ticks, n)
    case None => View(Heard(ticks[..n]), AcksTo(now, ticks, n), 0, now + 10_000_000_000)
    case Some(p) =>
      View(Heard(ticks[..n]), AcksTo(now, ticks, n), Held(ticks, p), ticks[p].nowAfterAck + 10_000_000_000)
  }

  /** How tick `i` ends a loop that has come so far. */
  ghost function EndOf(cfg: Config, now: nat, ticks: seq<Tick>, i: nat): Option<Exit>
    requires i < |ticks|
  {
    EndAt(cfg, ViewAt(now, ticks, i), ticks[i])
  }

  /** No tick before `n` ends the loop. */
  ghost predicate GoesOn(cfg: Config, now: nat, ticks: seq<Tick>, n: nat)
    requires n <= |ticks|
  {
    forall i :: 0 <= i < n ==> EndOf(cfg, now, ticks, i).None?
  }

  lemma DueIs(now: nat, ticks: seq<Tick>, n: nat)
    requires n < |ticks|
    ensures DueAt(ViewAt(now, ticks, n), ticks[n]) <==> Due(now, ticks, n)
  {
  }

  lemma HeardNext(ticks: seq<Tick>, n: nat)
    requires n < |ticks|
    ensures Heard(ticks[..n + 1]) == Heard(ticks[..n]) + (match ticks[n].received case XLog(x, _) => [x] case _ => [])
  {
    assert ticks[..n + 1][..n] == ticks[..n];
  }

  lemma LastDueNext(now: nat, ticks: seq<Tick>, n: nat)
    requires n < |ticks|
    ensures LastDue(now, ticks, n + 1) == if Due(now, ticks, n) then Some(n) else LastDue(now, ticks, n)
  {
  }

  lemma AcksNext(now: nat, ticks: seq<Tick>, n: nat)
    requires n < |ticks|
    ensures AcksTo(now, ticks, n + 1)
         == AcksTo(now, ticks, n) + AcksBy(Heard(ticks[..n]), Due(now, ticks, n), ticks[n])
  {
  }

  lemma DueView(now: nat, ticks: seq<Tick>, n: nat)
    requires n < |ticks|
    ensures var v := ViewAt(now, ticks, n + 1);
            && v.heard == Heard(ticks[..n + 1]) && v.acks == AcksTo(now, ticks, n + 1)
            && if Due(now, ticks, n)
               then v.acked == Held(ticks, n) && v.next == ticks[n].nowAfterAck + 10_000_000_000
               else v.acked == ViewAt(now, ticks, n).acked && v.next == ViewAt(now, ticks, n).next
  {
    LastDueNext(now, ticks, n);
  }

  lemma HearIs(v: View, t: Tick)
    ensures var w := Hear(Acknowledge(v, t), t.received);
            && w.heard == v.heard + (match t.received case XLog(x, _) => [x] case _ => [])
            && if DueAt(v, t) then w.acked == LastEnd(v.heard) && w.next == t.nowAfterAck + 10_000_000_000
               else w.acked == v.acked && w.next == v.next
  {
  }

  lemma ViewNext(cfg: Config, now: nat, ticks: seq<Tick>, n: nat)
    requires n < |ticks| && EndOf(cfg, now, ticks, n).None?
    ensures ViewAt(now, ticks, n + 1) == Hear(Acknowledge(ViewAt(now, ticks, n), ticks[n]), ticks[n].received)
  {
    var v := ViewAt(now, ticks, n);
    DueIs(now, ticks, n);
    HeardNext(ticks, n);
    AcksNext(now, ticks, n);
    DueView(now, ticks, n);
    AcksAre(v, ticks[n]);
    HearIs(v, ticks[n]);
  }

  /** The loop after the ticks before `n`, none of which ends it. */
  lemma {:induction false} ShowsView(order: Order, cfg: Config, now: nat, ticks: seq<Tick>, n: nat)
    requires n <= |ticks| && GoesOn(cfg, now, ticks, n)
    ensures Shows(cfg, Steps(order, cfg, Start(FRESH, now), ticks[..n]), ViewAt(now, ticks, n))
  {
    if n > 0 {
      var s := Steps(order, cfg, Start(FRESH, now), ticks[..n - 1]);
      ShowsView(order, cfg, now, ticks, n - 1);
      StepsNext(order, cfg, Start(FRESH, now), ticks, n - 1);
      ViewNext(cfg, now, ticks, n - 1);
      StepGoesOn(order, cfg, s, ViewAt(now, ticks, n - 1), ticks[n - 1]);
    }
  }

  lemma StoppedBy(order: Order, cfg: Config, now: nat, ticks: seq<Tick>, n: nat, s: Loop)
    requires n < |ticks| && s == Steps(order, cfg, Start(FRESH, now), ticks[..n])
    requires !Step(order, cfg, s, ticks[n]).exit.Running?
    ensures Run(order, cfg, now, ticks) == Deferred(Step(order, cfg, s, ticks[n]))
  {
    StepsNext(order, cfg, Start(FRESH, now), ticks, n);
    StoppedLoopStays(order, cfg, Start(FRESH, now), ticks, n + 1);
  }

  /** The first tick that ends the loop decides the whole run, in either order. */
  lemma FirstEndDecides(order: Order, cfg: Config, now: nat, ticks: seq<Tick>, n: nat)
    requires n < |ticks| && GoesOn(cfg, now, ticks, n) && EndOf(cfg, now, ticks, n).Some?
    ensures EndedBy(order, cfg, Run(order, cfg, now, ticks), ViewAt(now, ticks, n), ticks[n])
    ensures !Run(order, cfg, now, ticks).exit.Running?
  {
    var s := Steps(order, cfg, Start(FRESH, now), ticks[..n]);
    ShowsView(order, cfg, now, ticks, n);
    EndStep(order, cfg, s, ViewAt(now, ticks, n), ticks[n]);
    StoppedBy(order, cfg, now, ticks, n, s);
  }

  lemma EndStep(order: Order, cfg: Config, s: Loop, v: View, t: Tick)
    requires Shows(cfg, s, v) && EndAt(cfg, v, t).Some?
    ensures var s' := Step(order, cfg, s, t);
            !s'.exit.Running? && EndedBy(order, cfg, Deferred(s'), v, t) && !Deferred(s').exit.Running?
  {
    StepEnds(order, cfg, s, v, t);
    DeferredEnds(order, cfg, Step(order, cfg, s, t), v, t);
  }

  /** And without one the loop runs on, having received everything. */
  lemma RunsOn(order: Order, cfg: Config, now: nat, ticks: seq<Tick>)
    requires GoesOn(cfg, now, ticks, |ticks|)
    ensures var s := Run(order, cfg, now, ticks);
            && s.exit.Running? && s.log == Heard(ticks) && s.processed == |s.log|
            && s.delivered == OwedEvents(cfg, Heard(ticks)) && s.acks == AcksTo(now, ticks, |ticks|)
  {
    ShowsView(order, cfg, now, ticks, |ticks|);
    assert ticks[..|ticks|] == ticks;
  }

  lemma GoesOnNext(cfg: Config, now: nat, ticks: seq<Tick>, n: nat)
    requires n < |ticks| && GoesOn(cfg, now, ticks, n) && EndOf(cfg, now, ticks, n).None?
    ensures GoesOn(cfg, now, ticks, n + 1)
  {
  }

  /** The first tick from `i` on that ends the loop, if one does. */
  lemma FirstEnd(cfg: Config, now: nat, ticks: seq<Tick>, i: nat) returns (n: nat)
    requires i <= |ticks| && GoesOn(cfg, now, ticks, i)
    ensures i <= n <= |ticks| && GoesOn(cfg, now, ticks, n)
    ensures n < |ticks| ==> EndOf(cfg, now, ticks, n).Some?
  {
    n := i;
    while n < |ticks| && EndOf(cfg, now, ticks, n).None?
      invariant i <= n <= |ticks| && GoesOn(cfg, now, ticks, n)
    {
      GoesOnNext(cfg, now, ticks, n);
      n := n + 1;
    }
  }

  lemma EndsSome(cfg: Config, now: nat, ticks: seq<Tick>, n: nat)
    requires n < |ticks| && EndOf(cfg, now, ticks, n).Some?
    ensures !GoesOn(cfg, now, ticks, |ticks|)
  {
  }

  /** A run still goes on exactly when none of its ticks ends it. */
  lemma RunningIff(order: Order, cfg: Config, now: nat, ticks: seq<Tick>)
    ensures Run(order, cfg, now, ticks).exit.Running? <==> GoesOn(cfg, now, ticks, |ticks|)
  {
    var n := FirstEnd(cfg, now, ticks, 0);
    if n < |ticks| {
      FirstEndDecides(order, cfg, now, ticks, n);
      EndsSome(cfg, now, ticks, n);
    } else {
      RunsOn(order, cfg, now, ticks);
    }
  }

  /** The acks of the ticks up to and including the one that ends the run. */
  lemma EndedAcks(order: Order, cfg: Config, now: nat, ticks: seq<Tick>, n: nat)
    requires n < |ticks| && GoesOn(cfg, now, ticks, n) && EndOf(cfg, now, ticks, n).Some?
    ensures AcksTo(now, ticks, n + 1) <= Run(order, cfg, now, ticks).acks
  {
    FirstEndDecides(order, cfg, now, ticks, n);
    DueIs(now, ticks, n);
    AcksNext(now, ticks, n);
  }

  lemma RunningAcks(order: Order, cfg: Config, now: nat, ticks: seq<Tick>)
    requires GoesOn(cfg, now, ticks, |ticks|)
    ensures AcksTo(now, ticks, |ticks|) <= Run(order, cfg, now, ticks).acks
  {
    RunsOn(order, cfg, now, ticks);
  }

  /** How many ticks the run came to, and that their acks are its acks but for a deferred one. */
  lemma CameTo(order: Order, cfg: Config, now: nat, ticks: seq<Tick>, i: nat) returns (n: nat)
    requires i < |ticks| && GoesOn(cfg, now, ticks, i)
    ensures i < n <= |ticks| && AcksTo(now, ticks, n) <= Run(order, cfg, now, ticks).acks
  {
    n := FirstEnd(cfg, now, ticks, i);
    if n < |ticks| {
      EndedAcks(order, cfg, now, ticks, n);
      n := n + 1;
    } else {
      RunningAcks(order, cfg, now, ticks);
    }
  }

  /** The run's acks begin with those of every tick it came to, */
  lemma AcksAreSent(order: Order, cfg: Config, now: nat, ticks: seq<Tick>, i: nat)
    requires i < |ticks| && GoesOn(cfg, now, ticks, i)
    ensures AcksTo(now, ticks, i + 1) <= Run(order, cfg, now, ticks).acks
  {
    var n := CameTo(order, cfg, now, ticks, i);
    FlatWithin(TickAcks(now, ticks), i + 1, n, Run(order, cfg, now, ticks).acks);
  }

  /** so a due ack is always sent, whatever comes after. */
  lemma DueIsSent(order: Order, cfg: Config, now: nat, ticks: seq<Tick>, i: nat)
    requires i < |ticks| && GoesOn(cfg, now, ticks, i) && !ticks[i].cancelled && Due(now, ticks, i)
    ensures Ack(Periodic, Held(ticks, i) + 1, |Heard(ticks[..i])|) in Run(order, cfg, now, ticks).acks
  {
    AcksAreSent(order, cfg, now, ticks, i);
    AcksNext(now, ticks, i);
    var sent := AcksTo(now, ticks, i + 1);
    assert sent[|AcksTo(now, ticks, i)|] == Ack(Periodic, Held(ticks, i) + 1, |Heard(ticks[..i])|);
  }
}
