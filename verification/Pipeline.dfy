/**
 * The stream over its sinks: what at-least-once delivery means when the handler is
 * a RetrySink with a dead-letter queue, and what it means when it is a BatchSink.
 */
module Pipeline {
  import opened Wrappers
  import opened Events
  import opened Decoder
  import opened Filters
  import opened StreamLoop
  import opened AckSafety
  import opened History
  import Multisets
  import Retry
  import Batch

  // ------------------------------------------------------- RetrySink and DLQ

  /** Each event was given to `RetrySink.Deliver`, which returned nil. */
  ghost predicate AllNil(rc: Retry.Config, events: seq<Event>, scripts: seq<Retry.Script>)
  {
    && |scripts| == |events|
    && forall i :: 0 <= i < |events| ==> Retry.Scripted(rc, scripts[i]) && Retry.Outcome(rc, scripts[i]).answer.Nil?
  }

  ghost function AcceptedBy(rc: Retry.Config, events: seq<Event>, scripts: seq<Retry.Script>): seq<Event>
    requires AllNil(rc, events, scripts)
  {
    if events == [] then [] else
    var n := |events| - 1;
    AcceptedBy(rc, events[..n], scripts[..n]) + (if Retry.Outcome(rc, scripts[n]).accepted then [events[n]] else [])
  }

  ghost function ParkedBy(rc: Retry.Config, events: seq<Event>, scripts: seq<Retry.Script>): seq<Retry.Entry>
    requires AllNil(rc, events, scripts)
  {
    if events == [] then [] else
    var n := |events| - 1;
    ParkedBy(rc, events[..n], scripts[..n]) + Retry.Parked(rc, events[n], scripts[n])
  }

  ghost function ParkedEvents(entries: seq<Retry.Entry>): seq<Event>
  {
    seq(|entries|, i requires 0 <= i < |entries| => entries[i].event)
  }

  /** One nil answer: the event is accepted or parked, not both. */
  lemma NilConserves(rc: Retry.Config, event: Event, script: Retry.Script)
    requires rc.maxAttempts >= 1 && Retry.Scripted(rc, script) && Retry.Outcome(rc, script).answer.Nil?
    ensures ParkedEvents(Retry.Parked(rc, event, script)) == if Retry.Outcome(rc, script).accepted then [] else [event]
  {
    Retry.RetryPromise(rc, event, script);
  }

  lemma ParkedEventsAppend(a: seq<Retry.Entry>, b: seq<Retry.Entry>)
    ensures ParkedEvents(a + b) == ParkedEvents(a) + ParkedEvents(b)
  {
  }

  /** Nothing is lost and nothing doubled between the destination and the dead-letter file. */
  lemma {:induction false} RetryConserves(rc: Retry.Config, events: seq<Event>, scripts: seq<Retry.Script>)
    requires rc.maxAttempts >= 1 && AllNil(rc, events, scripts)
    ensures multiset(AcceptedBy(rc, events, scripts)) + multiset(ParkedEvents(ParkedBy(rc, events, scripts)))
         == multiset(events)
  {
    if events != [] {
      var n := |events| - 1;
      RetryConserves(rc, events[..n], scripts[..n]);
      NilConserves(rc, events[n], scripts[n]);
      ParkedEventsAppend(ParkedBy(rc, events[..n], scripts[..n]), Retry.Parked(rc, events[n], scripts[n]));
      assert events == events[..n] + [events[n]];
      Multisets.Regroup(AcceptedBy(rc, events[..n], scripts[..n]),
                        if Retry.Outcome(rc, scripts[n]).accepted then [events[n]] else [],
                        ParkedEvents(ParkedBy(rc, events[..n], scripts[..n])),
                        ParkedEvents(Retry.Parked(rc, events[n], scripts[n])),
                        events[..n], [events[n]]);
    }
  }

  /** End to end: over every history, once the confirmed position passes a transaction, each of its
      matching events was accepted by the destination or is in the dead-letter file. */
  lemma DeliveredOrDeadLettered(order: Order, cfg: Config, catalog: Catalog, txns: set<Txn>, start: Lsn,
                                epochs: seq<Epoch>, rc: Retry.Config, scripts: seq<Retry.Script>,
                                t: Txn, r: XLogData, ev: Event)
    requires ValidHistory(order, cfg, catalog, txns, start, epochs) && SafeHistory(order, cfg, epochs)
    requires rc.maxAttempts >= 1 && AllNil(rc, Delivered(order, cfg, epochs), scripts)
    requires t in txns && r in t.rows && TxnEvent(cfg, catalog, t, r) == Some(ev)
    requires start <= t.commitLsn < Confirmed(start, epochs)
    ensures var events := Delivered(order, cfg, epochs);
            ev in AcceptedBy(rc, events, scripts) || ev in ParkedEvents(ParkedBy(rc, events, scripts))
  {
    var events := Delivered(order, cfg, epochs);
    AtLeastOnce(order, cfg, catalog, txns, start, epochs, t, r, ev);
    RetryConserves(rc, events, scripts);
    assert ev in multiset(events);
  }

  // ---------------------------------------------------------------- BatchSink

  /** The stream is the batch sink's only caller: the sink accepted what it delivered, and perhaps one event
      more, whose full batch failed. */
  ghost predicate FedBy(s: Loop, b: Batch.System)
  {
    s.delivered <= Batch.EventsOf(b.accepted)
  }

  /** Over a BatchSink an acknowledged event is somewhere: in a batch handed over, in one held by a flusher,
      or in the buffer, at every point of every interleaving. */
  lemma AckedIsAccountedFor(order: Order, cfg: Config, catalog: Catalog, txns: set<Txn>, before: Lsn, e: Epoch,
                            bc: Batch.Config, actions: seq<Batch.Action>, t: Txn, r: XLogData, ev: Event)
    requires ValidEpoch(order, cfg, catalog, txns, before, e) && Safe(order, cfg, e.msgs)
    requires FedBy(EpochRun(order, cfg, e), Batch.Exec(bc, Batch.INITIAL, actions))
    requires t in txns && r in t.rows && TxnEvent(cfg, catalog, t, r) == Some(ev)
    requires before <= t.commitLsn < e.confirmed
    ensures var b := Batch.Exec(bc, Batch.INITIAL, actions);
            && Batch.HandedOnce(b)
            && (|| ev in Batch.Handed(b, |b.handed|)
                || ev in Batch.HeldAfter(b, |b.handed|)
                || ev in b.sink.buffer)
  {
    var b := Batch.Exec(bc, Batch.INITIAL, actions);
    EpochDelivers(order, cfg, catalog, txns, before, e, t, r, ev);
    Batch.EveryEventOnce(bc, actions);
    assert ev in multiset(Batch.EventsOf(b.accepted));
  }

  // ------------------------------------------------ acknowledged, only buffered

  /** The matching events of the messages from `k` up to but not including `m`. */
  ghost function EventsFrom(cfg: Config, msgs: seq<XLogData>, k: nat, m: nat): int
    requires k <= m <= |msgs|
  {
    |OwedEvents(cfg, msgs[..m])| - |OwedEvents(cfg, msgs[..k])|
  }

  /** Exactly what the sink accepted: what it answered nil, and the refused event of a stream that stopped on the
      sink's error, which filled a batch: only a full batch's delivery makes Deliver fail. */
  ghost predicate FedExactly(s: Loop, b: Batch.System)
  {
    var refused := s.exit == ProcessFailed(HandlerError);
    && FedBy(s, b)
    && |b.accepted| == |s.delivered| + (if refused then 1 else 0)
    && (refused ==> b.accepted[|s.delivered|].waits.Some?)
  }

  /** Some ack of the run passes the commit `j` of row `k`, whose event the sink answered nil and still has in its
      buffer. A crash there loses it. */
  ghost predicate OnlyBuffered(order: Order, cfg: Config, msgs: seq<XLogData>, k: nat, j: nat, now: nat,
                               ticks: seq<Tick>, bc: Batch.Config, actions: seq<Batch.Action>)
    requires k <= j < |msgs| && msgs[j].msg.Commit?
  {
    var s := Run(order, cfg, now, ticks);
    var b := Batch.Exec(bc, Batch.INITIAL, actions);
    && s.log <= msgs && FedExactly(s, b)
    && (exists a :: a in s.acks && a.position > msgs[j].msg.commitLsn)
    && |b.accepted| - |b.sink.buffer| <= |OwedEvents(cfg, msgs[..k])| < |s.delivered|
  }

  /** One of the positions held over the first `m` messages reaches commit `j`. */
  ghost predicate Reaches(msgs: seq<XLogData>, j: nat, m: nat)
    requires m <= |msgs| && j < |msgs| && msgs[j].msg.Commit?
  {
    exists r :: 0 <= r <= m && LastEnd(msgs[..r]) >= msgs[j].msg.commitLsn
  }

  lemma {:induction false} OwedGrows(cfg: Config, log: seq<XLogData>, m: nat, n: nat)
    requires m <= n <= |log|
    ensures |OwedEvents(cfg, log[..m])| <= |OwedEvents(cfg, log[..n])|
  {
    if m < n {
      OwedGrows(cfg, log, m, n - 1);
      assert log[..n][..n - 1] == log[..n - 1];
    }
  }

  lemma {:induction false} NothingOwed(cfg: Config, msgs: seq<XLogData>, m: nat, n: nat)
    requires m <= n <= |msgs| && forall i :: m <= i < n ==> !Matched(cfg, msgs, i)
    ensures OwedEvents(cfg, msgs[..n]) == OwedEvents(cfg, msgs[..m])
  {
    if m < n {
      NothingOwed(cfg, msgs, m, n - 1);
      assert !Matched(cfg, msgs, n - 1);
      assert msgs[..n] == msgs[..n - 1] + [msgs[n - 1]];
      OwedEventsSnoc(cfg, msgs[..n - 1], msgs[n - 1]);
    }
  }

  lemma MatchedAdds(cfg: Config, msgs: seq<XLogData>, k: nat)
    requires Matched(cfg, msgs, k)
    ensures |OwedEvents(cfg, msgs[..k + 1])| == |OwedEvents(cfg, msgs[..k])| + 1
  {
    assert msgs[..k + 1] == msgs[..k] + [msgs[k]];
    OwedEventsSnoc(cfg, msgs[..k], msgs[k]);
  }

  /** On a decodable stream processing fails only by the handler's refusal. */
  lemma OnlyRefusals(order: Order, cfg: Config, now: nat, ticks: seq<Tick>, msgs: seq<XLogData>)
    requires AllDecodable(msgs) && Run(order, cfg, now, ticks).log <= msgs
    ensures var s := Run(order, cfg, now, ticks); s.exit.ProcessFailed? ==> s.exit.verdict.HandlerError?
  {
    var s := Run(order, cfg, now, ticks);
    RunKeepsInv(order, cfg, now, ticks);
    if s.exit.ProcessFailed? {
      var p := s.processed;
      assert s.log[..p] == msgs[..p] && s.log[p] == msgs[p];
      assert Decodable(msgs[..p], msgs[p]);
    }
  }

  /** Without a refusal every ack reports the end of a message processed. */
  lemma AckWithinProcessed(order: Order, cfg: Config, now: nat, ticks: seq<Tick>, msgs: seq<XLogData>, a: Ack)
    returns (r: nat)
    requires AllDecodable(msgs)
    requires var s := Run(order, cfg, now, ticks);
             s.log <= msgs && a in s.acks && s.exit != ProcessFailed(HandlerError)
    ensures var s := Run(order, cfg, now, ticks);
            && r <= s.processed <= |msgs| && a.position == AckPosition(LastEnd(msgs[..r]))
            && s.delivered == OwedEvents(cfg, msgs[..s.processed])
  {
    var s := Run(order, cfg, now, ticks);
    RunKeepsInv(order, cfg, now, ticks);
    OnlyRefusals(order, cfg, now, ticks, msgs);
    assert AckTruthful(order, s, a);
    r := AckReach(order, s, a);
    assert s.log[..s.processed] == msgs[..s.processed] && s.log[..r] == msgs[..r];
  }

  lemma BufferedIsSmall(order: Order, cfg: Config, msgs: seq<XLogData>, k: nat, j: nat, now: nat, ticks: seq<Tick>,
                        bc: Batch.Config, actions: seq<Batch.Action>) returns (m: nat)
    requires AllDecodable(msgs) && k <= j < |msgs| && msgs[j].msg.Commit?
    requires OnlyBuffered(order, cfg, msgs, k, j, now, ticks, bc, actions)
    ensures k < m <= |msgs| && Reaches(msgs, j, m) && EventsFrom(cfg, msgs, k, m) < Batch.Capacity(bc)
  {
    var s := Run(order, cfg, now, ticks);
    var a :| a in s.acks && a.position > msgs[j].msg.commitLsn;
    NotRefused(s, bc, actions, |OwedEvents(cfg, msgs[..k])|);
    var r := AckWithinProcessed(order, cfg, now, ticks, msgs, a);
    m := s.processed;
    if m <= k {
      OwedGrows(cfg, msgs, m, k);
    }
    Batch.ExecKeepsInv(bc, actions);
  }

  /** A stream stopped by the sink's error left nothing in the buffer. */
  lemma NotRefused(s: Loop, bc: Batch.Config, actions: seq<Batch.Action>, n: nat)
    requires var b := Batch.Exec(bc, Batch.INITIAL, actions);
             FedExactly(s, b) && |b.accepted| - |b.sink.buffer| <= n < |s.delivered|
    ensures s.exit != ProcessFailed(HandlerError)
  {
    if s.exit == ProcessFailed(HandlerError) {
      Batch.WaitingEmpties(bc, actions);
    }
  }

  /** A run that processed the first `m` messages, delivered what they owe and reported the end of the first `r`. */
  lemma ReachingRun(order: Order, cfg: Config, msgs: seq<XLogData>, r: nat, m: nat) returns (ticks: seq<Tick>, a: Ack)
    requires AllDecodable(msgs) && r <= m <= |msgs|
    ensures var s := Run(order, cfg, 0, ticks);
            && s.log <= msgs && s.exit.Running? && s.delivered == OwedEvents(cfg, msgs[..m])
            && a in s.acks && a.position == AckPosition(LastEnd(msgs[..r]))
  {
    ticks := KeepaliveWitness(order, cfg, msgs, r, m);
    a := Ack(KeepaliveReply, AckPosition(LastEnd(msgs[..r])), r);
    DeliveredIsOwed(order, cfg, 0, ticks);
    assert msgs[..m][..m] == msgs[..m];
  }

  lemma SmallIsBuffered(order: Order, cfg: Config, msgs: seq<XLogData>, k: nat, j: nat, m: nat, bc: Batch.Config)
    returns (ticks: seq<Tick>, actions: seq<Batch.Action>)
    requires AllDecodable(msgs) && Closes(msgs, k, j) && Matched(cfg, msgs, k)
    requires k < m <= |msgs| && Reaches(msgs, j, m) && EventsFrom(cfg, msgs, k, m) < Batch.Capacity(bc)
    ensures OnlyBuffered(order, cfg, msgs, k, j, 0, ticks, bc, actions)
  {
    var r: nat :| r <= m && LastEnd(msgs[..r]) >= msgs[j].msg.commitLsn;
    var a: Ack;
    ticks, a := ReachingRun(order, cfg, msgs, r, m);
    MatchedAdds(cfg, msgs, k);
    OwedGrows(cfg, msgs, k + 1, m);
    actions := Batch.HoldBack(bc, OwedEvents(cfg, msgs[..m]), EventsFrom(cfg, msgs, k, m));
    HeldBack(Run(order, cfg, 0, ticks), bc, actions);
  }

  lemma HeldBack(s: Loop, bc: Batch.Config, actions: seq<Batch.Action>)
    requires s.exit.Running? && Batch.EventsOf(Batch.Exec(bc, Batch.INITIAL, actions).accepted) == s.delivered
    ensures FedExactly(s, Batch.Exec(bc, Batch.INITIAL, actions))
  {
    assert |Batch.EventsOf(Batch.Exec(bc, Batch.INITIAL, actions).accepted)| == |s.delivered|;
  }

  /** Row `k` and fewer than a batch of events after it can be processed when a position held reaches its commit. */
  ghost predicate FitsUnflushed(cfg: Config, msgs: seq<XLogData>, k: nat, j: nat, capacity: nat, m: nat)
    requires k <= j < |msgs| && msgs[j].msg.Commit?
  {
    k < m <= |msgs| && Reaches(msgs, j, m) && EventsFrom(cfg, msgs, k, m) < capacity
  }

  /** Batching trades the at-least-once promise away, and exactly where, on every decodable stream and in either order:
      an acknowledged event can be in the buffer and nowhere else if and only if, once some position held reaches its
      commit, the matching events processed from its row on can be fewer than a batch. The handler's nil no longer
      means delivered. */
  lemma AckedWhileBuffered(order: Order, cfg: Config, msgs: seq<XLogData>, k: nat, j: nat, bc: Batch.Config)
    requires AllDecodable(msgs) && Closes(msgs, k, j) && Matched(cfg, msgs, k)
    ensures (exists now, ticks, actions :: OnlyBuffered(order, cfg, msgs, k, j, now, ticks, bc, actions))
       <==> (exists m :: FitsUnflushed(cfg, msgs, k, j, Batch.Capacity(bc), m))
  {
    forall now, ticks, actions | OnlyBuffered(order, cfg, msgs, k, j, now, ticks, bc, actions)
      ensures exists m :: FitsUnflushed(cfg, msgs, k, j, Batch.Capacity(bc), m)
    {
      var m := BufferedIsSmall(order, cfg, msgs, k, j, now, ticks, bc, actions);
      assert FitsUnflushed(cfg, msgs, k, j, Batch.Capacity(bc), m);
    }
    forall m | FitsUnflushed(cfg, msgs, k, j, Batch.Capacity(bc), m)
      ensures exists now, ticks, actions :: OnlyBuffered(order, cfg, msgs, k, j, now, ticks, bc, actions)
    {
      var ticks, actions := SmallIsBuffered(order, cfg, msgs, k, j, m, bc);
    }
  }

  /** On a safe stream a position that reaches the commit comes after the last matching row. */
  lemma ReachedHasAll(order: Order, cfg: Config, msgs: seq<XLogData>, k: nat, j: nat, m: nat)
    requires Safe(order, cfg, msgs) && Closes(msgs, k, j) && k < m <= |msgs| && Reaches(msgs, j, m)
    ensures EventsFrom(cfg, msgs, k, j + 1) <= EventsFrom(cfg, msgs, k, m)
  {
    if m > j {
      OwedGrows(cfg, msgs, j + 1, m);
    } else {
      forall i | m <= i < j + 1
        ensures !Matched(cfg, msgs, i)
      {
        assert i < j ==> Closes(msgs, i, j);
      }
      NothingOwed(cfg, msgs, m, j + 1);
    }
  }

  lemma FitsIfSafe(order: Order, cfg: Config, msgs: seq<XLogData>, k: nat, j: nat, capacity: nat)
    requires Closes(msgs, k, j) && Safe(order, cfg, msgs) && msgs[j].msg.commitLsn <= End(msgs[j])
    ensures (exists m :: FitsUnflushed(cfg, msgs, k, j, capacity, m)) <==> EventsFrom(cfg, msgs, k, j + 1) < capacity
  {
    forall m | FitsUnflushed(cfg, msgs, k, j, capacity, m)
      ensures EventsFrom(cfg, msgs, k, j + 1) < capacity
    {
      ReachedHasAll(order, cfg, msgs, k, j, m);
    }
    if EventsFrom(cfg, msgs, k, j + 1) < capacity {
      assert LastEnd(msgs[..j + 1]) == End(msgs[j]);
      assert FitsUnflushed(cfg, msgs, k, j, capacity, j + 1);
    }
  }

  /** On a safe stream the events that count are all those from the row to its commit. */
  lemma AckedWhileBufferedIfSafe(order: Order, cfg: Config, msgs: seq<XLogData>, k: nat, j: nat, bc: Batch.Config)
    requires AllDecodable(msgs) && Closes(msgs, k, j) && Matched(cfg, msgs, k)
    requires Safe(order, cfg, msgs) && msgs[j].msg.commitLsn <= End(msgs[j])
    ensures (exists now, ticks, actions :: OnlyBuffered(order, cfg, msgs, k, j, now, ticks, bc, actions))
       <==> EventsFrom(cfg, msgs, k, j + 1) < Batch.Capacity(bc)
  {
    AckedWhileBuffered(order, cfg, msgs, k, j, bc);
    FitsIfSafe(order, cfg, msgs, k, j, Batch.Capacity(bc));
  }

  // A transaction of two long rows: the first row's end already passes the commit.

  const SECOND_ROW := XLogData(150, 144, Insert(7, Some([STAMP, STAMP, STAMP, STAMP])))
  const TWO_ROWS := LOST_MSGS[..3] + [SECOND_ROW] + [XLogData(260, 26, Commit(220))]

  lemma TwoRowsDecode(cfg: Config)
    requires cfg.filter == Filter({}, {})
    ensures AllDecodable(TWO_ROWS) && Closes(TWO_ROWS, 2, 4) && Matched(cfg, TWO_ROWS, 2)
    ensures EventsFrom(cfg, TWO_ROWS, 2, 3) == 1 && EventsFrom(cfg, TWO_ROWS, 2, 5) == 2
  {
    var m := TWO_ROWS;
    assert m[..0] == [] && m[..1] == [m[0]] && m[..2] == [m[0], m[1]];
    assert m[..3] == m[..2] + [m[2]] && m[..4] == m[..3] + [m[3]] && m[..5] == m[..4] + [m[4]];
    assert m[..2][..1] == m[..1] && m[..3][..2] == m[..2] && m[..4][..3] == m[..3];
    assert LatestRelation(m[..2], 7) == Some(LOST_RELATION);
    assert LatestRelation(m[..3], 7) == Some(LOST_RELATION);
    OwedEventsSnoc(cfg, m[..2], m[2]);
    OwedEventsSnoc(cfg, m[..3], m[3]);
    OwedEventsSnoc(cfg, m[..4], m[4]);
  }

  /** Counting to the commit is not enough on an unsafe stream: with batches of two, the first event of a transaction
      of two can be acknowledged while only buffered. */
  lemma EarlyAckWhileBuffered(order: Order, cfg: Config)
    requires cfg.filter == Filter({}, {})
    ensures Closes(TWO_ROWS, 2, 4) && EventsFrom(cfg, TWO_ROWS, 2, 5) == Batch.Capacity(Batch.Config(2, 0))
    ensures exists now, ticks, actions ::
              OnlyBuffered(order, cfg, TWO_ROWS, 2, 4, now, ticks, Batch.Config(2, 0), actions)
  {
    TwoRowsDecode(cfg);
    assert LastEnd(TWO_ROWS[..3]) == 244;
    assert FitsUnflushed(cfg, TWO_ROWS, 2, 4, 2, 3);
    AckedWhileBuffered(order, cfg, TWO_ROWS, 2, 4, Batch.Config(2, 0));
  }
}
