/**
 * What an acknowledgement of `messageLoop` can cover, in the source's order and in
 * the order of the sink contract (`internal/sink/sink.go`, lines 43-45).
 *
 * On restart the server resends, whole, every transaction whose commit position is
 * at or past the confirmed one; a transaction below it is gone for good.
 */
module AckSafety {
  import opened Events
  import opened Decoder
  import opened StreamLoop

  /** The end of the last message, which is the position the loop holds after it. */
  ghost function LastEnd(log: seq<XLogData>): Lsn
  {
    if log == [] then 0 else End(log[|log| - 1])
  }

  /** How many messages of the log the loop's position accounts for. */
  ghost function Reach(order: Order, s: Loop): nat
  {
    if order.AsWritten? then |s.log| else s.processed
  }

  /** How many messages an ack accounts for: those processed when it was sent, and in the
      source's order also the failing one when it is the exit ack of a processing error. */
  ghost function AckReach(order: Order, s: Loop, a: Ack): nat
  {
    if order.AsWritten? && a.kind.Final? && s.exit.ProcessFailed? then a.processed + 1 else a.processed
  }

  ghost predicate AckTruthful(order: Order, s: Loop, a: Ack)
  {
    && a.processed <= s.processed
    && (a.kind.Final? ==> a.processed == s.processed)
    && AckReach(order, s, a) <= |s.log|
    && a.position == AckPosition(LastEnd(s.log[..AckReach(order, s, a)]))
  }

  ghost predicate Inv(order: Order, cfg: Config, s: Loop)
  {
    && |s.log| == s.processed + (if s.exit.ProcessFailed? then 1 else 0)
    && Tracks(s.decoder, s.log[..s.processed])
    && s.delivered == OwedEvents(cfg, s.log[..s.processed])
    && s.lastReceived == LastEnd(s.log[..Reach(order, s)])
    && (s.exit.ProcessFailed? ==>
          (s.exit.verdict.HandlerError? <==> Decodable(s.log[..s.processed], s.log[s.processed])))
    && (forall a :: a in s.acks ==> AckTruthful(order, s, a))
  }

  ghost predicate NoFinal(s: Loop)
  {
    forall a :: a in s.acks ==> !a.kind.Final?
  }

  lemma SendAckKeepsInv(order: Order, cfg: Config, s: Loop, kind: AckKind)
    requires Inv(order, cfg, s)
    requires s.exit.ProcessFailed? ==> kind.Final?
    ensures Inv(order, cfg, SendAck(s, kind))
  {
    var a := Ack(kind, AckPosition(s.lastReceived), s.processed);
    assert AckTruthful(order, s, a);
    forall b | b in SendAck(s, kind).acks
      ensures AckTruthful(order, SendAck(s, kind), b)
    {
      assert b == a || b in s.acks;
    }
  }

  lemma HandleKeepsInv(order: Order, cfg: Config, s: Loop, x: XLogData, handlerOk: bool)
    requires Inv(order, cfg, s) && NoFinal(s) && s.exit.Running?
    ensures Inv(order, cfg, Handle(order, cfg, s, x, handlerOk)) && NoFinal(Handle(order, cfg, s, x, handlerOk))
  {
    assert s.log[..s.processed] == s.log;
    ProcessRefines(cfg, s.decoder, s.log, x, handlerOk);
    OwedEventsSnoc(cfg, s.log, x);
    var s' := Handle(order, cfg, s, x, handlerOk);
    assert s'.log[..s'.processed] == if s'.exit.Running? then s.log + [x] else s.log;
    assert s'.log[..Reach(order, s')] == if order.AsWritten? || s'.exit.Running? then s.log + [x] else s.log;
    forall a | a in s'.acks
      ensures AckTruthful(order, s', a)
    {
      assert AckTruthful(order, s, a);
      assert s'.log[..a.processed] == s.log[..a.processed];
    }
  }

  lemma ExitKeepsInv(order: Order, cfg: Config, s: Loop, exit: Exit)
    requires Inv(order, cfg, s) && NoFinal(s) && !s.exit.ProcessFailed? && !exit.ProcessFailed?
    ensures Inv(order, cfg, s.(exit := exit)) && NoFinal(s.(exit := exit))
  {
    forall a | a in s.acks
      ensures AckTruthful(order, s.(exit := exit), a)
    {
      assert AckTruthful(order, s, a);
    }
  }

  lemma PeriodicAckKeepsInv(order: Order, cfg: Config, s: Loop, t: Tick)
    requires Inv(order, cfg, s) && NoFinal(s) && s.exit.Running?
    ensures Inv(order, cfg, PeriodicAck(s, t)) && NoFinal(PeriodicAck(s, t))
  {
    SendAckKeepsInv(order, cfg, s, Periodic);
    var sent := SendAck(s, Periodic);
    ExitKeepsInv(order, cfg, sent, AckFailed);
    forall a | a in PeriodicAck(s, t).acks
      ensures AckTruthful(order, PeriodicAck(s, t), a)
    {
      assert AckTruthful(order, sent, a);
    }
  }

  lemma ReceiveKeepsInv(order: Order, cfg: Config, s: Loop, r: Received)
    requires Inv(order, cfg, s) && NoFinal(s) && s.exit.Running?
    ensures Inv(order, cfg, Receive(order, cfg, s, r)) && NoFinal(Receive(order, cfg, s, r))
  {
    match r
    case XLog(x, ok) => HandleKeepsInv(order, cfg, s, x, ok);
    case Keepalive(reply, sent) =>
      SendAckKeepsInv(order, cfg, s, KeepaliveReply);
      ExitKeepsInv(order, cfg, SendAck(s, KeepaliveReply), KeepaliveReplyFailed);
    case _ => ExitKeepsInv(order, cfg, s, Receive(order, cfg, s, r).exit);
  }

  lemma StepKeepsInv(order: Order, cfg: Config, s: Loop, t: Tick)
    requires Inv(order, cfg, s) && NoFinal(s)
    ensures Inv(order, cfg, Step(order, cfg, s, t)) && NoFinal(Step(order, cfg, s, t))
  {
    if s.exit.Running? {
      ExitKeepsInv(order, cfg, s, Shutdown);
      PeriodicAckKeepsInv(order, cfg, s, t);
      var s1 := PeriodicAck(s, t);
      if s1.exit.Running? {
        ReceiveKeepsInv(order, cfg, s1, t.received);
      }
    }
  }

  lemma {:induction false} StepsKeepInv(order: Order, cfg: Config, now: nat, ticks: seq<Tick>)
    ensures var s := Steps(order, cfg, Start(FRESH, now), ticks);
            Inv(order, cfg, s) && NoFinal(s)
  {
    if ticks != [] {
      StepsKeepInv(order, cfg, now, ticks[..|ticks| - 1]);
      StepKeepsInv(order, cfg, Steps(order, cfg, Start(FRESH, now), ticks[..|ticks| - 1]), ticks[|ticks| - 1]);
    }
  }

  /** The decoder refinement and the meaning of every ack, over every run in either order. */
  lemma RunKeepsInv(order: Order, cfg: Config, now: nat, ticks: seq<Tick>)
    ensures Inv(order, cfg, Run(order, cfg, now, ticks))
  {
    StepsKeepInv(order, cfg, now, ticks);
    SendAckKeepsInv(order, cfg, Steps(order, cfg, Start(FRESH, now), ticks), Final);
  }

  /** In every run, the events accepted by the handler are exactly those owed by the
      messages processed, in order, each through the latest earlier Relation and the open Begin. */
  lemma DeliveredIsOwed(order: Order, cfg: Config, now: nat, ticks: seq<Tick>)
    ensures var s := Run(order, cfg, now, ticks);
            s.processed <= |s.log| && s.delivered == OwedEvents(cfg, s.log[..s.processed])
  {
    RunKeepsInv(order, cfg, now, ticks);
  }

  /** As written: every periodic ack, every keepalive reply and every exit ack that does not follow
      a processing error reports one past the end of the last message processed without error. */
  lemma AcksAsWritten(cfg: Config, now: nat, ticks: seq<Tick>, a: Ack)
    requires var s := Run(AsWritten, cfg, now, ticks);
             a in s.acks && !(a.kind.Final? && s.exit.ProcessFailed?)
    ensures var s := Run(AsWritten, cfg, now, ticks);
            && a.processed <= s.processed <= |s.log|
            && a.position == LastEnd(s.log[..a.processed]) + 1
  {
    RunKeepsInv(AsWritten, cfg, now, ticks);
  }

  /** As written: with messages that each start past the end of everything before them, such an ack
      covers only messages that were processed. */
  lemma AcksCoverProcessed(cfg: Config, now: nat, ticks: seq<Tick>, a: Ack, msgs: seq<XLogData>, k: nat)
    requires var s := Run(AsWritten, cfg, now, ticks);
             a in s.acks && !(a.kind.Final? && s.exit.ProcessFailed?) && s.log <= msgs
    requires k < |msgs| && forall m :: 0 <= m <= k ==> LastEnd(msgs[..m]) < msgs[k].start
    ensures msgs[k].start < a.position ==> k < a.processed
  {
    var s := Run(AsWritten, cfg, now, ticks);
    AcksAsWritten(cfg, now, ticks, a);
    assert s.log[..a.processed] == msgs[..a.processed];
  }

  ghost predicate AckedWasReported(s: Loop)
  {
    s.lastAcked > 0 ==> exists i :: 0 <= i < |s.acks| && s.acks[i].position == AckPosition(s.lastAcked)
  }

  lemma StepKeepsReported(order: Order, cfg: Config, s: Loop, t: Tick)
    requires AckedWasReported(s)
    ensures AckedWasReported(Step(order, cfg, s, t))
  {
    var s1 := PeriodicAck(s, t);
    assert AckedWasReported(s1) by {
      if s1.lastAcked != s.lastAcked {
        assert s1.acks[|s.acks|].position == AckPosition(s1.lastAcked);
      } else if s.lastAcked > 0 {
        var i :| 0 <= i < |s.acks| && s.acks[i].position == AckPosition(s.lastAcked);
        assert s1.acks[i] == s.acks[i];
      }
    }
    var s2 := Receive(order, cfg, s1, t.received);
    assert s2.lastAcked == s1.lastAcked && s1.acks <= s2.acks;
    if s1.lastAcked > 0 {
      var i :| 0 <= i < |s1.acks| && s1.acks[i].position == AckPosition(s1.lastAcked);
      assert s2.acks[i] == s1.acks[i];
    }
  }

  lemma {:induction false} AckedPositionWasReported(order: Order, cfg: Config, now: nat, ticks: seq<Tick>)
    ensures AckedWasReported(Steps(order, cfg, Start(FRESH, now), ticks))
  {
    if ticks != [] {
      var n := |ticks| - 1;
      AckedPositionWasReported(order, cfg, now, ticks[..n]);
      StepKeepsReported(order, cfg, Steps(order, cfg, Start(FRESH, now), ticks[..n]), ticks[n]);
    }
  }

  /** Every way out leaves nothing received unreported: some ack of the run lies past the last position held. */
  lemma ExitReportsEverything(order: Order, cfg: Config, now: nat, ticks: seq<Tick>)
    requires var s := Run(order, cfg, now, ticks); !s.exit.Running? && s.lastReceived > 0
    ensures var s := Run(order, cfg, now, ticks);
            exists a :: a in s.acks && a.position > s.lastReceived
  {
    var s0 := Steps(order, cfg, Start(FRESH, now), ticks);
    var s := Run(order, cfg, now, ticks);
    if s0.lastReceived > s0.lastAcked {
      assert s.acks[|s0.acks|].position == AckPosition(s0.lastReceived);
    } else {
      AckedPositionWasReported(order, cfg, now, ticks);
      var i :| 0 <= i < |s0.acks| && s0.acks[i].position == AckPosition(s0.lastAcked);
      assert s0.acks[i] in s.acks;
    }
  }

  /** The sink contract says a failing event's position is not acknowledged. As written it always is:
      whatever made `processMessage` fail, some ack of the run lies past the failing message. */
  lemma FailureIsAcknowledged(cfg: Config, now: nat, ticks: seq<Tick>)
    requires var s := Run(AsWritten, cfg, now, ticks);
             s.exit.ProcessFailed? && |s.log| > 0 && End(s.log[|s.log| - 1]) > 0
    ensures var s := Run(AsWritten, cfg, now, ticks);
            exists a :: a in s.acks && a.position > s.log[|s.log| - 1].start
  {
    var s := Run(AsWritten, cfg, now, ticks);
    RunKeepsInv(AsWritten, cfg, now, ticks);
    assert s.log[..|s.log|] == s.log;
    ExitReportsEverything(AsWritten, cfg, now, ticks);
  }

  /** In the contract's order no ack lies past a failing message that starts beyond everything before it. */
  lemma ContractSparesFailure(cfg: Config, now: nat, ticks: seq<Tick>)
    requires var s := Run(Contract, cfg, now, ticks);
             && s.exit.ProcessFailed? && |s.log| > 0
             && forall m :: 0 <= m < |s.log| ==> LastEnd(s.log[..m]) < s.log[|s.log| - 1].start
    ensures var s := Run(Contract, cfg, now, ticks);
            forall a :: a in s.acks ==> a.position <= s.log[|s.log| - 1].start
  {
    RunKeepsInv(Contract, cfg, now, ticks);
  }

  // --------------------------------------------------------------- exact safety

  /** Row `k` belongs to the transaction that message `j` commits. */
  ghost predicate Closes(msgs: seq<XLogData>, k: int, j: int)
  {
    && 0 <= k < j < |msgs|
    && msgs[j].msg.Commit?
    && forall i :: k <= i < j ==> !msgs[i].msg.Commit?
  }

  ghost predicate Matched(cfg: Config, msgs: seq<XLogData>, k: int)
  {
    0 <= k < |msgs| && Owed(cfg, msgs[..k], msgs[k]).Some?
  }

  /** A property of what the server sends, checkable before any of it arrives: no position held before
      (as written: before or at) a matching row reaches that row's commit. */
  ghost predicate Safe(order: Order, cfg: Config, msgs: seq<XLogData>)
  {
    forall k, j, m :: Closes(msgs, k, j) && Matched(cfg, msgs, k) && 0 <= m <= (if order.AsWritten? then k + 1 else k)
      ==> LastEnd(msgs[..m]) < msgs[j].msg.commitLsn
  }

  /** The run received a beginning of `msgs`, and each of its acks leaves every matching row of the
      transactions below it processed. */
  ghost predicate AcksKeepRows(cfg: Config, msgs: seq<XLogData>, s: Loop)
  {
    forall a, k, j :: a in s.acks && Closes(msgs, k, j) && Matched(cfg, msgs, k) && msgs[j].msg.commitLsn < a.position
      ==> k < a.processed
  }

  ghost predicate EveryRunSafe(order: Order, cfg: Config, msgs: seq<XLogData>)
  {
    forall now, ticks :: Run(order, cfg, now, ticks).log <= msgs ==>
      AcksKeepRows(cfg, msgs, Run(order, cfg, now, ticks))
  }

  lemma SafeRun(order: Order, cfg: Config, msgs: seq<XLogData>, now: nat, ticks: seq<Tick>)
    requires Safe(order, cfg, msgs)
    requires Run(order, cfg, now, ticks).log <= msgs
    ensures AcksKeepRows(cfg, msgs, Run(order, cfg, now, ticks))
  {
    var s := Run(order, cfg, now, ticks);
    RunKeepsInv(order, cfg, now, ticks);
    forall a, k, j | a in s.acks && Closes(msgs, k, j) && Matched(cfg, msgs, k) && msgs[j].msg.commitLsn < a.position
      ensures k < a.processed
    {
      var m := AckReach(order, s, a);
      assert AckTruthful(order, s, a);
      assert s.log[..m] == msgs[..m];
    }
  }

  // Witness runs: receive a decodable beginning of `msgs`, then either answer a keepalive or fail.

  ghost function Accepting(msgs: seq<XLogData>): seq<Tick>
  {
    seq(|msgs|, i requires 0 <= i < |msgs| => Tick(false, 0, true, 0, XLog(msgs[i], true)))
  }

  ghost predicate AllDecodable(msgs: seq<XLogData>)
  {
    forall k :: 0 <= k < |msgs| ==> Decodable(msgs[..k], msgs[k])
  }

  /** The loop after `pre` was received, processed and not yet acknowledged. */
  ghost predicate Quiet(s: Loop, pre: seq<XLogData>)
  {
    && s.exit.Running? && s.log == pre && s.processed == |pre| && s.acks == [] && s.lastAcked == 0
    && s.nextAck == ACK_INTERVAL && s.lastReceived == LastEnd(pre) && Tracks(s.decoder, pre)
  }

  lemma QuietStep(order: Order, cfg: Config, s: Loop, pre: seq<XLogData>, x: XLogData)
    requires Quiet(s, pre) && Decodable(pre, x)
    ensures Quiet(Step(order, cfg, s, Tick(false, 0, true, 0, XLog(x, true))), pre + [x])
  {
    ProcessRefines(cfg, s.decoder, pre, x, true);
  }

  lemma {:induction false} AcceptingRun(order: Order, cfg: Config, msgs: seq<XLogData>, m: nat)
    requires AllDecodable(msgs) && m <= |msgs|
    ensures Quiet(Steps(order, cfg, Start(FRESH, 0), Accepting(msgs[..m])), msgs[..m])
  {
    if m > 0 {
      AcceptingRun(order, cfg, msgs, m - 1);
      assert Accepting(msgs[..m])[..m - 1] == Accepting(msgs[..m - 1]);
      assert msgs[..m] == msgs[..m - 1] + [msgs[m - 1]];
      QuietStep(order, cfg, Steps(order, cfg, Start(FRESH, 0), Accepting(msgs[..m - 1])), msgs[..m - 1], msgs[m - 1]);
    }
  }

  lemma {:induction false} StepsSnoc(order: Order, cfg: Config, s: Loop, ticks: seq<Tick>, t: Tick)
    ensures Steps(order, cfg, s, ticks + [t]) == Step(order, cfg, Steps(order, cfg, s, ticks), t)
  {
    assert (ticks + [t])[..|ticks|] == ticks;
  }

  lemma {:induction false} StepsAppend(order: Order, cfg: Config, s: Loop, first: seq<Tick>, second: seq<Tick>)
    ensures Steps(order, cfg, s, first + second) == Steps(order, cfg, Steps(order, cfg, s, first), second)
  {
    if second == [] {
      assert first + second == first;
    } else {
      var n := |second| - 1;
      StepsAppend(order, cfg, s, first, second[..n]);
      assert first + second == (first + second[..n]) + [second[n]];
      StepsSnoc(order, cfg, s, first + second[..n], second[n]);
    }
  }

  /** The loop after `pre` was received and processed, whatever it acknowledged. */
  ghost predicate Going(s: Loop, pre: seq<XLogData>)
  {
    s.exit.Running? && s.log == pre && s.processed == |pre| && s.nextAck == ACK_INTERVAL && Tracks(s.decoder, pre)
  }

  lemma GoingStep(order: Order, cfg: Config, s: Loop, pre: seq<XLogData>, x: XLogData)
    requires Going(s, pre) && Decodable(pre, x)
    ensures var s' := Step(order, cfg, s, Tick(false, 0, true, 0, XLog(x, true)));
            Going(s', pre + [x]) && s'.acks == s.acks
  {
    ProcessRefines(cfg, s.decoder, pre, x, true);
  }

  lemma {:induction false} GoingOn(order: Order, cfg: Config, s: Loop, msgs: seq<XLogData>, m: nat, p: nat)
    requires AllDecodable(msgs) && m <= p <= |msgs| && Going(s, msgs[..m])
    ensures var s' := Steps(order, cfg, s, Accepting(msgs[m..p])); Going(s', msgs[..p]) && s'.acks == s.acks
  {
    if m < p {
      GoingOn(order, cfg, s, msgs, m, p - 1);
      assert Accepting(msgs[m..p])[..p - 1 - m] == Accepting(msgs[m..p - 1]);
      assert msgs[..p] == msgs[..p - 1] + [msgs[p - 1]];
      GoingStep(order, cfg, Steps(order, cfg, s, Accepting(msgs[m..p - 1])), msgs[..p - 1], msgs[p - 1]);
    } else {
      assert Accepting(msgs[m..p]) == [];
    }
  }

  /** A keepalive answered after `m` messages reports the end of message `m`; the loop then goes on to message `p`. */
  lemma KeepaliveWitness(order: Order, cfg: Config, msgs: seq<XLogData>, m: nat, p: nat) returns (ticks: seq<Tick>)
    requires AllDecodable(msgs) && m <= p <= |msgs|
    ensures var s := Run(order, cfg, 0, ticks);
            && s.log == msgs[..p] && s.processed == p && s.exit.Running?
            && Ack(KeepaliveReply, AckPosition(LastEnd(msgs[..m])), m) in s.acks
  {
    AcceptingRun(order, cfg, msgs, m);
    var t := Tick(false, 0, true, 0, Keepalive(true, true));
    var first := Accepting(msgs[..m]) + [t];
    StepsSnoc(order, cfg, Start(FRESH, 0), Accepting(msgs[..m]), t);
    GoingOn(order, cfg, Steps(order, cfg, Start(FRESH, 0), first), msgs, m, p);
    ticks := first + Accepting(msgs[m..p]);
    StepsAppend(order, cfg, Start(FRESH, 0), first, Accepting(msgs[m..p]));
  }

  lemma RefusedStep(cfg: Config, s: Loop, pre: seq<XLogData>, x: XLogData)
    requires Quiet(s, pre) && Decodable(pre, x) && Owed(cfg, pre, x).Some?
    ensures var s' := Step(AsWritten, cfg, s, Tick(false, 0, true, 0, XLog(x, false)));
            && s'.exit == ProcessFailed(HandlerError) && s'.log == pre + [x] && s'.processed == |pre|
            && s'.lastReceived == End(x) && s'.lastAcked == 0 && s'.acks == []
  {
    ProcessRefines(cfg, s.decoder, pre, x, false);
  }

  lemma RefusedExit(cfg: Config, s: Loop, pre: seq<XLogData>, x: XLogData)
    requires Quiet(s, pre) && Decodable(pre, x) && Owed(cfg, pre, x).Some? && End(x) > 0
    ensures var d := Deferred(Step(AsWritten, cfg, s, Tick(false, 0, true, 0, XLog(x, false))));
            && d.log == pre + [x] && d.processed == |pre| && d.exit == ProcessFailed(HandlerError)
            && Ack(Final, AckPosition(End(x)), |pre|) in d.acks
  {
    RefusedStep(cfg, s, pre, x);
  }

  /** As written, a row the handler refuses is reported by the exit ack. */
  lemma RefusalWitness(cfg: Config, msgs: seq<XLogData>, k: nat) returns (ticks: seq<Tick>)
    requires AllDecodable(msgs) && Matched(cfg, msgs, k) && End(msgs[k]) > 0
    ensures var s := Run(AsWritten, cfg, 0, ticks);
            && s.log == msgs[..k + 1] && s.processed == k && s.exit == ProcessFailed(HandlerError)
            && Ack(Final, AckPosition(LastEnd(msgs[..k + 1])), k) in s.acks
  {
    AcceptingRun(AsWritten, cfg, msgs, k);
    var before := Accepting(msgs[..k]);
    var t := Tick(false, 0, true, 0, XLog(msgs[k], false));
    ticks := before + [t];
    StepsSnoc(AsWritten, cfg, Start(FRESH, 0), before, t);
    RefusedExit(cfg, Steps(AsWritten, cfg, Start(FRESH, 0), before), msgs[..k], msgs[k]);
    assert msgs[..k + 1] == msgs[..k] + [msgs[k]];
  }

  /** One bad ack refutes the safety of every run. */
  lemma BadAck(order: Order, cfg: Config, msgs: seq<XLogData>, ticks: seq<Tick>, a: Ack, k: int, j: int)
    requires Run(order, cfg, 0, ticks).log <= msgs && a in Run(order, cfg, 0, ticks).acks
    requires Closes(msgs, k, j) && Matched(cfg, msgs, k) && msgs[j].msg.commitLsn < a.position && a.processed <= k
    ensures !EveryRunSafe(order, cfg, msgs)
  {
    assert !AcksKeepRows(cfg, msgs, Run(order, cfg, 0, ticks));
  }

  /** A run of which one ack passes the commit of a row not processed. */
  lemma UnsafeRun(order: Order, cfg: Config, msgs: seq<XLogData>, k: int, j: int, m: int)
    returns (ticks: seq<Tick>, a: Ack)
    requires AllDecodable(msgs) && Closes(msgs, k, j) && Matched(cfg, msgs, k)
    requires 0 <= m <= (if order.AsWritten? then k + 1 else k) && LastEnd(msgs[..m]) >= msgs[j].msg.commitLsn
    ensures var s := Run(order, cfg, 0, ticks);
            s.log <= msgs && a in s.acks && a.processed <= s.processed <= k && msgs[j].msg.commitLsn < a.position
  {
    if m <= k || End(msgs[k]) == 0 {
      var early := if m <= k then m else 0;
      ticks := KeepaliveWitness(order, cfg, msgs, early, early);
      a := Ack(KeepaliveReply, AckPosition(LastEnd(msgs[..early])), early);
    } else {
      ticks := RefusalWitness(cfg, msgs, k);
      a := Ack(Final, AckPosition(LastEnd(msgs[..m])), k);
    }
  }

  lemma UnsafeAck(order: Order, cfg: Config, msgs: seq<XLogData>) returns (k: int, j: int, ticks: seq<Tick>, a: Ack)
    requires AllDecodable(msgs) && !Safe(order, cfg, msgs)
    ensures Closes(msgs, k, j) && Matched(cfg, msgs, k)
    ensures var s := Run(order, cfg, 0, ticks);
            s.log <= msgs && a in s.acks && a.processed <= s.processed <= k && msgs[j].msg.commitLsn < a.position
  {
    var k', j', m :| Closes(msgs, k', j') && Matched(cfg, msgs, k')
                     && 0 <= m <= (if order.AsWritten? then k' + 1 else k')
                     && LastEnd(msgs[..m]) >= msgs[j'].msg.commitLsn;
    k, j := k', j';
    ticks, a := UnsafeRun(order, cfg, msgs, k, j, m);
  }

  /** Exactly when the acks are safe: over all runs on a decodable stream, in either order,
      no ack ever passes an unprocessed matching row if and only if the stream is `Safe` for that order. */
  lemma SafeIffEveryRunSafe(order: Order, cfg: Config, msgs: seq<XLogData>)
    requires AllDecodable(msgs)
    ensures Safe(order, cfg, msgs) <==> EveryRunSafe(order, cfg, msgs)
  {
    if Safe(order, cfg, msgs) {
      forall now, ticks | Run(order, cfg, now, ticks).log <= msgs
        ensures AcksKeepRows(cfg, msgs, Run(order, cfg, now, ticks))
      {
        SafeRun(order, cfg, msgs, now, ticks);
      }
    } else {
      var k, j, ticks, a := UnsafeAck(order, cfg, msgs);
      BadAck(order, cfg, msgs, ticks, a, k, j);
    }
  }

  /** Enough for both orders: every commit lies past the end of every message sent before it. */
  lemma SpacedIsSafe(order: Order, cfg: Config, msgs: seq<XLogData>)
    requires forall j, m :: 0 <= m <= j < |msgs| && msgs[j].msg.Commit? ==> LastEnd(msgs[..m]) < msgs[j].msg.commitLsn
    ensures Safe(order, cfg, msgs)
  {
  }
}
