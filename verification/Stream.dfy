/**
 * `messageLoop` of `internal/cdc/stream.go`.
 *
 * Time, the network, cancellation and the handler's answers come in as one `Tick`
 * per loop iteration. The loop's whole life is a function of its ticks, so a crash
 * is simply the end of the ticks.
 */
module StreamLoop {
  import opened Wrappers
  import opened Events
  import opened Decoder
  import opened Filters

  const ACK_INTERVAL: nat := 10_000_000_000

  datatype Received =
    | Timeout
    | ReceiveError(cancelled: bool)
    | NotCopyData
    | EmptyCopyData
    | BadKeepalive
    | Keepalive(reply: bool, sent: bool)
    | BadXLog
    | XLog(data: XLogData, handlerOk: bool)
    | OtherByte

  /** What one iteration meets: the clock before and after a periodic ack, whether sends succeed, what arrives. */
  datatype Tick = Tick(cancelled: bool, now: nat, ackSent: bool, nowAfterAck: nat, received: Received)

  datatype Exit =
    | Running
    | Shutdown
    | AckFailed
    | ReceiveFailed
    | BadKeepaliveMessage
    | KeepaliveReplyFailed
    | BadXLogMessage
    | Panicked
    | ProcessFailed(verdict: Verdict)

  datatype AckKind = Periodic | KeepaliveReply | Final

  /** A standby status update: the position it reports and how many messages had been processed without error.
      One whose send fails is recorded too, since the server may have received it. */
  datatype Ack = Ack(kind: AckKind, position: Lsn, processed: nat)

  /**
   * `AsWritten` is the source's order: the position advances before `processMessage`.
   * `Contract` is the order the sink contract describes: it advances once `processMessage` returned nil.
   */
  datatype Order = AsWritten | Contract

  datatype Loop = Loop(
    lastReceived: Lsn, lastAcked: Lsn, nextAck: nat,
    decoder: State,
    log: seq<XLogData>, processed: nat, delivered: seq<Event>,
    acks: seq<Ack>, exit: Exit)

  function End(x: XLogData): Lsn { x.start + x.length }

  /** `sendAck` reports one past the position it is given. */
  function AckPosition(lsn: Lsn): Lsn { lsn + 1 }

  function Start(decoder: State, now: nat): Loop
  {
    Loop(0, 0, now + ACK_INTERVAL, decoder, [], 0, [], [], Running)
  }

  function SendAck(s: Loop, kind: AckKind): Loop
  {
    s.(acks := s.acks + [Ack(kind, AckPosition(s.lastReceived), s.processed)])
  }

  predicate AckDue(s: Loop, t: Tick)
  {
    t.now > s.nextAck && s.lastReceived > s.lastAcked
  }

  function PeriodicAck(s: Loop, t: Tick): Loop
  {
    if !AckDue(s, t) then s
    else if !t.ackSent then SendAck(s, Periodic).(exit := AckFailed)
    else SendAck(s, Periodic).(lastAcked := s.lastReceived, nextAck := t.nowAfterAck + ACK_INTERVAL)
  }

  function Handle(order: Order, cfg: Config, s: Loop, x: XLogData, handlerOk: bool): Loop
  {
    var o := Process(cfg, s.decoder, x, handlerOk);
    var moved := if order.AsWritten? || o.verdict.Ok? then End(x) else s.lastReceived;
    if o.verdict.Ok? then
      s.(lastReceived := moved, decoder := o.state, log := s.log + [x], processed := s.processed + 1,
         delivered := s.delivered + (match o.handed case Some(e) => [e] case None => []))
    else
      s.(lastReceived := moved, decoder := o.state, log := s.log + [x], exit := ProcessFailed(o.verdict))
  }

  function Receive(order: Order, cfg: Config, s: Loop, r: Received): Loop
  {
    match r
    case Timeout => s
    case ReceiveError(cancelled) => s.(exit := if cancelled then Shutdown else ReceiveFailed)
    case NotCopyData => s
    case EmptyCopyData => s.(exit := Panicked)
    case BadKeepalive => s.(exit := BadKeepaliveMessage)
    case Keepalive(reply, sent) =>
      if !reply then s
      else if !sent then SendAck(s, KeepaliveReply).(exit := KeepaliveReplyFailed)
      else SendAck(s, KeepaliveReply)
    case BadXLog => s.(exit := BadXLogMessage)
    case XLog(x, handlerOk) => Handle(order, cfg, s, x, handlerOk)
    case OtherByte => s
  }

  function Step(order: Order, cfg: Config, s: Loop, t: Tick): Loop
  {
    if !s.exit.Running? then s
    else if t.cancelled then s.(exit := Shutdown)
    else
      var s1 := PeriodicAck(s, t);
      if s1.exit.Running? then Receive(order, cfg, s1, t.received) else s1
  }

  function Steps(order: Order, cfg: Config, s: Loop, ticks: seq<Tick>): Loop
  {
    if ticks == [] then s
    else Step(order, cfg, Steps(order, cfg, s, ticks[..|ticks| - 1]), ticks[|ticks| - 1])
  }

  /** The deferred function: every way out of the loop, a panic included, passes here. */
  function Deferred(s: Loop): Loop
  {
    if !s.exit.Running? && s.lastReceived > s.lastAcked then SendAck(s, Final) else s
  }

  /** A run of a new process; it may still be running, or have been killed, after its last tick. */
  function Run(order: Order, cfg: Config, now: nat, ticks: seq<Tick>): Loop
  {
    Deferred(Steps(order, cfg, Start(FRESH, now), ticks))
  }

  /** The Stream object: the fields that `processMessage` updates. */
  class Stream {
    const cfg: Config
    var relations: map<nat, Relation>
    var currentXid: nat
    var currentCommitTime: int

    function Abs(): State
      reads this
    {
      State(relations, currentXid, currentCommitTime)
    }

    constructor (cfg: Config)
      ensures this.cfg == cfg && Abs() == FRESH
    {
      this.cfg := cfg;
      relations, currentXid, currentCommitTime := map[], 0, ZERO_TIME;
    }

    /** `deliverIfMatch`. */
    method DeliverIfMatch(e: Event, handlerOk: bool) returns (handed: Option<Event>, verdict: Verdict)
      ensures handed == if Match(cfg.filter, e) then Some(e) else None
      ensures verdict == if handed.Some? && !handlerOk then HandlerError else Ok
    {
      if !Match(cfg.filter, e) {
        return None, Ok;
      }
      handed := Some(e);
      verdict := if handlerOk then Ok else HandlerError;
    }

    /** `processMessage`, field by field. */
    method ProcessMessage(x: XLogData, handlerOk: bool) returns (handed: Option<Event>, verdict: Verdict)
      modifies this
      ensures Outcome(Abs(), handed, verdict) == Process(cfg, old(Abs()), x, handlerOk)
    {
      handed, verdict := None, Ok;
      match x.msg
      case Malformed => verdict := ParseError;
      case Begin(xid, time) => currentXid, currentCommitTime := xid, time;
      case Commit(_) => currentXid, currentCommitTime := 0, ZERO_TIME;
      case RelationMsg(rel) => relations := relations[rel.id := rel];
      case Truncate(_) =>
      case Unhandled =>
      case Insert(id, n) =>
        if id !in relations {
          return None, UnknownRelation;
        }
        var rel := relations[id];
        if !Fits(n, rel) {
          return None, IndexPanic;
        }
        var row := DecodeTuple(cfg.codec, n, rel.columns);
        var e := Event("INSERT", rel.schema, rel.table, row, None, currentCommitTime, x.start, currentXid);
        handed, verdict := DeliverIfMatch(e, handlerOk);
      case Update(id, o, n) =>
        if id !in relations {
          return None, UnknownRelation;
        }
        var rel := relations[id];
        if !Fits(n, rel) || !Fits(o, rel) {
          return None, IndexPanic;
        }
        var row := DecodeTuple(cfg.codec, n, rel.columns);
        var before := DecodeTuple(cfg.codec, o, rel.columns);
        var e := Event("UPDATE", rel.schema, rel.table, row, before, currentCommitTime, x.start, currentXid);
        handed, verdict := DeliverIfMatch(e, handlerOk);
      case Delete(id, o) =>
        if id !in relations {
          return None, UnknownRelation;
        }
        var rel := relations[id];
        if !Fits(o, rel) {
          return None, IndexPanic;
        }
        var before := DecodeTuple(cfg.codec, o, rel.columns);
        var e := Event("DELETE", rel.schema, rel.table, None, before, currentCommitTime, x.start, currentXid);
        handed, verdict := DeliverIfMatch(e, handlerOk);
    }

    /** `messageLoop`: the source's loop and its deferred final ack, equal to the run function in the source's order. */
    method MessageLoop(now: nat, ticks: seq<Tick>) returns (s: Loop)
      modifies this
      ensures s == Deferred(Steps(AsWritten, cfg, Start(old(Abs()), now), ticks))
      ensures Abs() == s.decoder
    {
      var lastReceivedLSN: Lsn, lastAckedLSN: Lsn, nextAckTime: nat := 0, 0, now + ACK_INTERVAL;
      var log: seq<XLogData>, processed: nat, delivered: seq<Event>, acks: seq<Ack> := [], 0, [], [];
      var exit := Running;
      var i := 0;
      ghost var start := Start(Abs(), now);
      while i < |ticks| && exit.Running?
        invariant i <= |ticks|
        invariant Loop(lastReceivedLSN, lastAckedLSN, nextAckTime, Abs(), log, processed, delivered, acks, exit)
               == Steps(AsWritten, cfg, start, ticks[..i])
      {
        var t := ticks[i];
        ghost var s0 := Steps(AsWritten, cfg, start, ticks[..i]);
        StepsNext(AsWritten, cfg, start, ticks, i);
        i := i + 1;
        if t.cancelled {
          exit := Shutdown;
          continue;
        }
        if t.now > nextAckTime && lastReceivedLSN > lastAckedLSN {
          acks := acks + [Ack(Periodic, AckPosition(lastReceivedLSN), processed)];
          if !t.ackSent {
            exit := AckFailed;
            continue;
          }
          lastAckedLSN := lastReceivedLSN;
          nextAckTime := t.nowAfterAck + ACK_INTERVAL;
        }
        ghost var s1 := PeriodicAck(s0, t);
        assert s1 == Loop(lastReceivedLSN, lastAckedLSN, nextAckTime, Abs(), log, processed, delivered, acks, Running);
        match t.received
        case Timeout =>
        case ReceiveError(cancelled) => exit := if cancelled then Shutdown else ReceiveFailed;
        case NotCopyData =>
        case EmptyCopyData => exit := Panicked;
        case BadKeepalive => exit := BadKeepaliveMessage;
        case Keepalive(reply, sent) =>
          if reply {
            acks := acks + [Ack(KeepaliveReply, AckPosition(lastReceivedLSN), processed)];
            if !sent {
              exit := KeepaliveReplyFailed;
            }
          }
        case BadXLog => exit := BadXLogMessage;
        case XLog(x, handlerOk) =>
          lastReceivedLSN := End(x);
          log := log + [x];
          var handed, verdict := ProcessMessage(x, handlerOk);
          if verdict.Ok? {
            processed := processed + 1;
            delivered := delivered + (match handed case Some(e) => [e] case None => []);
          } else {
            exit := ProcessFailed(verdict);
          }
        case OtherByte =>
      }
      StoppedLoopStays(AsWritten, cfg, start, ticks, i);
      if !exit.Running? && lastReceivedLSN > lastAckedLSN {
        acks := acks + [Ack(Final, AckPosition(lastReceivedLSN), processed)];
      }
      s := Loop(lastReceivedLSN, lastAckedLSN, nextAckTime, Abs(), log, processed, delivered, acks, exit);
    }
  }

  lemma {:induction false} StepsNext(order: Order, cfg: Config, s: Loop, ticks: seq<Tick>, i: nat)
    requires i < |ticks|
    ensures Steps(order, cfg, s, ticks[..i + 1]) == Step(order, cfg, Steps(order, cfg, s, ticks[..i]), ticks[i])
  {
    assert ticks[..i + 1][..i] == ticks[..i];
  }

  lemma {:induction false} StoppedLoopStays(order: Order, cfg: Config, s: Loop, ticks: seq<Tick>, i: nat)
    requires i <= |ticks|
    requires i < |ticks| ==> !Steps(order, cfg, s, ticks[..i]).exit.Running?
    ensures Steps(order, cfg, s, ticks) == Steps(order, cfg, s, ticks[..i])
  {
    if i == |ticks| {
      assert ticks[..i] == ticks;
    } else {
      var n := |ticks| - 1;
      assert ticks[..n][..i] == ticks[..i];
      if i < n {
        StoppedLoopStays(order, cfg, s, ticks[..n], i);
      } else {
        assert ticks[..n] == ticks[..i];
      }
    }
  }
}
