/**
 * At-least-once delivery over whole histories: any number of runs of the process, each
 * crashing, stopping or failing anywhere, with the replication slot in between.
 */
module History {
  import opened Wrappers
  import opened Events
  import opened Decoder
  import opened Filters
  import opened StreamLoop
  import opened AckSafety

  /** A committed transaction as the server knows it. */
  datatype Txn = Txn(xid: nat, commitTime: int, commitLsn: Lsn, rows: seq<XLogData>)

  /** The schema the server decodes a row with. */
  type Catalog = (nat, Lsn) -> Relation

  /** `msgs[a..b]` is the transaction, whole. Relation and other messages may stand between its rows. */
  ghost predicate TxnAt(msgs: seq<XLogData>, a: int, b: int, t: Txn)
  {
    && 0 <= a < b < |msgs|
    && msgs[a].msg == Begin(t.xid, t.commitTime)
    && msgs[b].msg == Commit(t.commitLsn)
    && (forall i :: a < i < b ==> !msgs[i].msg.Begin? && !msgs[i].msg.Commit?)
    && (forall r :: r in t.rows ==> IsRow(r.msg) && exists k :: a < k < b && msgs[k] == r)
  }

  /** What the slot sends from a confirmed position: every transaction not below it, whole and in any order,
      and before each row the Relation message it is to be read with. */
  ghost predicate Serves(msgs: seq<XLogData>, txns: set<Txn>, confirmed: Lsn, catalog: Catalog)
  {
    && (forall t :: t in txns && t.commitLsn >= confirmed ==> exists a, b :: TxnAt(msgs, a, b, t))
    && (forall k :: 0 <= k < |msgs| && IsRow(msgs[k].msg) ==>
          LatestRelation(msgs[..k], msgs[k].msg.relId) == Some(catalog(msgs[k].msg.relId, msgs[k].start)))
  }

  /** The event that row `r` of `t` owes the sink, read with the server's own schema and transaction. */
  ghost function TxnEvent(cfg: Config, catalog: Catalog, t: Txn, r: XLogData): Option<Event>
  {
    if !IsRow(r.msg) then None else
    var rel := catalog(r.msg.relId, r.start);
    if !RowFits(r.msg, rel) then None else
    var e := RowEvent(cfg.codec, t.xid, t.commitTime, rel, r);
    if Match(cfg.filter, e) then Some(e) else None
  }

  /** One life of the process: what the slot would send, what the loop met, and the confirmed position afterwards. */
  datatype Epoch = Epoch(msgs: seq<XLogData>, now: nat, ticks: seq<Tick>, confirmed: Lsn)

  ghost function EpochRun(order: Order, cfg: Config, e: Epoch): Loop
  {
    Run(order, cfg, e.now, e.ticks)
  }

  /** The loop received a beginning of what was sent, and the slot either kept its position or took that of an ack. */
  ghost predicate ValidEpoch(order: Order, cfg: Config, catalog: Catalog, txns: set<Txn>, before: Lsn, e: Epoch)
  {
    && Serves(e.msgs, txns, before, catalog)
    && EpochRun(order, cfg, e).log <= e.msgs
    && (e.confirmed == before || exists a :: a in EpochRun(order, cfg, e).acks && a.position == e.confirmed)
  }

  ghost function Confirmed(start: Lsn, epochs: seq<Epoch>): Lsn
  {
    if epochs == [] then start else epochs[|epochs| - 1].confirmed
  }

  ghost predicate ValidHistory(order: Order, cfg: Config, catalog: Catalog, txns: set<Txn>, start: Lsn,
                               epochs: seq<Epoch>)
  {
    forall n :: 0 <= n < |epochs| ==> ValidEpoch(order, cfg, catalog, txns, Confirmed(start, epochs[..n]), epochs[n])
  }

  ghost predicate SafeHistory(order: Order, cfg: Config, epochs: seq<Epoch>)
  {
    forall n :: 0 <= n < |epochs| ==> Safe(order, cfg, epochs[n].msgs)
  }

  ghost function Delivered(order: Order, cfg: Config, epochs: seq<Epoch>): seq<Event>
  {
    if epochs == [] then [] else
    var n := |epochs| - 1;
    Delivered(order, cfg, epochs[..n]) + EpochRun(order, cfg, epochs[n]).delivered
  }

  /** The decoder's view of a row equals the server's. */
  lemma RowReadAsServed(cfg: Config, catalog: Catalog, txns: set<Txn>, before: Lsn, msgs: seq<XLogData>,
                        t: Txn, a: int, b: int, k: int)
    requires Serves(msgs, txns, before, catalog) && TxnAt(msgs, a, b, t) && a < k < b && IsRow(msgs[k].msg)
    ensures Owed(cfg, msgs[..k], msgs[k]) == TxnEvent(cfg, catalog, t, msgs[k])
    ensures Closes(msgs, k, b)
  {
    OpenTransactionInside(msgs, a, k);
  }

  /** Where the slot sends a pending row, and what it owes there. */
  lemma PendingRow(cfg: Config, catalog: Catalog, txns: set<Txn>, before: Lsn, msgs: seq<XLogData>, t: Txn, r: XLogData)
    returns (k: nat, b: nat)
    requires Serves(msgs, txns, before, catalog)
    requires t in txns && r in t.rows && before <= t.commitLsn
    ensures Closes(msgs, k, b) && msgs[b].msg.commitLsn == t.commitLsn
    ensures Owed(cfg, msgs[..k], msgs[k]) == TxnEvent(cfg, catalog, t, r)
  {
    var a: int, b': int :| TxnAt(msgs, a, b', t);
    var k': int :| a < k' < b' && msgs[k'] == r;
    RowReadAsServed(cfg, catalog, txns, before, msgs, t, a, b', k');
    k, b := k', b';
  }

  /** A run processed everything an ack of it accounts for, so what was owed there was delivered. */
  lemma ProcessedIsDelivered(order: Order, cfg: Config, now: nat, ticks: seq<Tick>, msgs: seq<XLogData>, a: Ack, k: nat)
    requires var s := Run(order, cfg, now, ticks); s.log <= msgs && a in s.acks && k < a.processed
    requires Matched(cfg, msgs, k)
    ensures Owed(cfg, msgs[..k], msgs[k]).value in Run(order, cfg, now, ticks).delivered
  {
    var s := Run(order, cfg, now, ticks);
    RunKeepsInv(order, cfg, now, ticks);
    assert AckTruthful(order, s, a);
    var done := s.log[..s.processed];
    assert done[..k] == msgs[..k] && done[k] == msgs[k];
    OwedIsOwed(cfg, done, k);
  }

  /** One epoch: a transaction it sends and an ack passes has all its matching events delivered. */
  lemma EpochDelivers(order: Order, cfg: Config, catalog: Catalog, txns: set<Txn>, before: Lsn, e: Epoch,
                      t: Txn, r: XLogData, ev: Event)
    requires ValidEpoch(order, cfg, catalog, txns, before, e) && Safe(order, cfg, e.msgs)
    requires t in txns && r in t.rows && TxnEvent(cfg, catalog, t, r) == Some(ev)
    requires before <= t.commitLsn < e.confirmed
    ensures ev in EpochRun(order, cfg, e).delivered
  {
    var k, b := PendingRow(cfg, catalog, txns, before, e.msgs, t, r);
    var ack :| ack in EpochRun(order, cfg, e).acks && ack.position == e.confirmed;
    SafeRun(order, cfg, e.msgs, e.now, e.ticks);
    assert Matched(cfg, e.msgs, k);
    ProcessedIsDelivered(order, cfg, e.now, e.ticks, e.msgs, ack, k);
  }

  /** At-least-once, over every history of runs, crashes and replays, in either order: once the confirmed
      position passes a transaction, each of its matching events has been accepted by the handler. */
  lemma {:induction false} AtLeastOnce(order: Order, cfg: Config, catalog: Catalog, txns: set<Txn>, start: Lsn,
                                       epochs: seq<Epoch>, t: Txn, r: XLogData, ev: Event)
    requires ValidHistory(order, cfg, catalog, txns, start, epochs) && SafeHistory(order, cfg, epochs)
    requires t in txns && r in t.rows && TxnEvent(cfg, catalog, t, r) == Some(ev)
    requires start <= t.commitLsn < Confirmed(start, epochs)
    ensures ev in Delivered(order, cfg, epochs)
  {
    var n := |epochs| - 1;
    assert epochs != [];
    var before := Confirmed(start, epochs[..n]);
    if before <= t.commitLsn {
      EpochDelivers(order, cfg, catalog, txns, before, epochs[n], t, r, ev);
    } else {
      assert forall i :: 0 <= i < n ==> epochs[..n][..i] == epochs[..i];
      AtLeastOnce(order, cfg, catalog, txns, start, epochs[..n], t, r, ev);
    }
  }

  // -------------------------------------------------- exactly when nothing is lost

  /** Every row that a commit of the stream closes belongs to a transaction the slot still owes. */
  ghost predicate OnlyOwed(msgs: seq<XLogData>, txns: set<Txn>, confirmed: Lsn)
  {
    forall k, j :: Closes(msgs, k, j) && IsRow(msgs[k].msg) ==>
      exists a, t :: TxnAt(msgs, a, j, t) && a < k && t in txns && msgs[k] in t.rows && confirmed <= t.commitLsn
  }

  /** No two messages of the stream owe the same event. */
  ghost predicate DistinctEvents(cfg: Config, msgs: seq<XLogData>)
  {
    forall i, k :: Matched(cfg, msgs, i) && Matched(cfg, msgs, k) && i != k
      ==> Owed(cfg, msgs[..i], msgs[i]) != Owed(cfg, msgs[..k], msgs[k])
  }

  /** One life of the process after which the slot no longer owes a matching event that was not delivered. */
  ghost predicate LosesEvent(order: Order, cfg: Config, catalog: Catalog, txns: set<Txn>, before: Lsn, e: Epoch,
                             t: Txn, r: XLogData)
  {
    && ValidEpoch(order, cfg, catalog, txns, before, e)
    && t in txns && r in t.rows && before <= t.commitLsn < e.confirmed
    && TxnEvent(cfg, catalog, t, r).Some?
    && TxnEvent(cfg, catalog, t, r).value !in EpochRun(order, cfg, e).delivered
  }

  lemma {:induction false} OwedSomewhere(cfg: Config, log: seq<XLogData>, ev: Event) returns (i: nat)
    requires ev in OwedEvents(cfg, log)
    ensures i < |log| && Owed(cfg, log[..i], log[i]) == Some(ev)
  {
    var n := |log| - 1;
    if Owed(cfg, log[..n], log[n]) == Some(ev) {
      i := n;
    } else {
      i := OwedSomewhere(cfg, log[..n], ev);
      assert log[..n][..i] == log[..i];
    }
  }

  /** Everything delivered is owed by some message processed. */
  lemma DeliveredWasOwed(order: Order, cfg: Config, now: nat, ticks: seq<Tick>, msgs: seq<XLogData>, ev: Event)
    returns (i: nat)
    requires Run(order, cfg, now, ticks).log <= msgs && ev in Run(order, cfg, now, ticks).delivered
    ensures i < Run(order, cfg, now, ticks).processed && i < |msgs| && Owed(cfg, msgs[..i], msgs[i]) == Some(ev)
  {
    var s := Run(order, cfg, now, ticks);
    DeliveredIsOwed(order, cfg, now, ticks);
    var done := s.log[..s.processed];
    i := OwedSomewhere(cfg, done, ev);
    assert done[..i] == msgs[..i] && done[i] == msgs[i];
  }

  /** A run that did not process a message delivered nothing like what that message owes. */
  lemma UnprocessedIsUndelivered(order: Order, cfg: Config, now: nat, ticks: seq<Tick>, msgs: seq<XLogData>, k: nat)
    requires DistinctEvents(cfg, msgs) && Matched(cfg, msgs, k)
    requires Run(order, cfg, now, ticks).log <= msgs && Run(order, cfg, now, ticks).processed <= k
    ensures Owed(cfg, msgs[..k], msgs[k]).value !in Run(order, cfg, now, ticks).delivered
  {
    var ev := Owed(cfg, msgs[..k], msgs[k]).value;
    if ev in Run(order, cfg, now, ticks).delivered {
      var i := DeliveredWasOwed(order, cfg, now, ticks, msgs, ev);
    }
  }

  /** An ack past the commit of an unprocessed row loses that row's event. */
  lemma BadAckLoses(order: Order, cfg: Config, catalog: Catalog, txns: set<Txn>, before: Lsn, e: Epoch, ack: Ack,
                    t: Txn, a: int, k: int, j: int)
    requires Serves(e.msgs, txns, before, catalog) && DistinctEvents(cfg, e.msgs)
    requires TxnAt(e.msgs, a, j, t) && a < k < j && t in txns && e.msgs[k] in t.rows && before <= t.commitLsn
    requires Matched(cfg, e.msgs, k)
    requires var s := EpochRun(order, cfg, e);
             && s.log <= e.msgs && s.processed <= k
             && ack in s.acks && e.msgs[j].msg.commitLsn < ack.position == e.confirmed
    ensures LosesEvent(order, cfg, catalog, txns, before, e, t, e.msgs[k])
  {
    RowReadAsServed(cfg, catalog, txns, before, e.msgs, t, a, j, k);
    UnprocessedIsUndelivered(order, cfg, e.now, e.ticks, e.msgs, k);
  }

  lemma OwnerOf(msgs: seq<XLogData>, txns: set<Txn>, before: Lsn, k: int, j: int) returns (a: int, t: Txn)
    requires OnlyOwed(msgs, txns, before) && Closes(msgs, k, j) && IsRow(msgs[k].msg)
    ensures TxnAt(msgs, a, j, t) && a < k && t in txns && msgs[k] in t.rows && before <= t.commitLsn
  {
    a, t :| TxnAt(msgs, a, j, t) && a < k && t in txns && msgs[k] in t.rows && before <= t.commitLsn;
  }

  lemma UnsafeLoses(order: Order, cfg: Config, catalog: Catalog, txns: set<Txn>, before: Lsn, msgs: seq<XLogData>)
    returns (e: Epoch, t: Txn, r: XLogData)
    requires Serves(msgs, txns, before, catalog) && OnlyOwed(msgs, txns, before)
    requires AllDecodable(msgs) && DistinctEvents(cfg, msgs) && !Safe(order, cfg, msgs)
    ensures e.msgs == msgs && LosesEvent(order, cfg, catalog, txns, before, e, t, r)
  {
    var k, j, ticks, ack := UnsafeAck(order, cfg, msgs);
    var a, owner := OwnerOf(msgs, txns, before, k, j);
    e, t, r := Epoch(msgs, 0, ticks, ack.position), owner, msgs[k];
    BadAckLoses(order, cfg, catalog, txns, before, e, ack, t, a, k, j);
  }

  /** `Safe` is exact for whole lives of the process: whatever the network, the handler and the crashes do, no matching
      event of the stream is lost, if and only if the stream is safe for the order. */
  lemma SafeIffNothingLost(order: Order, cfg: Config, catalog: Catalog, txns: set<Txn>, before: Lsn,
                           msgs: seq<XLogData>)
    requires Serves(msgs, txns, before, catalog) && OnlyOwed(msgs, txns, before)
    requires AllDecodable(msgs) && DistinctEvents(cfg, msgs)
    ensures Safe(order, cfg, msgs) <==>
            forall e: Epoch, t, r :: e.msgs == msgs ==> !LosesEvent(order, cfg, catalog, txns, before, e, t, r)
  {
    if Safe(order, cfg, msgs) {
      forall e: Epoch, t, r | e.msgs == msgs && LosesEvent(order, cfg, catalog, txns, before, e, t, r)
        ensures false
      {
        EpochDelivers(order, cfg, catalog, txns, before, e, t, r, TxnEvent(cfg, catalog, t, r).value);
      }
    } else {
      var e, t, r := UnsafeLoses(order, cfg, catalog, txns, before, msgs);
    }
  }

  // ------------------------------------------------------------ the lost event

  /** "2024-01-01 00:00:00.123456+00", and four such columns: their text is longer than the WAL the row takes. */
  const TIMESTAMP: Bytes := [50, 48, 50, 52, 45, 48, 49, 45, 48, 49, 32,
                             48, 48, 58, 48, 48, 58, 48, 48, 46, 49, 50, 51, 52, 53, 54, 43, 48, 48]
  const STAMP := Column('t', TIMESTAMP)
  const TIMESTAMPTZ: nat := 1184
  const LOST_RELATION := Relation(7, "public", "users",
    [ColumnDef("a", TIMESTAMPTZ), ColumnDef("b", TIMESTAMPTZ),
     ColumnDef("c", TIMESTAMPTZ), ColumnDef("d", TIMESTAMPTZ)])
  const LOST_ROW := XLogData(100, 144, Insert(7, Some([STAMP, STAMP, STAMP, STAMP])))
  const LOST_TXN := Txn(9, 0, 220, [LOST_ROW])
  const LOST_MSGS := [XLogData(90, 21, Begin(9, 0)), XLogData(0, 65, RelationMsg(LOST_RELATION)), LOST_ROW,
                      XLogData(260, 26, Commit(220))]

  function LostCatalog(id: nat, lsn: Lsn): Relation { LOST_RELATION }

  ghost function LostTick(x: XLogData, ok: bool): Tick { Tick(false, 0, true, 0, XLog(x, ok)) }

  ghost function LostTicks(): seq<Tick>
  {
    [LostTick(LOST_MSGS[0], true), LostTick(LOST_MSGS[1], true), LostTick(LOST_MSGS[2], false)]
  }

  lemma LostRun(order: Order, cfg: Config)
    requires cfg.filter == Filter({}, {})
    ensures var s := Run(order, cfg, 0, LostTicks());
            && s.log == LOST_MSGS[..3] && s.delivered == [] && s.exit == ProcessFailed(HandlerError)
            && s.acks == [Ack(Final, if order.AsWritten? then 245 else 66, 2)]
  {
    var t := LostTicks();
    var s0 := Start(FRESH, 0);
    var s1 := Step(order, cfg, s0, t[0]);
    var s2 := Step(order, cfg, s1, t[1]);
    var s3 := Step(order, cfg, s2, t[2]);
    assert t[..2][..1] == [t[0]] && [t[0]][..0] == [] && t[..2] == [t[0], t[1]] && t[..2][..1] == [t[0]];
    assert Steps(order, cfg, s0, [t[0]]) == s1;
    assert Steps(order, cfg, s0, t[..2]) == s2;
    assert Steps(order, cfg, s0, t) == s3;
    assert s2.decoder.relations[7] == LOST_RELATION;
    assert s3.log == LOST_MSGS[..3];
  }

  lemma LostServed(cfg: Config, confirmed: Lsn)
    requires cfg.filter == Filter({}, {}) && confirmed <= 220
    ensures Serves(LOST_MSGS, {LOST_TXN}, confirmed, LostCatalog)
    ensures TxnEvent(cfg, LostCatalog, LOST_TXN, LOST_ROW).Some?
    ensures Safe(Contract, cfg, LOST_MSGS) && !Safe(AsWritten, cfg, LOST_MSGS)
  {
    var m := LOST_MSGS;
    assert m[2] == LOST_ROW;
    assert TxnAt(m, 0, 3, LOST_TXN);
    assert m[..2][..1] == m[..1] && m[..2][1] == m[1];
    assert LatestRelation(m[..2], 7) == Some(LOST_RELATION);
    assert forall k, j :: Closes(m, k, j) ==> j == 3;
    assert forall k :: Matched(cfg, m, k) ==> k == 2;
    assert LastEnd(m[..0]) == 0 && LastEnd(m[..1]) == 111 && LastEnd(m[..2]) == 65 && LastEnd(m[..3]) == 244;
    assert Closes(m, 2, 3) && Matched(cfg, m, 2) by {
      assert Owed(cfg, m[..2], m[2]).Some?;
    }
  }

  /** The source's order asks strictly more of a stream than the contract's. */
  lemma ContractAsksLess(cfg: Config)
    ensures forall msgs :: Safe(AsWritten, cfg, msgs) ==> Safe(Contract, cfg, msgs)
    ensures cfg.filter == Filter({}, {}) ==> exists msgs :: Safe(Contract, cfg, msgs) && !Safe(AsWritten, cfg, msgs)
  {
    if cfg.filter == Filter({}, {}) {
      LostServed(cfg, 0);
    }
  }

  /** That run as a whole history of the slot, when its ack arrives. */
  lemma LostHistory(order: Order, cfg: Config, confirmed: Lsn)
    requires cfg.filter == Filter({}, {}) && confirmed == if order.AsWritten? then 245 else 66
    ensures var e := Epoch(LOST_MSGS, 0, LostTicks(), confirmed);
            && ValidHistory(order, cfg, LostCatalog, {LOST_TXN}, 1, [e])
            && Confirmed(1, [e]) == confirmed
            && Delivered(order, cfg, [e]) == []
  {
    LostRun(order, cfg);
    LostServed(cfg, 1);
    var e := Epoch(LOST_MSGS, 0, LostTicks(), confirmed);
    assert EpochRun(order, cfg, e).acks[0].position == confirmed;
    assert [e][..0] == [] && [e][0] == e;
  }

  /** The source's order loses this event for good: the handler refuses it, the exit ack passes its
      commit, and from then on the slot owes nothing. */
  lemma HandlerErrorLosesEvent(cfg: Config)
    requires cfg.filter == Filter({}, {})
    ensures var lost := Epoch(LOST_MSGS, 0, LostTicks(), 245);
            && ValidHistory(AsWritten, cfg, LostCatalog, {LOST_TXN}, 1, [lost])
            && 1 <= LOST_TXN.commitLsn < Confirmed(1, [lost])
            && TxnEvent(cfg, LostCatalog, LOST_TXN, LOST_ROW).Some?
            && Delivered(AsWritten, cfg, [lost]) == []
            && Serves([], {LOST_TXN}, Confirmed(1, [lost]), LostCatalog)
  {
    LostHistory(AsWritten, cfg, 245);
    LostServed(cfg, 1);
  }

  /** The same stream and the same ticks in the contract's order: the transaction stays owed. */
  lemma ContractKeepsEvent(cfg: Config)
    requires cfg.filter == Filter({}, {})
    ensures var kept := Epoch(LOST_MSGS, 0, LostTicks(), 66);
            && ValidHistory(Contract, cfg, LostCatalog, {LOST_TXN}, 1, [kept])
            && SafeHistory(Contract, cfg, [kept])
            && LOST_TXN.commitLsn >= Confirmed(1, [kept])
  {
    LostHistory(Contract, cfg, 66);
    LostServed(cfg, 1);
  }
}
