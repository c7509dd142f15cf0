/** The change events of `internal/cdc/event.go`. */
module Events {
  import opened Wrappers

  type Lsn = nat
  type Bytes = seq<int>

  /** What a decoded column holds in the event's `map[string]any`. */
  datatype Value =
    | Null
    | Decoded(repr: string)
    | RawText(data: Bytes)
    | BinaryNote(size: nat)

  type Row = map<string, Value>

  datatype Event = Event(
    action: string, schema: string, table: string,
    newRow: Option<Row>, oldRow: Option<Row>,
    timestamp: int, lsn: Lsn, xid: nat)
}

/**
 * `processMessage` and `decodeTuple` of `internal/cdc/stream.go`: a decoder that
 * carries a relation cache and the current transaction, and its specification
 * over the message history alone.
 */
module Decoder {
  import opened Wrappers
  import opened Events
  import opened Filters

  datatype ColumnDef = ColumnDef(name: string, oid: nat)
  datatype Relation = Relation(id: nat, schema: string, table: string, columns: seq<ColumnDef>)

  /** A pgoutput column: kind 'n', 'u', 't', 'b' or anything else. */
  datatype Column = Column(kind: char, data: Bytes)
  type Tuple = Option<seq<Column>>

  /** A parsed pgoutput message; `Malformed` is one that `pglogrepl.Parse` refuses. */
  datatype Message =
    | Begin(xid: nat, commitTime: int)
    | Commit(commitLsn: Lsn)
    | RelationMsg(rel: Relation)
    | Insert(relId: nat, newTuple: Tuple)
    | Update(relId: nat, oldTuple: Tuple, newTuple: Tuple)
    | Delete(relId: nat, oldTuple: Tuple)
    | Truncate(count: nat)
    | Unhandled
    | Malformed

  datatype XLogData = XLogData(start: Lsn, length: nat, msg: Message)

  /** pgx's column codecs, unknown here: each may fail on any input. */
  datatype Codec = Codec(text: (Bytes, nat) -> Option<string>, binary: (Bytes, nat) -> Option<string>)
  datatype Config = Config(codec: Codec, filter: Filter)

  const ZERO_TIME: int := 0

  datatype State = State(relations: map<nat, Relation>, xid: nat, commitTime: int)
  const FRESH := State(map[], 0, ZERO_TIME)

  datatype Verdict = Ok | ParseError | UnknownRelation | IndexPanic | HandlerError
  datatype Outcome = Outcome(state: State, handed: Option<Event>, verdict: Verdict)

  // ------------------------------------------------------------------ tuples

  /** The value a column puts in the map, or None when it leaves the map alone. */
  function ColumnValue(codec: Codec, col: Column, def: ColumnDef): Option<Value>
  {
    match col.kind
    case 'n' => Some(Null)
    case 't' => (match codec.text(col.data, def.oid)
                 case Some(v) => Some(Decoded(v))
                 case None => Some(RawText(col.data)))
    case 'b' => (match codec.binary(col.data, def.oid)
                 case Some(v) => Some(Decoded(v))
                 case None => Some(BinaryNote(|col.data|)))
    case _ => None
  }

  function TupleMap(codec: Codec, cols: seq<Column>, defs: seq<ColumnDef>): Row
    requires |cols| <= |defs|
  {
    if cols == [] then map[] else
    var n := |cols| - 1;
    var m := TupleMap(codec, cols[..n], defs);
    match ColumnValue(codec, cols[n], defs[n])
    case Some(v) => m[defs[n].name := v]
    case None => m
  }

  /** Column `i` of the tuple carries `v` under `name`: a null, a text or binary value as the codec reads it, or,
      where the codec fails, the raw text or a note of the size. Unchanged TOAST values and unknown kinds carry
      nothing. */
  ghost predicate Emits(codec: Codec, cols: seq<Column>, defs: seq<ColumnDef>, i: int, name: string, v: Value)
  {
    && 0 <= i < |cols| && i < |defs| && defs[i].name == name
    && var data, oid := cols[i].data, defs[i].oid;
       || (cols[i].kind == 'n' && v == Null)
       || (cols[i].kind == 't' && v == if codec.text(data, oid).Some? then Decoded(codec.text(data, oid).value)
                                      else RawText(data))
       || (cols[i].kind == 'b' && v == if codec.binary(data, oid).Some? then Decoded(codec.binary(data, oid).value)
                                      else BinaryNote(|data|))
  }

  /** `i` is the last column of that name that carries a value. */
  ghost predicate LastEmits(codec: Codec, cols: seq<Column>, defs: seq<ColumnDef>, i: int, name: string, v: Value)
  {
    && Emits(codec, cols, defs, i, name, v)
    && forall j, w :: i < j ==> !Emits(codec, cols, defs, j, name, w)
  }

  ghost predicate Holds(m: Row, name: string, v: Value) { name in m && m[name] == v }

  ghost predicate Carries(codec: Codec, cols: seq<Column>, defs: seq<ColumnDef>, name: string, v: Value)
  {
    exists i :: LastEmits(codec, cols, defs, i, name, v)
  }

  /** The map holds exactly the last value carried under each name: unchanged TOAST
      columns and unknown kinds contribute no key. */
  lemma {:induction false} TupleMapMeaning(codec: Codec, cols: seq<Column>, defs: seq<ColumnDef>,
                                           name: string, v: Value)
    requires |cols| <= |defs|
    ensures Holds(TupleMap(codec, cols, defs), name, v) <==> Carries(codec, cols, defs, name, v)
  {
    if cols != [] {
      var n := |cols| - 1;
      var pre := cols[..n];
      TupleMapMeaning(codec, pre, defs, name, v);
      assert forall i, w :: i < n ==> (Emits(codec, pre, defs, i, name, w) <==> Emits(codec, cols, defs, i, name, w));
      if defs[n].name == name && ColumnValue(codec, cols[n], defs[n]).Some? {
        var w := ColumnValue(codec, cols[n], defs[n]).value;
        assert LastEmits(codec, cols, defs, n, name, w);
      } else {
        assert forall i :: LastEmits(codec, pre, defs, i, name, v) <==> LastEmits(codec, cols, defs, i, name, v);
      }
    }
  }

  /** `decodeTuple`: the loop of the source; None is the nil map of a nil tuple. */
  method DecodeTuple(codec: Codec, tuple: Tuple, defs: seq<ColumnDef>) returns (r: Option<Row>)
    requires tuple.Some? ==> |tuple.value| <= |defs|
    ensures r == (if tuple.None? then None else Some(TupleMap(codec, tuple.value, defs)))
  {
    if tuple.None? {
      return None;
    }
    var values: Row := map[];
    var cols := tuple.value;
    for i := 0 to |cols|
      invariant values == TupleMap(codec, cols[..i], defs)
    {
      assert cols[..i + 1][..i] == cols[..i];
      var def := defs[i];
      match cols[i].kind
      case 'n' => values := values[def.name := Null];
      case 't' =>
        var v := codec.text(cols[i].data, def.oid);
        values := values[def.name := if v.Some? then Decoded(v.value) else RawText(cols[i].data)];
      case 'b' =>
        var v := codec.binary(cols[i].data, def.oid);
        values := values[def.name := if v.Some? then Decoded(v.value) else BinaryNote(|cols[i].data|)];
      case _ =>
    }
    assert cols[..|cols|] == cols;
    r := Some(values);
  }

  // ------------------------------------------------------------------ events

  predicate IsRow(m: Message)
  {
    m.Insert? || m.Update? || m.Delete?
  }

  predicate Fits(t: Tuple, rel: Relation)
  {
    t.Some? ==> |t.value| <= |rel.columns|
  }

  predicate RowFits(m: Message, rel: Relation)
    requires IsRow(m)
  {
    match m
    case Insert(_, n) => Fits(n, rel)
    case Update(_, o, n) => Fits(o, rel) && Fits(n, rel)
    case Delete(_, o) => Fits(o, rel)
  }

  function DecodedTuple(codec: Codec, t: Tuple, rel: Relation): Option<Row>
    requires Fits(t, rel)
  {
    if t.None? then None else Some(TupleMap(codec, t.value, rel.columns))
  }

  /** The event of a row, given its relation and its transaction. */
  function RowEvent(codec: Codec, xid: nat, time: int, rel: Relation, x: XLogData): Event
    requires IsRow(x.msg) && RowFits(x.msg, rel)
  {
    match x.msg
    case Insert(_, n) =>
      Event("INSERT", rel.schema, rel.table, DecodedTuple(codec, n, rel), None, time, x.start, xid)
    case Update(_, o, n) =>
      Event("UPDATE", rel.schema, rel.table, DecodedTuple(codec, n, rel), DecodedTuple(codec, o, rel),
            time, x.start, xid)
    case Delete(_, o) =>
      Event("DELETE", rel.schema, rel.table, None, DecodedTuple(codec, o, rel), time, x.start, xid)
  }

  /** `processMessage`: `handlerOk` is what the handler returns if it is called. */
  function Process(cfg: Config, st: State, x: XLogData, handlerOk: bool): Outcome
  {
    match x.msg
    case Malformed => Outcome(st, None, ParseError)
    case Begin(xid, time) => Outcome(st.(xid := xid, commitTime := time), None, Ok)
    case Commit(_) => Outcome(st.(xid := 0, commitTime := ZERO_TIME), None, Ok)
    case RelationMsg(rel) => Outcome(st.(relations := st.relations[rel.id := rel]), None, Ok)
    case Truncate(_) => Outcome(st, None, Ok)
    case Unhandled => Outcome(st, None, Ok)
    case _ =>
      if x.msg.relId !in st.relations then Outcome(st, None, UnknownRelation)
      else
        var rel := st.relations[x.msg.relId];
        if !RowFits(x.msg, rel) then Outcome(st, None, IndexPanic)
        else
          var e := RowEvent(cfg.codec, st.xid, st.commitTime, rel, x);
          if !Match(cfg.filter, e) then Outcome(st, None, Ok)
          else Outcome(st, Some(e), if handlerOk then Ok else HandlerError)
  }

  // ----------------------------------------------------- history specification

  /** The latest Relation message for `id` among the messages received so far. */
  ghost function LatestRelation(history: seq<XLogData>, id: nat): Option<Relation>
  {
    if history == [] then None else
    var n := |history| - 1;
    if history[n].msg.RelationMsg? && history[n].msg.rel.id == id then Some(history[n].msg.rel)
    else LatestRelation(history[..n], id)
  }

  /** Xid and commit time of the Begin still open at the end of the history. */
  ghost function OpenTransaction(history: seq<XLogData>): (nat, int)
  {
    if history == [] then (0, ZERO_TIME) else
    var n := |history| - 1;
    match history[n].msg
    case Begin(xid, time) => (xid, time)
    case Commit(_) => (0, ZERO_TIME)
    case _ => OpenTransaction(history[..n])
  }

  /** The event that message `x`, coming after `history`, owes the handler. */
  ghost function Owed(cfg: Config, history: seq<XLogData>, x: XLogData): Option<Event>
  {
    if !IsRow(x.msg) then None else
    match LatestRelation(history, x.msg.relId)
    case None => None
    case Some(rel) =>
      if !RowFits(x.msg, rel) then None else
      var (xid, time) := OpenTransaction(history);
      var e := RowEvent(cfg.codec, xid, time, rel, x);
      if Match(cfg.filter, e) then Some(e) else None
  }

  ghost function OwedEvents(cfg: Config, log: seq<XLogData>): seq<Event>
  {
    if log == [] then [] else
    var n := |log| - 1;
    var init := OwedEvents(cfg, log[..n]);
    match Owed(cfg, log[..n], log[n])
    case Some(e) => init + [e]
    case None => init
  }

  ghost predicate Tracks(st: State, history: seq<XLogData>)
  {
    && (forall id :: id in st.relations <==> LatestRelation(history, id).Some?)
    && (forall id :: id in st.relations ==> LatestRelation(history, id) == Some(st.relations[id]))
    && (st.xid, st.commitTime) == OpenTransaction(history)
  }

  /** The message can be decoded after `history`, whatever the handler answers. */
  ghost predicate Decodable(history: seq<XLogData>, x: XLogData)
  {
    && !x.msg.Malformed?
    && (IsRow(x.msg) ==>
          match LatestRelation(history, x.msg.relId)
          case None => false
          case Some(rel) => RowFits(x.msg, rel))
  }

  /** One step of the decoder refines the history specification: it hands over exactly the
      owed event, succeeds exactly when the message is decodable and the handler
      accepts what it is owed, and keeps tracking the history. */
  lemma ProcessRefines(cfg: Config, st: State, history: seq<XLogData>, x: XLogData, handlerOk: bool)
    requires Tracks(st, history)
    ensures var o := Process(cfg, st, x, handlerOk);
            && o.handed == Owed(cfg, history, x)
            && (o.verdict.Ok? <==> Decodable(history, x) && (handlerOk || Owed(cfg, history, x).None?))
            && (o.verdict.HandlerError? <==> Decodable(history, x) && !handlerOk && Owed(cfg, history, x).Some?)
            && (o.verdict.Ok? ==> Tracks(o.state, history + [x]))
            && (!o.verdict.Ok? ==> o.state == st)
  {
    assert (history + [x])[..|history|] == history;
    assert forall id :: LatestRelation(history + [x], id) ==
                        if x.msg.RelationMsg? && x.msg.rel.id == id then Some(x.msg.rel)
                        else LatestRelation(history, id);
  }

  function NewTuple(m: Message): Tuple
    requires IsRow(m)
  {
    if m.Delete? then None else m.newTuple
  }

  function OldTuple(m: Message): Tuple
    requires IsRow(m)
  {
    if m.Insert? then None else m.oldTuple
  }

  /** The row is absent exactly when the tuple is, and holds under each name the last value the tuple carries for it. */
  ghost predicate RowHolds(codec: Codec, tuple: Tuple, defs: seq<ColumnDef>, row: Option<Row>)
  {
    && (row.None? <==> tuple.None?)
    && (row.Some? ==>
          forall name, v :: Holds(row.value, name, v) <==> Carries(codec, tuple.value, defs, name, v))
  }

  /** What the event of row message `x` after `history` must look like, field by field. */
  ghost predicate EventOf(codec: Codec, history: seq<XLogData>, x: XLogData, e: Event)
  {
    && IsRow(x.msg)
    && LatestRelation(history, x.msg.relId).Some?
    && var rel := LatestRelation(history, x.msg.relId).value;
       && e.action == (if x.msg.Insert? then "INSERT" else if x.msg.Update? then "UPDATE" else "DELETE")
       && e.schema == rel.schema && e.table == rel.table
       && e.lsn == x.start && (e.xid, e.timestamp) == OpenTransaction(history)
       && RowHolds(codec, NewTuple(x.msg), rel.columns, e.newRow)
       && RowHolds(codec, OldTuple(x.msg), rel.columns, e.oldRow)
  }

  lemma TupleHolds(codec: Codec, t: Tuple, rel: Relation)
    requires Fits(t, rel)
    ensures RowHolds(codec, t, rel.columns, DecodedTuple(codec, t, rel))
  {
    if t.Some? {
      forall name, v
        ensures Holds(TupleMap(codec, t.value, rel.columns), name, v) <==> Carries(codec, t.value, rel.columns, name, v)
      {
        TupleMapMeaning(codec, t.value, rel.columns, name, v);
      }
    }
  }

  /** An owed event is the event of its message, and a decodable row owes none exactly when the filter does not want
      it. */
  lemma OwedIsEvent(cfg: Config, history: seq<XLogData>, x: XLogData, e: Event)
    ensures Owed(cfg, history, x) == Some(e) ==> Decodable(history, x) && EventOf(cfg.codec, history, x, e)
    ensures Decodable(history, x) && EventOf(cfg.codec, history, x, e) ==>
              (Owed(cfg, history, x).Some? <==> Match(cfg.filter, e))
  {
    if IsRow(x.msg) && LatestRelation(history, x.msg.relId).Some? {
      var rel := LatestRelation(history, x.msg.relId).value;
      if RowFits(x.msg, rel) {
        TupleHolds(cfg.codec, NewTuple(x.msg), rel);
        TupleHolds(cfg.codec, OldTuple(x.msg), rel);
      }
    }
  }

  lemma OwedEventsSnoc(cfg: Config, log: seq<XLogData>, x: XLogData)
    ensures OwedEvents(cfg, log + [x]) ==
            OwedEvents(cfg, log) + (match Owed(cfg, log, x) case Some(e) => [e] case None => [])
  {
    assert (log + [x])[..|log|] == log;
  }

  /** Every event owed somewhere in the log is among the owed events. */
  lemma {:induction false} OwedIsOwed(cfg: Config, log: seq<XLogData>, k: nat)
    requires k < |log| && Owed(cfg, log[..k], log[k]).Some?
    ensures Owed(cfg, log[..k], log[k]).value in OwedEvents(cfg, log)
  {
    var n := |log| - 1;
    if k < n {
      assert log[..n][..k] == log[..k];
      OwedIsOwed(cfg, log[..n], k);
    }
  }

  /** Inside an open transaction every message sees the xid and time of its Begin. */
  lemma {:induction false} OpenTransactionInside(log: seq<XLogData>, a: nat, k: nat)
    requires a < k <= |log| && log[a].msg.Begin?
    requires forall i :: a < i < k ==> !log[i].msg.Begin? && !log[i].msg.Commit?
    ensures OpenTransaction(log[..k]) == (log[a].msg.xid, log[a].msg.commitTime)
  {
    assert log[..k][..k - 1] == log[..k - 1];
    if a < k - 1 {
      OpenTransactionInside(log, a, k - 1);
    }
  }
}
