/**
 * The query loop of `handleClient` and `executeAndRelay` in `internal/proxy/proxy.go`:
 * routing, transaction pinning, the ReadyForQuery status and the order of the response
 * messages (PostgreSQL 16 documentation, section 55.2.2).
 */
module Session {
  import opened Seqs
  import opened Wrappers
  import opened Wire
  import opened Classifier
  import Encoders

  datatype Pool = Primary | Replica

  /** What the chosen backend does with a statement: refuse it outright, or answer with a description, rows,
      possibly an error found while reading them, and a command tag. */
  datatype Backend =
    | Rejected(error: Bytes)
    | Answered(fields: seq<Field>, rows: seq<seq<Option<Bytes>>>, failure: Option<Bytes>, tag: Bytes)

  datatype Out =
    | Description(fields: seq<Field>)
    | Row(values: seq<Option<Bytes>>)
    | Complete(tag: Bytes)
    | Error(text: Bytes)
    | Ready(status: byte)

  const IDLE: byte := 73
  const IN_TRANSACTION: byte := 84
  const FAILED: byte := 69

  const DEFAULT_TAG: Bytes := AsBytes("SELECT 0")
  const UNSUPPORTED: Bytes := AsBytes("only simple query protocol " + "is supported by the proxy")

  datatype State = State(inTransaction: bool, txFailed: bool)
  const START := State(false, false)

  datatype Turn = Turn(after: State, pool: Option<Pool>, reply: seq<Out>)

  function AsText(b: Bytes): string
  {
    seq(|b|, i requires 0 <= i < |b| => b[i] as char)
  }

  // -------------------------------------------------------------- one request

  function RowOuts(rows: seq<seq<Option<Bytes>>>): seq<Out>
  {
    seq(|rows|, i requires 0 <= i < |rows| => Row(rows[i]))
  }

  /** `executeAndRelay`: what is written, and the error returned. An error that only shows while reading
      is looked at when there are columns, and not otherwise. */
  function Relay(b: Backend, ready: byte): (seq<Out>, Option<Bytes>)
  {
    match b
    case Rejected(e) => ([], Some(e))
    case Answered(fields, rows, failure, tag) =>
      var described := if fields == [] then [] else [Description(fields)] + RowOuts(rows);
      if fields != [] && failure.Some? then (described, failure)
      else (described + [Complete(if tag == [] then DEFAULT_TAG else tag), Ready(ready)], None)
  }

  const BEGIN_SPELLINGS: set<string> := {"BEGIN", "START", "begin", "start"}

  /** The transaction flag after a statement; the failure flag is cleared with it. */
  function Pin(pinned: bool, sql: string): bool
  {
    if ClassifyQuery(sql).Transaction? then FirstToken(sql) in BEGIN_SPELLINGS else pinned
  }

  function Route(pinned: bool, sql: string): Pool
  {
    if ClassifyQuery(sql).Transaction? || pinned then Primary
    else if ClassifyQuery(sql).Read? then Replica
    else Primary
  }

  function QueryTurn(st: State, sql: string, b: Backend): Turn
  {
    var pinned := Pin(st.inTransaction, sql);
    var failed := if ClassifyQuery(sql).Transaction? then false else st.txFailed;
    var ready := if pinned then IN_TRANSACTION else IDLE;
    var (outs, err) := Relay(b, ready);
    match err
    case None => Turn(State(pinned, failed), Some(Route(st.inTransaction, sql)), outs)
    case Some(e) =>
      var failed' := failed || pinned;
      Turn(State(pinned, failed'), Some(Route(st.inTransaction, sql)),
           outs + [Error(e), Ready(if failed' then FAILED else ready)])
  }

  /** Any message that is neither a Query nor a Terminate. */
  function OtherTurn(st: State): Turn
  {
    Turn(st, None, [Error(UNSUPPORTED), Ready(IDLE)])
  }

  function MessageTurn(st: State, msg: Bytes, b: Backend): Turn
    requires |msg| > 0
  {
    if msg[0] == T_QUERY then QueryTurn(st, AsText(ExtractSQL(msg)), b) else OtherTurn(st)
  }

  // -------------------------------------------------------------- the session

  function EncodeOut(o: Out): Bytes
  {
    match o
    case Description(fields) => RowDescription(fields)
    case Row(values) => DataRow(values)
    case Complete(tag) => CommandComplete(tag)
    case Error(text) => ErrorResponse(text)
    case Ready(status) => ReadyForQuery(status)
  }

  function Frames(outs: seq<Out>): seq<Bytes>
  {
    seq(|outs|, i requires 0 <= i < |outs| => EncodeOut(outs[i]))
  }

  function EncodeAll(outs: seq<Out>): Bytes { Concat(Frames(outs)) }

  /** The turns of a session, message by message, until a Terminate; `backend(i)` answers the i-th. */
  function Turns(msgs: seq<Bytes>, backend: nat -> Backend): (turns: seq<Turn>)
    requires forall m :: m in msgs ==> |m| > 0
    ensures |turns| <= |msgs|
  {
    if msgs == [] then []
    else
      var n := |msgs| - 1;
      var before := Turns(msgs[..n], backend);
      if |before| < n || msgs[n][0] == T_TERMINATE then before
      else before + [MessageTurn(Final(before), msgs[n], backend(n))]
  }

  function Final(turns: seq<Turn>): State
  {
    if turns == [] then START else turns[|turns| - 1].after
  }

  /** Everything written after the handshake. */
  function Replies(turns: seq<Turn>): seq<Out>
  {
    if turns == [] then [] else Replies(turns[..|turns| - 1]) + turns[|turns| - 1].reply
  }

  lemma FramesAppend(a: seq<Out>, b: seq<Out>)
    ensures Frames(a + b) == Frames(a) + Frames(b)
  {
  }

  lemma EncodeAllAppend(a: seq<Out>, b: seq<Out>)
    ensures EncodeAll(a + b) == EncodeAll(a) + EncodeAll(b)
  {
    FramesAppend(a, b);
    ConcatAppend(Frames(a), Frames(b));
  }

  lemma EncodeOne(o: Out)
    ensures EncodeAll([o]) == EncodeOut(o)
  {
    var frames := Frames([o]);
    assert frames == [EncodeOut(o)] && frames[1..] == [];
    assert Concat(frames) == frames[0] + Concat(frames[1..]);
    assert EncodeOut(o) + [] == EncodeOut(o);
  }

  lemma EncodeSnoc(outs: seq<Out>, i: nat)
    requires i < |outs|
    ensures EncodeAll(outs[..i + 1]) == EncodeAll(outs[..i]) + EncodeOut(outs[i])
  {
    assert Frames(outs[..i + 1]) == Frames(outs[..i]) + [EncodeOut(outs[i])];
    ConcatAppend(Frames(outs[..i]), [EncodeOut(outs[i])]);
    assert [EncodeOut(outs[i])][1..] == [];
  }

  /** One client connection: the flags the loop updates, and the wire. */
  class ClientSession {
    var inTransaction: bool
    var txFailed: bool
    const conn: Encoders.Conn

    function Flags(): State
      reads this
    {
      State(inTransaction, txFailed)
    }

    constructor (conn: Encoders.Conn)
      ensures this.conn == conn && Flags() == START
    {
      this.conn := conn;
      inTransaction, txFailed := false, false;
    }

    method SendOut(o: Out)
      modifies conn`written
      ensures conn.written == old(conn.written) + EncodeOut(o)
    {
      match o
      case Description(fields) => Encoders.SendRowDescription(conn, fields);
      case Row(values) => Encoders.SendDataRow(conn, values);
      case Complete(tag) => Encoders.SendCommandComplete(conn, tag);
      case Error(text) => Encoders.SendError(conn, text);
      case Ready(status) => Encoders.SendReadyForQuery(conn, status);
    }

    /** Send in order; the written bytes grow by exactly the encoding. */
    method SendOuts(outs: seq<Out>)
      modifies conn`written
      ensures conn.written == old(conn.written) + EncodeAll(outs)
    {
      assert Frames(outs[..0]) == [];
      for i := 0 to |outs|
        invariant conn.written == old(conn.written) + EncodeAll(outs[..i])
      {
        EncodeSnoc(outs, i);
        SendOut(outs[i]);
        Assoc(old(conn.written), EncodeAll(outs[..i]), EncodeOut(outs[i]));
      }
      assert outs[..|outs|] == outs;
    }

    /** The row loop of `executeAndRelay`. */
    method SendRows(rows: seq<seq<Option<Bytes>>>)
      modifies conn`written
      ensures conn.written == old(conn.written) + EncodeAll(RowOuts(rows))
    {
      var outs := RowOuts(rows);
      assert Frames(outs[..0]) == [];
      for i := 0 to |rows|
        invariant conn.written == old(conn.written) + EncodeAll(outs[..i])
      {
        EncodeSnoc(outs, i);
        SendOut(Row(rows[i]));
        Assoc(old(conn.written), EncodeAll(outs[..i]), EncodeOut(outs[i]));
      }
      assert outs[..|rows|] == outs;
    }

    /** Description and rows, when there are columns. */
    method SendResult(fields: seq<Field>, rows: seq<seq<Option<Bytes>>>)
      modifies conn`written
      ensures conn.written == old(conn.written) + EncodeAll([Description(fields)] + RowOuts(rows))
    {
      SendOut(Description(fields));
      EncodeOne(Description(fields));
      SendRows(rows);
      EncodeAllAppend([Description(fields)], RowOuts(rows));
      Assoc(old(conn.written), EncodeOut(Description(fields)), EncodeAll(RowOuts(rows)));
    }

    /** `executeAndRelay`: description, rows, completion, readiness, in that order, stopping at an error. */
    method ExecuteAndRelay(b: Backend, ready: byte) returns (err: Option<Bytes>)
      modifies conn`written
      ensures err == Relay(b, ready).1
      ensures conn.written == old(conn.written) + EncodeAll(Relay(b, ready).0)
    {
      if b.Rejected? {
        return Some(b.error);
      }
      ghost var described := [];
      if |b.fields| > 0 {
        SendResult(b.fields, b.rows);
        described := [Description(b.fields)] + RowOuts(b.rows);
        if b.failure.Some? {
          return b.failure;
        }
      }
      var tag := if b.tag == [] then DEFAULT_TAG else b.tag;
      SendOuts([Complete(tag), Ready(ready)]);
      EncodeAllAppend(described, [Complete(tag), Ready(ready)]);
      Assoc(old(conn.written), EncodeAll(described), EncodeAll([Complete(tag), Ready(ready)]));
      assert described == [] ==> described + [Complete(tag), Ready(ready)] == [Complete(tag), Ready(ready)];
      err := None;
    }

    /** The Query branch of the loop, flag by flag. */
    method HandleQuery(sql: string, b: Backend) returns (pool: Pool)
      modifies this, conn`written
      ensures Flags() == QueryTurn(old(Flags()), sql, b).after
      ensures Some(pool) == QueryTurn(old(Flags()), sql, b).pool
      ensures conn.written == old(conn.written) + EncodeAll(QueryTurn(old(Flags()), sql, b).reply)
    {
      var qtype := ClassifyQuery(sql);
      pool := Primary;
      if qtype.Transaction? {
        var token := FindFirstToken(sql);
        inTransaction := token in BEGIN_SPELLINGS;
        txFailed := false;
      } else if !inTransaction && qtype.Read? {
        pool := Replica;
      }
      var readyStatus := if inTransaction then IN_TRANSACTION else IDLE;
      var err := ExecuteAndRelay(b, readyStatus);
      if err.Some? {
        if inTransaction {
          txFailed := true;
        }
        var status := if txFailed then FAILED else readyStatus;
        SendOuts([Error(err.value), Ready(status)]);
        EncodeAllAppend(Relay(b, readyStatus).0, [Error(err.value), Ready(status)]);
        Assoc(old(conn.written), EncodeAll(Relay(b, readyStatus).0), EncodeAll([Error(err.value), Ready(status)]));
      }
    }

    method HandleMessage(msg: Bytes, b: Backend) returns (ghost t: Turn)
      requires |msg| > 0
      modifies this, conn`written
      ensures t == MessageTurn(old(Flags()), msg, b)
      ensures Flags() == t.after
      ensures conn.written == old(conn.written) + EncodeAll(t.reply)
    {
      t := MessageTurn(Flags(), msg, b);
      if msg[0] == T_QUERY {
        var sql := Encoders.ExtractStatement(msg);
        var pool := HandleQuery(AsText(sql), b);
      } else {
        SendOuts([Error(UNSUPPORTED), Ready(IDLE)]);
      }
    }

    /** One turn of the message loop; false when the client terminated or nothing more can be read. */
    method ServeOne(backend: nat -> Backend, ghost all: seq<Bytes>, ghost seen: seq<Bytes>, n: nat, ghost start: Bytes)
      returns (more: bool, ghost seen': seq<Bytes>)
      requires Progress(all, seen, n, backend, Flags(), start, conn.written, conn.unread)
      modifies this, conn
      ensures more ==> |conn.unread| < |old(conn.unread)|
      ensures more ==> Progress(all, seen', n + 1, backend, Flags(), start, conn.written, conn.unread)
      ensures !more ==> Nonempty(all) && Served(all, backend, Flags(), start, conn.written)
    {
      more, seen' := false, seen;
      ReadAllStep(conn.unread);
      var r := conn.ReadRawMessage(false);
      if !r.Message? {
        assert seen + [] == seen;
        return;
      }
      var msg := r.msg;
      ghost var rest := ReadAll(conn.unread).0;
      Assoc(seen, [msg], rest);
      assert msg in all;
      if msg[0] == T_TERMINATE {
        ServedToTheEnd(seen, msg, rest, backend, Flags(), start, conn.written);
        return;
      }
      ghost var flags, written := Flags(), conn.written;
      ghost var t := HandleMessage(msg, backend(n));
      ServedOneMore(seen, msg, backend, flags, start, written, t);
      more, seen' := true, seen + [msg];
    }

    /** The message loop: every frame the client sends up to a Terminate or an unreadable one is answered in turn. */
    method Serve(backend: nat -> Backend)
      requires Flags() == START
      modifies this, conn
      ensures Served(ReadAll(old(conn.unread)).0, backend, Flags(), old(conn.written), conn.written)
    {
      ghost var all := ReadAll(conn.unread).0;
      ghost var start := conn.written;
      ghost var seen: seq<Bytes> := [];
      var n: nat := 0;
      ServedNothing(backend, start);
      assert [] + all == all;
      var more := true;
      while more
        invariant more ==> Progress(all, seen, n, backend, Flags(), start, conn.written, conn.unread)
        invariant !more ==> Served(all, backend, Flags(), start, conn.written)
        decreases if more then |conn.unread| + 1 else 0
      {
        more, seen := ServeOne(backend, all, seen, n, start);
        n := n + 1;
      }
    }
  }

  /** `seen` has been answered and the rest of `all` is still unread. */
  ghost predicate Progress(all: seq<Bytes>, seen: seq<Bytes>, n: nat, backend: nat -> Backend,
                           flags: State, start: Bytes, written: Bytes, unread: Bytes)
  {
    && all == seen + ReadAll(unread).0 && Nonempty(all)
    && Nonempty(seen) && |seen| == n && |Turns(seen, backend)| == n
    && Served(seen, backend, flags, start, written)
  }

  ghost predicate Nonempty(msgs: seq<Bytes>)
  {
    forall m :: m in msgs ==> |m| > 0
  }

  /** The flags and the output are those of the session over `msgs`. */
  ghost predicate Served(msgs: seq<Bytes>, backend: nat -> Backend, flags: State, start: Bytes, written: Bytes)
    requires Nonempty(msgs)
  {
    && flags == Final(Turns(msgs, backend))
    && written == start + EncodeAll(Replies(Turns(msgs, backend)))
  }

  lemma ServedNothing(backend: nat -> Backend, start: Bytes)
    ensures Served([], backend, START, start, start)
  {
    assert start + [] == start;
  }

  lemma ServedOneMore(seen: seq<Bytes>, msg: Bytes, backend: nat -> Backend, flags: State,
                      start: Bytes, written: Bytes, t: Turn)
    requires Nonempty(seen) && |msg| > 0 && msg[0] != T_TERMINATE && |Turns(seen, backend)| == |seen|
    requires Served(seen, backend, flags, start, written) && t == MessageTurn(flags, msg, backend(|seen|))
    ensures Nonempty(seen + [msg]) && |Turns(seen + [msg], backend)| == |seen| + 1
    ensures Served(seen + [msg], backend, t.after, start, written + EncodeAll(t.reply))
  {
    TurnsNext(seen, msg, backend);
    Assoc(start, EncodeAll(Replies(Turns(seen, backend))), EncodeAll(t.reply));
  }

  lemma ServedToTheEnd(seen: seq<Bytes>, msg: Bytes, rest: seq<Bytes>, backend: nat -> Backend, flags: State,
                       start: Bytes, written: Bytes)
    requires Nonempty(seen + [msg] + rest) && Nonempty(seen) && |msg| > 0 && msg[0] == T_TERMINATE
    requires |Turns(seen, backend)| == |seen| && Served(seen, backend, flags, start, written)
    ensures Served(seen + [msg] + rest, backend, flags, start, written)
  {
    TurnsStop(seen, msg, backend);
    TerminatedStays(seen + [msg], rest, backend);
  }

  lemma ReadAllStep(input: Bytes)
    ensures ReadMessage(input).Message? ==>
              ReadAll(input).0 == [ReadMessage(input).msg] + ReadAll(ReadMessage(input).rest).0
    ensures !ReadMessage(input).Message? ==> ReadAll(input).0 == []
  {
  }

  /** Answering one more message adds one turn, and its reply to the output. */
  lemma TurnsNext(seen: seq<Bytes>, msg: Bytes, backend: nat -> Backend)
    requires (forall m :: m in seen ==> |m| > 0) && |msg| > 0
    requires |Turns(seen, backend)| == |seen| && msg[0] != T_TERMINATE
    ensures var before := Turns(seen, backend);
            var t := MessageTurn(Final(before), msg, backend(|seen|));
            && Turns(seen + [msg], backend) == before + [t]
            && EncodeAll(Replies(before + [t])) == EncodeAll(Replies(before)) + EncodeAll(t.reply)
  {
    assert (seen + [msg])[..|seen|] == seen;
    var before := Turns(seen, backend);
    var t := MessageTurn(Final(before), msg, backend(|seen|));
    assert (before + [t])[..|before|] == before;
    EncodeAllAppend(Replies(before), t.reply);
  }

  lemma TurnsStop(seen: seq<Bytes>, msg: Bytes, backend: nat -> Backend)
    requires (forall m :: m in seen ==> |m| > 0) && |msg| > 0
    requires msg[0] == T_TERMINATE
    ensures Turns(seen + [msg], backend) == Turns(seen, backend)
  {
    assert (seen + [msg])[..|seen|] == seen;
  }

  lemma {:induction false} TerminatedStays(msgs: seq<Bytes>, more: seq<Bytes>, backend: nat -> Backend)
    requires forall m :: m in msgs + more ==> |m| > 0
    requires forall m :: m in msgs ==> |m| > 0
    requires |Turns(msgs, backend)| < |msgs|
    ensures Turns(msgs + more, backend) == Turns(msgs, backend)
  {
    if more == [] {
      assert msgs + more == msgs;
    } else {
      var n := |more| - 1;
      assert (msgs + more)[..|msgs| + n] == msgs + more[..n];
      TerminatedStays(msgs, more[..n], backend);
    }
  }
}
