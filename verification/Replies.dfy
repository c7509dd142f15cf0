/**
 * What a client makes of the proxy's replies: the frames between two ReadyForQuery messages, decoded, are
 * the backend's own columns, rows, command tag or error text (`internal/proxy/proxy.go`, lines 262-338).
 */
module Replies {
  import opened Wrappers
  import opened Seqs
  import opened Wire
  import opened Session
  import opened Pinning

  datatype End = Tagged(tag: Bytes) | Erred(text: Bytes)

  /** A reply as the client sees it. */
  datatype Answer = Answer(fields: seq<Field>, rows: seq<seq<Option<Bytes>>>, end: End)

  // ----------------------------------------------------------- the client's side

  function ParseRows(frames: seq<Bytes>): Option<seq<seq<Option<Bytes>>>>
  {
    if frames == [] then Some([])
    else
      match ParseDataRow(frames[0])
      case Some(row) => Prepend(row, ParseRows(frames[1..]))
      case None => None
  }

  function ParseEnd(frame: Bytes): Option<End>
  {
    match ParseCommandComplete(frame)
    case Some(tag) => Some(Tagged(tag))
    case None =>
      match ParseErrorResponse(frame)
      case Some(fields) =>
        if |fields| == 2 && fields[0] == ('S' as int, AsBytes("ERROR")) && fields[1].0 == 'M' as int
        then Some(Erred(fields[1].1)) else None
      case None => None
  }

  /** The frames of one reply: perhaps a description and rows, then how it ended, then the status. */
  function ReadReply(frames: seq<Bytes>): Option<(Answer, byte)>
  {
    var n := |frames|;
    if n < 2 then None
    else
      match (ParseEnd(frames[n - 2]), ParseReady(frames[n - 1]))
      case (Some(end), Some(status)) =>
        if n == 2 then Some((Answer([], [], end), status))
        else (match (ParseRowDescription(frames[0]), ParseRows(frames[1..n - 2]))
              case (Some(fields), Some(rows)) => Some((Answer(fields, rows, end), status))
              case _ => None)
      case _ => None
  }

  // ---------------------------------------------------- what the backend answered

  /** What the client should see: columns and rows as far as they were read, then the tag, or the error if the backend
      refused the statement or failed while sending columns. */
  function Expected(b: Backend): Answer
  {
    match b
    case Rejected(error) => Answer([], [], Erred(error))
    case Answered(fields, rows, failure, tag) =>
      var done := Tagged(if tag == [] then AsBytes("SELECT 0") else tag);
      if fields == [] then Answer([], [], done)
      else Answer(fields, rows, if failure.Some? then Erred(failure.value) else done)
  }

  predicate GoodRow(row: seq<Option<Bytes>>) { |row| < TWO16 && forall v :: v in row ==> Small(v) }

  predicate GoodEnd(end: End)
  {
    match end
    case Tagged(tag) => 0 !in tag
    case Erred(text) => 0 !in text
  }

  /** An answer that the message formats can carry. */
  ghost predicate Carried(a: Answer)
  {
    && |a.fields| < TWO16 && AllOk(NulFree, a.fields)
    && (forall row :: row in a.rows ==> GoodRow(row))
    && GoodEnd(a.end)
  }

  function EndOut(end: End): Out
  {
    match end
    case Tagged(tag) => Complete(tag)
    case Erred(text) => Error(text)
  }

  lemma TextIsNoTag(text: Bytes)
    ensures ParseCommandComplete(ErrorResponse(text)).None?
  {
    PayloadOf(T_ERROR, [83] + SEVERITY + [0, 77] + text + [0, 0]);
  }

  lemma EndReadBack(end: End)
    ensures ParseEnd(EncodeOut(EndOut(end))) == Some(end) <==> GoodEnd(end)
  {
    match end
    case Tagged(tag) =>
      CommandCompleteRoundTrip(tag);
      PayloadOf(T_COMMAND_COMPLETE, tag + [0]);
    case Erred(text) =>
      TextIsNoTag(text);
      ErrorRoundTrip(text);
      var fields := ParseErrorResponse(ErrorResponse(text));
      if fields.Some? && |fields.value| == 2 {
        assert fields.value == [fields.value[0], fields.value[1]];
      }
  }

  lemma RowReadBack(row: seq<Option<Bytes>>)
    ensures ParseDataRow(DataRow(row)) == Some(row) <==> GoodRow(row)
  {
    DataRowRoundTrip(row);
  }

  function RowFrames(rows: seq<seq<Option<Bytes>>>): seq<Bytes>
  {
    seq(|rows|, i requires 0 <= i < |rows| => DataRow(rows[i]))
  }

  lemma {:induction false} RowsReadBack(rows: seq<seq<Option<Bytes>>>)
    ensures ParseRows(RowFrames(rows)) == Some(rows) <==> forall row :: row in rows ==> GoodRow(row)
  {
    if rows != [] {
      RowsReadBack(rows[1..]);
      RowReadBack(rows[0]);
      assert RowFrames(rows)[1..] == RowFrames(rows[1..]);
      assert [rows[0]] + rows[1..] == rows;
      PrependInjective(rows[0], ParseRows(RowFrames(rows[1..])), rows[1..]);
      assert forall row :: row in rows <==> row == rows[0] || row in rows[1..];
    }
  }

  /** The frames of a whole answer with its status. */
  function AnswerFrames(a: Answer, status: byte): seq<Bytes>
  {
    (if a.fields == [] then [] else [RowDescription(a.fields)] + RowFrames(a.rows))
    + [EncodeOut(EndOut(a.end)), ReadyForQuery(status)]
  }

  /** Reading a reply is reading its parts. */
  lemma ReadReplyIs(a: Answer, status: byte)
    requires a.fields == [] ==> a.rows == []
    ensures var end := ParseEnd(EncodeOut(EndOut(a.end)));
            ReadReply(AnswerFrames(a, status)) ==
            if end.None? then None
            else if a.fields == [] then Some((Answer([], [], end.value), status))
            else (match (ParseRowDescription(RowDescription(a.fields)), ParseRows(RowFrames(a.rows)))
                  case (Some(fields), Some(rows)) => Some((Answer(fields, rows, end.value), status))
                  case _ => None)
  {
    ReadyRoundTrip(status);
    var frames := AnswerFrames(a, status);
    assert frames[|frames| - 2] == EncodeOut(EndOut(a.end)) && frames[|frames| - 1] == ReadyForQuery(status);
    if a.fields != [] {
      assert frames[0] == RowDescription(a.fields) && frames[1..|frames| - 2] == RowFrames(a.rows);
    }
  }

  lemma AnswerReadBack(a: Answer, status: byte)
    requires AllOk(ValidField, a.fields) && (a.fields == [] ==> a.rows == [])
    ensures ReadReply(AnswerFrames(a, status)) == Some((a, status)) <==> Carried(a)
  {
    ReadReplyIs(a, status);
    EndReadBack(a.end);
    RowDescriptionRoundTrip(a.fields);
    RowsReadBack(a.rows);
  }

  function AnswerOuts(a: Answer, status: byte): seq<Out>
  {
    (if a.fields == [] then [] else [Description(a.fields)] + RowOuts(a.rows)) + [EndOut(a.end), Ready(status)]
  }

  lemma OutsAreFrames(a: Answer, status: byte)
    ensures Frames(AnswerOuts(a, status)) == AnswerFrames(a, status)
  {
    assert Frames(RowOuts(a.rows)) == RowFrames(a.rows);
    assert Frames([Description(a.fields)] + RowOuts(a.rows)) == [RowDescription(a.fields)] + RowFrames(a.rows);
    assert Frames([EndOut(a.end), Ready(status)]) == [EncodeOut(EndOut(a.end)), ReadyForQuery(status)];
    FramesAppend(if a.fields == [] then [] else [Description(a.fields)] + RowOuts(a.rows),
                 [EndOut(a.end), Ready(status)]);
  }

  /** The proxy sends the frames of what the backend answered. */
  lemma RepliesWithAnswer(st: State, sql: string, b: Backend)
    ensures var reply := QueryTurn(st, sql, b).reply;
            reply != [] && reply[|reply| - 1].Ready? && Frames(reply) == AnswerFrames(Expected(b), StatusOf(reply))
  {
    var reply := QueryTurn(st, sql, b).reply;
    var status := StatusOf(reply);
    assert reply == AnswerOuts(Expected(b), status);
    OutsAreFrames(Expected(b), status);
  }

  predicate WellTyped(b: Backend)
  {
    b.Answered? ==> forall f :: f in b.fields ==> ValidField(f)
  }

  /** A client decodes the reply to a Query to exactly what the backend answered, with the status sent, if and only if
      the message formats can carry it. */
  lemma QueryReadBack(st: State, sql: string, b: Backend)
    requires WellTyped(b)
    ensures var reply := QueryTurn(st, sql, b).reply;
            reply != [] && reply[|reply| - 1].Ready?
            && (ReadReply(Frames(reply)) == Some((Expected(b), StatusOf(reply))) <==> Carried(Expected(b)))
  {
    RepliesWithAnswer(st, sql, b);
    AnswerReadBack(Expected(b), StatusOf(QueryTurn(st, sql, b).reply));
  }

  lemma TextHasNoNul(s: string, t: string)
    requires (forall c :: c in s ==> ' ' <= c <= '~') && (forall c :: c in t ==> ' ' <= c <= '~')
    ensures 0 !in AsBytes(s + t)
  {
    forall i | 0 <= i < |s + t|
      ensures AsBytes(s + t)[i] != 0
    {
      assert (s + t)[i] in s || (s + t)[i] in t;
    }
  }

  lemma RefusalIsCarried()
    ensures 0 !in UNSUPPORTED
  {
    TextHasNoNul("only simple query protocol ", "is supported by the proxy");
  }

  /** A client decodes the reply to any other message to a refusal with the status 'I'. */
  lemma OtherReadBack(st: State)
    ensures ReadReply(Frames(OtherTurn(st).reply))
         == Some((Answer([], [], Erred(AsBytes("only simple query protocol " + "is supported by the proxy"))),
                  'I' as int))
  {
    RefusalIsCarried();
    AnswerReadBack(Answer([], [], Erred(UNSUPPORTED)), 73);
    assert OtherTurn(st).reply == AnswerOuts(Answer([], [], Erred(UNSUPPORTED)), 73);
    OutsAreFrames(Answer([], [], Erred(UNSUPPORTED)), 73);
  }

  /** The reply in turn `t` as the client reads it. */
  ghost predicate ReadsTurn(msg: Bytes, b: Backend, t: Turn)
    requires |msg| > 0
  {
    if msg[0] == 'Q' as int
    then WellTyped(b) && Carried(Expected(b)) ==>
           t.reply != [] && t.reply[|t.reply| - 1].Ready?
           && ReadReply(Frames(t.reply)) == Some((Expected(b), StatusOf(t.reply)))
    else ReadReply(Frames(t.reply)) == ReadReply(Frames(OtherTurn(START).reply))
  }

  lemma TurnReadBack(st: State, msg: Bytes, b: Backend)
    requires |msg| > 0
    ensures ReadsTurn(msg, b, MessageTurn(st, msg, b))
  {
    if msg[0] == 'Q' as int && WellTyped(b) {
      QueryReadBack(st, AsText(ExtractSQL(msg)), b);
    }
  }

  /** Over whole sessions: cutting the proxy's output after each ReadyForQuery, the client finds one reply for each
      turn, and decodes it, for a Query, to what the backend answered to it, and for any other message to a refusal. */
  lemma ClientReadsEachAnswer(input: Bytes, backend: nat -> Backend)
    requires forall o :: o in Replies(Turns(ReadAll(input).0, backend)) ==> |EncodeOut(o)| <= TWO32
    ensures var msgs := ReadAll(input).0;
            var turns := Turns(msgs, backend);
            && CutAtReady(ReadAll(EncodeAll(Replies(turns))).0, []) == ReplyFrames(turns)
            && (forall i :: 0 <= i < |turns| ==> ReadsTurn(msgs[i], backend(i), turns[i]))
  {
    var msgs := ReadAll(input).0;
    ClientSeesOneReplyPerRequest(input, backend);
    forall i: nat | i < |Turns(msgs, backend)|
      ensures ReadsTurn(msgs[i], backend(i), Turns(msgs, backend)[i])
    {
      TurnAt(msgs, backend, i);
      TurnReadBack(Final(Turns(msgs[..i], backend)), msgs[i], backend(i));
    }
  }
}
