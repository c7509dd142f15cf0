/**
 * The encoders and parsers of `internal/proxy/proxy.go` as they are written: exact-size buffers
 * filled in place with a moving position, and scans that reslice what is left.
 */
module Encoders {
  import opened Seqs
  import opened Wrappers
  import opened Wire

  /** A connection: what the peer has sent and is still unread, and what was written to it. */
  class Conn {
    var unread: Bytes
    var written: Bytes

    constructor (sent: Bytes)
      ensures unread == sent && written == []
    {
      unread, written := sent, [];
    }

    method Write(msg: array<byte>)
      modifies this`written
      ensures written == old(written) + msg[..]
    {
      written := written + msg[..];
    }

    /** `io.ReadFull`: the bytes, or how it failed; a short read consumes what there was. */
    method ReadFull(n: nat) returns (data: Bytes, failed: bool, eof: bool)
      modifies this`unread
      ensures failed <==> |old(unread)| < n
      ensures !failed ==> data == old(unread)[..n] && unread == old(unread)[n..]
      ensures failed ==> unread == [] && (eof <==> old(unread) == [])
    {
      failed, eof := |unread| < n, unread == [];
      if failed {
        data, unread := [], [];
      } else {
        data, unread := unread[..n], unread[n..];
      }
    }

    /** `readRawMessage`: the frame, and what is left to read. */
    method ReadRawMessage(isStartup: bool) returns (r: ReadResult)
      modifies this`unread
      ensures r == if isStartup then ReadStartup(old(unread)) else ReadMessage(old(unread))
      ensures r.Message? ==> unread == r.rest && |unread| < |old(unread)|
    {
      ghost var input := unread;
      var headerSize := if isStartup then 4 else 5;
      var header, failed, eof := ReadFull(headerSize);
      if failed {
        return if eof then EndOfFile else UnexpectedEof;
      }
      var length := GetU32(header[headerSize - 4..]);
      assert header[headerSize - 4..] == input[headerSize - 4..headerSize];
      assert isStartup ==> input[0..4] == input[..4];
      if length < 4 || (isStartup && length > 10000) {
        return BadLength(length);
      }
      var body, short, none := ReadFull(length - 4);
      if short {
        return if none then EndOfFile else UnexpectedEof;
      }
      assert input[..headerSize] + input[headerSize..][..length - 4] == input[..headerSize + length - 4];
      r := Message(header + body, unread);
    }
  }

  // -------------------------------------------------------------- buffer fills

  /** `copy(msg[pos:], data)`. */
  method Copy(msg: array<byte>, pos: nat, data: Bytes) returns (next: nat)
    requires pos + |data| <= msg.Length
    modifies msg
    ensures next == pos + |data|
    ensures msg[..next] == old(msg[..pos]) + data
  {
    next := pos + |data|;
    for i := 0 to |data|
      invariant msg[..pos] == old(msg[..pos])
      invariant msg[pos..pos + i] == data[..i]
    {
      msg[pos + i] := data[i];
      assert msg[pos..pos + i + 1] == msg[pos..pos + i] + [data[i]];
    }
    assert msg[..next] == msg[..pos] + msg[pos..next];
  }

  method PutByte(msg: array<byte>, pos: nat, b: byte) returns (next: nat)
    requires pos < msg.Length
    modifies msg
    ensures next == pos + 1
    ensures msg[..next] == old(msg[..pos]) + [b]
  {
    msg[pos] := b;
    next := pos + 1;
  }

  method PutUint16(msg: array<byte>, pos: nat, v: int) returns (next: nat)
    requires pos + 2 <= msg.Length
    modifies msg
    ensures next == pos + 2
    ensures msg[..next] == old(msg[..pos]) + U16(v)
  {
    var b := U16(v);
    next := Copy(msg, pos, b);
  }

  method PutUint32(msg: array<byte>, pos: nat, v: int) returns (next: nat)
    requires pos + 4 <= msg.Length
    modifies msg
    ensures next == pos + 4
    ensures msg[..next] == old(msg[..pos]) + U32(v)
  {
    var b := U32(v);
    next := Copy(msg, pos, b);
  }

  /** The tag and the length field; the rest of the buffer is `size - 4` bytes. */
  method NewFrame(tag: byte, size: nat) returns (msg: array<byte>, pos: nat)
    requires size >= 4
    ensures fresh(msg) && msg.Length == 1 + size && pos == 5
    ensures msg[..pos] == [tag] + U32(size)
  {
    msg := new byte[1 + size](_ => 0);
    pos := PutByte(msg, 0, tag);
    pos := PutUint32(msg, pos, size);
  }

  // ------------------------------------------------------------------ encoders

  method SendReadyForQuery(w: Conn, status: byte)
    modifies w`written
    ensures w.written == old(w.written) + ReadyForQuery(status)
  {
    var msg, pos := NewFrame(T_READY, 5);
    pos := PutByte(msg, pos, status);
    assert msg[..] == msg[..pos];
    w.Write(msg);
  }

  method SendCommandComplete(w: Conn, tag: Bytes)
    modifies w`written
    ensures w.written == old(w.written) + CommandComplete(tag)
  {
    var msg, pos := NewFrame(T_COMMAND_COMPLETE, 4 + |tag| + 1);
    pos := Copy(msg, pos, tag);
    pos := PutByte(msg, pos, 0);
    assert msg[..] == msg[..pos];
    assert msg[..] == Frame(T_COMMAND_COMPLETE, tag + [0]);
    w.Write(msg);
  }

  method SendParameterStatus(w: Conn, key: Bytes, value: Bytes)
    modifies w`written
    ensures w.written == old(w.written) + ParameterStatus(key, value)
  {
    var msg, pos := NewFrame(T_PARAMETER, 4 + |key| + 1 + |value| + 1);
    pos := Copy(msg, pos, key);
    pos := PutByte(msg, pos, 0);
    pos := Copy(msg, pos, value);
    pos := PutByte(msg, pos, 0);
    assert msg[..] == msg[..pos];
    assert msg[..] == Frame(T_PARAMETER, key + [0] + value + [0]);
    w.Write(msg);
  }

  lemma ErrorLayout(head: Bytes, text: Bytes)
    ensures head + [83] + SEVERITY + [0] + [77] + text + [0] + [0] == head + ([83] + SEVERITY + [0, 77] + text + [0, 0])
  {
  }

  method SendError(w: Conn, text: Bytes)
    modifies w`written
    ensures w.written == old(w.written) + ErrorResponse(text)
  {
    var msg, pos := NewFrame(T_ERROR, 4 + 1 + |SEVERITY| + 1 + 1 + |text| + 1 + 1);
    pos := PutByte(msg, pos, 83);
    pos := Copy(msg, pos, SEVERITY);
    pos := PutByte(msg, pos, 0);
    pos := PutByte(msg, pos, 77);
    pos := Copy(msg, pos, text);
    pos := PutByte(msg, pos, 0);
    pos := PutByte(msg, pos, 0);
    assert msg[..] == msg[..pos];
    ErrorLayout([T_ERROR] + U32(4 + 1 + |SEVERITY| + 1 + 1 + |text| + 1 + 1), text);
    w.Write(msg);
  }

  lemma CountedLayout(tag: byte, n: int, body: Bytes)
    ensures [tag] + U32(6 + |body|) + U16(n) + body == Frame(tag, U16(n) + body)
  {
    assert |U16(n) + body| == 2 + |body|;
    Assoc([tag] + U32(6 + |body|), U16(n), body);
  }

  /** The column bytes are laid out by a first pass that sizes the buffer and a second that fills it. */
  method SendDataRow(w: Conn, values: seq<Option<Bytes>>)
    modifies w`written
    ensures w.written == old(w.written) + DataRow(values)
  {
    var size := 4 + 2;
    for i := 0 to |values|
      invariant size == 6 + |Columns(values[..i])|
      invariant w.written == old(w.written)
    {
      ListBytesNext(Column, values, i);
      size := size + (if values[i].None? then 4 else 4 + |values[i].value|);
    }
    assert values[..|values|] == values;
    var msg, pos := NewFrame(T_DATA_ROW, size);
    pos := PutUint16(msg, pos, |values|);
    ghost var head := msg[..pos];
    assert head + Columns(values[..0]) == head;
    for i := 0 to |values|
      invariant pos == 7 + |Columns(values[..i])| <= msg.Length && msg.Length == 7 + |Columns(values)|
      invariant msg[..pos] == head + Columns(values[..i])
      invariant w.written == old(w.written)
    {
      ListBytesNext(Column, values, i);
      ListBytesFit(Column, values, i);
      match values[i]
      case None =>
        pos := PutUint32(msg, pos, NULL_LENGTH);
        Assoc(head, Columns(values[..i]), U32(NULL_LENGTH));
      case Some(v) =>
        pos := PutUint32(msg, pos, |v|);
        pos := Copy(msg, pos, v);
        Assoc(head + Columns(values[..i]), U32(|v|), v);
        Assoc(head, Columns(values[..i]), Column(values[i]));
    }
    assert msg[..] == msg[..pos];
    CountedLayout(T_DATA_ROW, |values|, Columns(values));
    w.Write(msg);
  }

  method PutField(msg: array<byte>, pos0: nat, f: Field) returns (pos: nat)
    requires pos0 + |FieldBytes(f)| <= msg.Length
    modifies msg
    ensures pos == pos0 + |FieldBytes(f)|
    ensures msg[..pos] == old(msg[..pos0]) + FieldBytes(f)
  {
    pos := Copy(msg, pos0, f.name);
    pos := PutByte(msg, pos, 0);
    pos := PutUint32(msg, pos, f.tableOid);
    pos := PutUint16(msg, pos, f.attribute);
    pos := PutUint32(msg, pos, f.typeOid);
    pos := PutUint16(msg, pos, f.typeSize);
    pos := PutUint32(msg, pos, f.typeMod);
    pos := PutUint16(msg, pos, f.format);
  }

  method SendRowDescription(w: Conn, fields: seq<Field>)
    modifies w`written
    ensures w.written == old(w.written) + RowDescription(fields)
  {
    var size := 4 + 2;
    for i := 0 to |fields|
      invariant size == 6 + |Fields(fields[..i])|
      invariant w.written == old(w.written)
    {
      ListBytesNext(FieldBytes, fields, i);
      size := size + |fields[i].name| + 1 + 4 + 2 + 4 + 2 + 4 + 2;
    }
    assert fields[..|fields|] == fields;
    var msg, pos := NewFrame(T_ROW_DESCRIPTION, size);
    pos := PutUint16(msg, pos, |fields|);
    ghost var head := msg[..pos];
    assert head + Fields(fields[..0]) == head;
    for i := 0 to |fields|
      invariant pos == 7 + |Fields(fields[..i])| <= msg.Length && msg.Length == 7 + |Fields(fields)|
      invariant msg[..pos] == head + Fields(fields[..i])
      invariant w.written == old(w.written)
    {
      ListBytesNext(FieldBytes, fields, i);
      ListBytesFit(FieldBytes, fields, i);
      pos := PutField(msg, pos, fields[i]);
      Assoc(head, Fields(fields[..i]), FieldBytes(fields[i]));
    }
    assert msg[..] == msg[..pos];
    CountedLayout(T_ROW_DESCRIPTION, |fields|, Fields(fields));
    w.Write(msg);
  }

  // ------------------------------------------------------------------- parsers

  /** The scan every parser uses: the first NUL, or the length. */
  method FindNul(b: Bytes) returns (i: nat)
    ensures i == NulIndex(b)
  {
    i := 0;
    while i < |b| && b[i] != 0
      invariant i <= |b| && 0 !in b[..i]
    {
      assert b[..i + 1] == b[..i] + [b[i]];
      i := i + 1;
    }
    if i < |b| {
      assert b == b[..i] + [0] + b[i + 1..];
      NulIndexIs(b[..i], b[i + 1..]);
    } else {
      assert b[..i] == b;
      NoNul(b);
    }
  }

  lemma {:induction false} NoNul(b: Bytes)
    requires 0 !in b
    ensures NulIndex(b) == |b|
  {
    if b != [] {
      NoNul(b[1..]);
    }
  }

  method ExtractStatement(msg: Bytes) returns (sql: Bytes)
    ensures sql == ExtractSQL(msg)
  {
    if |msg| < 6 {
      return [];
    }
    var payload := msg[5..];
    if msg[0] == T_QUERY {
      var i := FindNul(payload);
      return payload[..i];
    }
    if msg[0] == T_PARSE {
      var nameEnd := FindNul(payload);
      if nameEnd < |payload| {
        payload := payload[nameEnd + 1..];
      }
      var i := FindNul(payload);
      return payload[..i];
    }
    sql := [];
  }

  /** One pass of the parameter loop: a key, a value, and what is left; None where the reslice is out of range. */
  method ReadPair(params: Bytes) returns (p: Option<Pair>)
    requires |params| > 1
    ensures p == NextPair(params)
  {
    var keyEnd := FindNul(params);
    if keyEnd == |params| {
      keyEnd := 0;
    }
    var after := params[keyEnd + 1..];
    if |after| == 0 {
      return None;
    }
    var valEnd := FindNul(after);
    if valEnd == |after| {
      valEnd := 0;
    }
    p := Some(Pair(params[..keyEnd], after[..valEnd], after[valEnd + 1..]));
  }

  /** `parseStartupParams`; each pass consumes at least two bytes. */
  method ParseStartupParams(msg: Bytes) returns (r: Option<Startup>)
    ensures r == StartupParams(msg)
  {
    var s := Startup([], []);
    if |msg| < 8 {
      return Some(s);
    }
    var params := msg[8..];
    while |params| > 1
      invariant StartupLoop(params, s) == StartupLoop(msg[8..], Startup([], []))
      decreases |params|
    {
      var p := ReadPair(params);
      if p.None? {
        return None;
      }
      s := Note(s, p.value.key, p.value.value);
      params := p.value.rest;
    }
    r := Some(s);
  }
}
