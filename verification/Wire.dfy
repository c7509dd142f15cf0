/**
 * The wire format of `internal/proxy/proxy.go` as values: what the encoders write, what the
 * readers and parsers make of it, and that the two invert each other
 * (PostgreSQL 16 documentation, section 55.7).
 */
module Wire {
  import opened Seqs
  import opened Wrappers

  type byte = x: int | 0 <= x < 256
  type Bytes = seq<byte>

  const TWO15: int := 0x8000
  const TWO16: int := 0x1_0000
  const TWO31: int := 0x8000_0000
  const TWO32: int := 0x1_0000_0000
  const NULL_LENGTH: int := 0xFFFF_FFFF

  // ----------------------------------------------------------------- integers

  /** The low 16 bits of `v`, big-endian: what `PutUint16(uint16(v))` writes. */
  function U16(v: int): (b: Bytes)
    ensures |b| == 2
  {
    [v / 256 % 256, v % 256]
  }

  /** The low 32 bits of `v`, big-endian: what `PutUint32(uint32(v))` writes. */
  function U32(v: int): (b: Bytes)
    ensures |b| == 4
  {
    [v / 256 / 256 / 256 % 256, v / 256 / 256 % 256, v / 256 % 256, v % 256]
  }

  function GetU16(b: Bytes): (v: nat)
    requires |b| == 2
    ensures v < TWO16
  {
    (b[0] as int) * 256 + b[1] as int
  }

  function GetU32(b: Bytes): (v: nat)
    requires |b| == 4
    ensures v < TWO32
  {
    (((b[0] as int) * 256 + b[1] as int) * 256 + b[2] as int) * 256 + b[3] as int
  }

  lemma U16Inverse(v: int)
    ensures GetU16(U16(v)) == v % TWO16
  {
  }

  lemma U32Inverse(v: int)
    ensures GetU32(U32(v)) == v % TWO32
  {
    var q1 := v / 256;
    var q2 := q1 / 256;
    var q3 := q2 / 256;
    assert v == ((q3 * 256 + q2 % 256) * 256 + q1 % 256) * 256 + v % 256;
    assert q3 == q3 / 256 * 256 + q3 % 256;
  }

  /** Two's complement readings of an unsigned field. */
  function S16(v: nat): int { if v < TWO15 then v else v - TWO16 }
  function S32(v: nat): int { if v < TWO31 then v else v - TWO32 }

  // ------------------------------------------------------------------- frames

  function Frame(tag: byte, payload: Bytes): Bytes
  {
    [tag] + U32(4 + |payload|) + payload
  }

  const T_ROW_DESCRIPTION: byte := 84
  const T_DATA_ROW: byte := 68
  const T_COMMAND_COMPLETE: byte := 67
  const T_ERROR: byte := 69
  const T_READY: byte := 90
  const T_PARAMETER: byte := 83
  const T_QUERY: byte := 81
  const T_PARSE: byte := 80
  const T_TERMINATE: byte := 88

  /** An ASCII text as bytes. */
  function AsBytes(s: string): (b: Bytes)
    ensures |b| == |s|
  {
    seq(|s|, i requires 0 <= i < |s| => s[i] as int % 256)
  }

  const SEVERITY: Bytes := AsBytes("ERROR")

  datatype Field = Field(
    name: Bytes, tableOid: nat, attribute: nat, typeOid: nat, typeSize: int, typeMod: int, format: int)

  predicate ValidField(f: Field)
  {
    && f.tableOid < TWO32 && f.attribute < TWO16 && f.typeOid < TWO32
    && -TWO15 <= f.typeSize < TWO15 && -TWO31 <= f.typeMod < TWO31 && -TWO15 <= f.format < TWO15
  }

  /** The elements of a list, one after the other. */
  function ListBytes<T>(encode: T -> Bytes, xs: seq<T>): Bytes
  {
    if xs == [] then [] else encode(xs[0]) + ListBytes(encode, xs[1..])
  }

  lemma {:induction false} ListBytesAppend<T>(encode: T -> Bytes, xs: seq<T>, x: T)
    ensures ListBytes(encode, xs + [x]) == ListBytes(encode, xs) + encode(x)
  {
    if xs == [] {
      assert [] + [x] == [x] && [x][1..] == [];
    } else {
      ListBytesAppend(encode, xs[1..], x);
      assert (xs + [x])[1..] == xs[1..] + [x];
      Assoc(encode(xs[0]), ListBytes(encode, xs[1..]), encode(x));
    }
  }

  lemma ListBytesNext<T>(encode: T -> Bytes, xs: seq<T>, i: nat)
    requires i < |xs|
    ensures ListBytes(encode, xs[..i + 1]) == ListBytes(encode, xs[..i]) + encode(xs[i])
  {
    assert xs[..i + 1] == xs[..i] + [xs[i]];
    ListBytesAppend(encode, xs[..i], xs[i]);
  }

  lemma {:induction false} ListBytesFit<T>(encode: T -> Bytes, xs: seq<T>, i: nat)
    requires i < |xs|
    ensures |ListBytes(encode, xs[..i])| + |encode(xs[i])| <= |ListBytes(encode, xs)|
    decreases |xs| - i
  {
    ListBytesNext(encode, xs, i);
    if i + 1 < |xs| {
      ListBytesFit(encode, xs, i + 1);
    } else {
      assert xs[..i + 1] == xs;
    }
  }

  function Column(v: Option<Bytes>): Bytes
  {
    match v
    case None => U32(NULL_LENGTH)
    case Some(b) => U32(|b|) + b
  }

  function Columns(values: seq<Option<Bytes>>): Bytes { ListBytes(Column, values) }

  function FieldTail(f: Field): (b: Bytes)
    ensures |b| == 18
  {
    U32(f.tableOid) + U16(f.attribute) + U32(f.typeOid) + U16(f.typeSize) + U32(f.typeMod) + U16(f.format)
  }

  function FieldBytes(f: Field): Bytes
  {
    f.name + [0] + FieldTail(f)
  }

  function Fields(fields: seq<Field>): Bytes { ListBytes(FieldBytes, fields) }

  function DataRow(values: seq<Option<Bytes>>): Bytes { Frame(T_DATA_ROW, U16(|values|) + Columns(values)) }
  function RowDescription(fields: seq<Field>): Bytes { Frame(T_ROW_DESCRIPTION, U16(|fields|) + Fields(fields)) }
  function CommandComplete(tag: Bytes): Bytes { Frame(T_COMMAND_COMPLETE, tag + [0]) }
  function ErrorResponse(text: Bytes): Bytes { Frame(T_ERROR, [83] + SEVERITY + [0, 77] + text + [0, 0]) }
  function ReadyForQuery(status: byte): Bytes { Frame(T_READY, [status]) }
  function ParameterStatus(key: Bytes, value: Bytes): Bytes { Frame(T_PARAMETER, key + [0] + value + [0]) }
  function Query(sql: Bytes): Bytes { Frame('Q' as int, sql + [0]) }
  function Parse(name: Bytes, sql: Bytes, types: Bytes): Bytes { Frame('P' as int, name + [0] + sql + [0] + types) }

  // ------------------------------------------------------------------ reading

  datatype ReadResult =
    | Message(msg: Bytes, rest: Bytes)
    | EndOfFile
    | UnexpectedEof
    | BadLength(length: nat)

  /** `io.ReadFull` on what is left when fewer than `n` bytes come. */
  function Short(input: Bytes): ReadResult
  {
    if input == [] then EndOfFile else UnexpectedEof
  }

  /** `readRawMessage(r, false)`. */
  function ReadMessage(input: Bytes): ReadResult
  {
    if |input| < 5 then Short(input)
    else
      var length := GetU32(input[1..5]);
      if length < 4 then BadLength(length)
      else if |input| < 1 + length then Short(input[5..])
      else Message(input[..1 + length], input[1 + length..])
  }

  /** `readRawMessage(r, true)`. */
  function ReadStartup(input: Bytes): ReadResult
  {
    if |input| < 4 then Short(input)
    else
      var length := GetU32(input[..4]);
      if length < 4 || length > 10000 then BadLength(length)
      else if |input| < length then Short(input[4..])
      else Message(input[..length], input[length..])
  }

  lemma FrameHeader(tag: byte, payload: Bytes, rest: Bytes)
    ensures var input := Frame(tag, payload) + rest;
            |input| >= 5 && input[0] == tag && GetU32(input[1..5]) == (4 + |payload|) % TWO32
  {
    U32Inverse(4 + |payload|);
    assert (Frame(tag, payload) + rest)[1..5] == U32(4 + |payload|);
  }

  lemma FrameFits(tag: byte, payload: Bytes, rest: Bytes)
    requires 4 + |payload| < TWO32
    ensures ReadMessage(Frame(tag, payload) + rest) == Message(Frame(tag, payload), rest)
  {
    var f := Frame(tag, payload);
    FrameHeader(tag, payload, rest);
    assert |f| == 1 + (4 + |payload|) % TWO32;
    assert (f + rest)[..|f|] == f && (f + rest)[|f|..] == rest;
  }

  lemma ReadLength(input: Bytes)
    ensures ReadMessage(input).Message? ==> |ReadMessage(input).msg| == 1 + GetU32(input[1..5])
  {
  }

  /** A frame is read back whole, whatever follows it, exactly when its length fits the length field. */
  lemma FrameReadBack(tag: byte, payload: Bytes, rest: Bytes)
    ensures ReadMessage(Frame(tag, payload) + rest) == Message(Frame(tag, payload), rest) <==> 4 + |payload| < TWO32
  {
    if 4 + |payload| < TWO32 {
      FrameFits(tag, payload, rest);
    } else {
      FrameHeader(tag, payload, rest);
      ReadLength(Frame(tag, payload) + rest);
    }
  }

  /** A frame that fits its length field. */
  ghost predicate IsFrame(m: Bytes)
  {
    |m| >= 5 && |m| == 1 + GetU32(m[1..5])
  }

  lemma SliceOfPrefix(s: Bytes, n: int, lo: int, hi: int)
    requires 0 <= lo <= hi <= n <= |s|
    ensures s[..n][lo..hi] == s[lo..hi]
  {
  }

  /** Reading neither invents nor loses bytes: a message is returned exactly when the input begins
      with a frame, and then it is that frame. */
  lemma ReadMessageExact(input: Bytes)
    ensures ReadMessage(input).Message? <==> exists n :: 0 <= n <= |input| && IsFrame(input[..n])
    ensures ReadMessage(input).Message? ==>
              var r := ReadMessage(input); input == r.msg + r.rest && IsFrame(r.msg)
  {
    if ReadMessage(input).Message? {
      var n := 1 + GetU32(input[1..5]);
      SliceOfPrefix(input, n, 1, 5);
      assert IsFrame(input[..n]);
    }
    forall n | 0 <= n <= |input| && IsFrame(input[..n])
      ensures ReadMessage(input).Message?
    {
      SliceOfPrefix(input, n, 1, 5);
    }
  }

  /** A connection that breaks looks like one that closed cleanly when it breaks before a message, and also when it
      breaks right after a header that announces more. */
  lemma CleanEndIff(input: Bytes)
    ensures ReadMessage(input).EndOfFile? <==> input == [] || (|input| == 5 && GetU32(input[1..5]) > 4)
    ensures ReadMessage(input).BadLength? <==> |input| >= 5 && GetU32(input[1..5]) < 4
  {
  }

  function Concat(frames: seq<Bytes>): Bytes
  {
    if frames == [] then [] else frames[0] + Concat(frames[1..])
  }

  lemma {:induction false} ConcatAppend(a: seq<Bytes>, b: seq<Bytes>)
    ensures Concat(a + b) == Concat(a) + Concat(b)
  {
    if a == [] {
      assert a + b == b;
    } else {
      ConcatAppend(a[1..], b);
      assert (a + b)[1..] == a[1..] + b;
      Assoc(a[0], Concat(a[1..]), Concat(b));
    }
  }

  /** Reading until the input runs out: the messages, and how it ended. */
  function ReadAll(input: Bytes): (r: (seq<Bytes>, ReadResult))
    ensures forall m :: m in r.0 ==> |m| >= 5
    decreases |input|
  {
    match ReadMessage(input)
    case Message(m, rest) =>
      var (ms, end) := ReadAll(rest);
      ([m] + ms, end)
    case r => ([], r)
  }

  /** Repeated reading of any concatenation of frames returns exactly those frames. */
  lemma {:induction false} FramingRoundTrip(frames: seq<Bytes>)
    requires forall f :: f in frames ==> IsFrame(f)
    ensures ReadAll(Concat(frames)) == (frames, EndOfFile)
  {
    if frames != [] {
      var f := frames[0];
      var rest := Concat(frames[1..]);
      FramingRoundTrip(frames[1..]);
      assert f in frames && |f| >= 5;
      assert (f + rest)[1..5] == f[1..5];
      assert (f + rest)[..|f|] == f && (f + rest)[|f|..] == rest;
      assert ReadMessage(f + rest) == Message(f, rest);
      assert [f] + frames[1..] == frames;
    }
  }

  lemma FrameIsFrame(tag: byte, payload: Bytes)
    requires 4 + |payload| < TWO32
    ensures IsFrame(Frame(tag, payload))
  {
    FrameHeader(tag, payload, []);
    assert Frame(tag, payload) + [] == Frame(tag, payload);
  }

  /** A client's startup message is read back exactly when its length is between 4 and 10000. */
  lemma StartupReadBack(body: Bytes, rest: Bytes)
    requires 4 + |body| < TWO32
    ensures var m := U32(4 + |body|) + body;
            ReadStartup(m + rest) == Message(m, rest) <==> 4 + |body| <= 10000
  {
    var m := U32(4 + |body|) + body;
    U32Inverse(4 + |body|);
    assert (m + rest)[..4] == U32(4 + |body|);
    assert (m + rest)[..|m|] == m && (m + rest)[|m|..] == rest;
  }

  // -------------------------------------------------------------------- lists

  function Prepend<T>(x: T, xs: Option<seq<T>>): Option<seq<T>>
  {
    match xs
    case None => None
    case Some(s) => Some([x] + s)
  }

  /** A client's reading of `n` elements, consuming all of `b`; `parse` reads the one in front. */
  function ParseList<T>(parse: Bytes -> Option<(T, Bytes)>, b: Bytes, n: nat): Option<seq<T>>
    decreases n
  {
    if n == 0 then (if b == [] then Some([]) else None)
    else
      match parse(b)
      case None => None
      case Some((x, rest)) => Prepend(x, ParseList(parse, rest, n - 1))
  }

  lemma {:induction false} ParseListLength<T>(parse: Bytes -> Option<(T, Bytes)>, b: Bytes, n: nat)
    ensures ParseList(parse, b, n).Some? ==> |ParseList(parse, b, n).value| == n
    decreases n
  {
    if n > 0 && parse(b).Some? {
      ParseListLength(parse, parse(b).value.1, n - 1);
    }
  }

  lemma PrependInjective<T>(x: T, xs: Option<seq<T>>, s: seq<T>)
    ensures Prepend(x, xs) == Some([x] + s) <==> xs == Some(s)
  {
    if Prepend(x, xs) == Some([x] + s) {
      assert ([x] + xs.value)[1..] == xs.value && ([x] + s)[1..] == s;
    }
  }

  /** An element that `ok` describes is read back whole, whatever follows. */
  ghost predicate ReadsBack<T(!new)>(encode: T -> Bytes, parse: Bytes -> Option<(T, Bytes)>, x: T)
  {
    forall rest :: parse(encode(x) + rest) == Some((x, rest))
  }

  /** Nothing is read that `ok` does not describe. */
  ghost predicate ReadsOnly<T(!new)>(parse: Bytes -> Option<(T, Bytes)>, ok: T -> bool)
  {
    forall b :: parse(b).Some? ==> ok(parse(b).value.0)
  }

  ghost predicate AllOk<T>(ok: T -> bool, xs: seq<T>)
  {
    forall x :: x in xs ==> ok(x)
  }

  lemma AllOkStep<T>(ok: T -> bool, xs: seq<T>)
    requires xs != []
    ensures AllOk(ok, xs) <==> ok(xs[0]) && AllOk(ok, xs[1..])
  {
    assert xs == [xs[0]] + xs[1..];
    assert forall x :: x in xs <==> x == xs[0] || x in xs[1..];
  }

  /** A list is recovered exactly when every element is one that can be read. */
  lemma {:induction false} ListRoundTrip<T(!new)>(encode: T -> Bytes, parse: Bytes -> Option<(T, Bytes)>, ok: T -> bool,
                                                  xs: seq<T>)
    requires forall x :: x in xs && ok(x) ==> ReadsBack(encode, parse, x)
    requires ReadsOnly(parse, ok)
    ensures ParseList(parse, ListBytes(encode, xs), |xs|) == Some(xs) <==> AllOk(ok, xs)
  {
    if xs != [] {
      var rest := xs[1..];
      ListRoundTrip(encode, parse, ok, rest);
      AllOkStep(ok, xs);
      assert [xs[0]] + rest == xs;
      if ok(xs[0]) {
        assert xs[0] in xs && ReadsBack(encode, parse, xs[0]);
        PrependInjective(xs[0], ParseList(parse, ListBytes(encode, rest), |rest|), rest);
      }
    }
  }

  lemma CountedFrame(tag: byte, n: int, body: Bytes)
    ensures var m := Frame(tag, U16(n) + body);
            |m| >= 7 && m[0] == tag && m[5..7] == U16(n) && m[7..] == body
  {
  }

  /** Reading with the count truncated to its field is as good as reading with the count, if and only if it fits. */
  lemma TruncatedCount<T>(xs: seq<T>, whole: Option<seq<T>>, read: Option<seq<T>>)
    requires |xs| % TWO16 == |xs| ==> read == whole
    requires read.Some? ==> |read.value| == |xs| % TWO16
    ensures read == Some(xs) <==> |xs| < TWO16 && whole == Some(xs)
  {
  }

  // ----------------------------------------------------------------- DataRow

  /** A client's reading of a column of a DataRow. */
  function ParseColumn(b: Bytes): Option<(Option<Bytes>, Bytes)>
  {
    if |b| < 4 then None
    else
      var length := GetU32(b[..4]);
      if S32(length) == -1 then Some((None, b[4..]))
      else if S32(length) < 0 || |b| < 4 + length then None
      else Some((Some(b[4..4 + length]), b[4 + length..]))
  }

  function ParseDataRow(msg: Bytes): Option<seq<Option<Bytes>>>
  {
    if |msg| < 7 || msg[0] != 'D' as int then None else ParseList(ParseColumn, msg[7..], GetU16(msg[5..7]))
  }

  /** Short enough to carry a length. */
  predicate Small(v: Option<Bytes>) { v.Some? ==> |v.value| < TWO31 }

  lemma ParseNull(header: Bytes, rest: Bytes)
    requires |header| == 4 && GetU32(header) == NULL_LENGTH
    ensures ParseColumn(header + rest) == Some((None, rest))
  {
    var b := header + rest;
    assert b[..4] == header && b[4..] == rest;
  }

  lemma ParseValue(header: Bytes, data: Bytes, rest: Bytes)
    requires |header| == 4 && GetU32(header) == |data| < TWO31
    ensures ParseColumn(header + data + rest) == Some((Some(data), rest))
  {
    var b := header + data + rest;
    assert b[..4] == header && b[4..4 + |data|] == data && b[4 + |data|..] == rest;
  }

  lemma SmallReadsBack(v: Option<Bytes>)
    requires Small(v)
    ensures ReadsBack(Column, ParseColumn, v)
  {
    forall rest
      ensures ParseColumn(Column(v) + rest) == Some((v, rest))
    {
      match v
      case None =>
        U32Inverse(NULL_LENGTH);
        ParseNull(U32(NULL_LENGTH), rest);
      case Some(d) =>
        U32Inverse(|d|);
        ParseValue(U32(|d|), d, rest);
    }
  }

  lemma OnlySmallRead()
    ensures ReadsOnly(ParseColumn, Small)
  {
  }

  lemma DataRowParses(values: seq<Option<Bytes>>)
    ensures ParseDataRow(DataRow(values)) == ParseList(ParseColumn, Columns(values), |values| % TWO16)
  {
    U16Inverse(|values|);
    CountedFrame(T_DATA_ROW, |values|, Columns(values));
  }

  /** Decoding a DataRow recovers the values, NULL apart from empty, exactly when there are fewer
      than 65536 of them and each is shorter than 2^31 bytes. */
  lemma DataRowRoundTrip(values: seq<Option<Bytes>>)
    ensures ParseDataRow(DataRow(values)) == Some(values) <==> |values| < TWO16 && AllOk(Small, values)
  {
    forall v | v in values && Small(v)
      ensures ReadsBack(Column, ParseColumn, v)
    {
      SmallReadsBack(v);
    }
    OnlySmallRead();
    DataRowParses(values);
    ListRoundTrip(Column, ParseColumn, Small, values);
    ParseListLength(ParseColumn, Columns(values), |values| % TWO16);
    TruncatedCount(values, ParseList(ParseColumn, Columns(values), |values|),
                   ParseList(ParseColumn, Columns(values), |values| % TWO16));
  }

  // ----------------------------------------------------------- RowDescription

  /** The index of the first NUL, or the length when there is none. */
  function NulIndex(b: Bytes): (i: nat)
    ensures i <= |b| && (i < |b| ==> b[i] == 0)
  {
    if b == [] || b[0] == 0 then 0 else NulIndex(b[1..]) + 1
  }

  lemma {:induction false} NoNulBefore(b: Bytes)
    ensures 0 !in b[..NulIndex(b)]
  {
    if b != [] && b[0] != 0 {
      var i := NulIndex(b[1..]);
      NoNulBefore(b[1..]);
      assert b[..i + 1] == [b[0]] + b[1..][..i];
    }
  }

  lemma {:induction false} NulIndexIs(a: Bytes, rest: Bytes)
    requires 0 !in a
    ensures NulIndex(a + [0] + rest) == |a|
  {
    if a != [] {
      NulIndexIs(a[1..], rest);
      assert (a + [0] + rest)[1..] == a[1..] + [0] + rest;
    }
  }

  function ParseFieldTail(name: Bytes, b: Bytes): Field
    requires |b| == 18
  {
    Field(name, GetU32(b[0..4]), GetU16(b[4..6]), GetU32(b[6..10]),
          S16(GetU16(b[10..12])), S32(GetU32(b[12..16])), S16(GetU16(b[16..18])))
  }

  /** A client's reading of a field of a RowDescription. */
  function ParseField(b: Bytes): Option<(Field, Bytes)>
  {
    var i := NulIndex(b);
    if |b| < i + 1 + 18 then None
    else Some((ParseFieldTail(b[..i], b[i + 1..i + 19]), b[i + 19..]))
  }

  function ParseRowDescription(msg: Bytes): Option<seq<Field>>
  {
    if |msg| < 7 || msg[0] != 'T' as int then None else ParseList(ParseField, msg[7..], GetU16(msg[5..7]))
  }

  lemma SixParts(a: Bytes, b: Bytes, c: Bytes, d: Bytes, e: Bytes, f: Bytes)
    requires |a| == 4 && |b| == 2 && |c| == 4 && |d| == 2 && |e| == 4 && |f| == 2
    ensures var t := a + b + c + d + e + f;
            t[0..4] == a && t[4..6] == b && t[6..10] == c && t[10..12] == d && t[12..16] == e && t[16..18] == f
  {
  }

  lemma SignedInverse(v: int)
    ensures -TWO15 <= v < TWO15 ==> S16(v % TWO16) == v
    ensures -TWO31 <= v < TWO31 ==> S32(v % TWO32) == v
  {
  }

  lemma Signed16RoundTrip(v: int)
    requires -TWO15 <= v < TWO15
    ensures S16(GetU16(U16(v))) == v
  {
    U16Inverse(v);
    SignedInverse(v);
  }

  lemma Signed32RoundTrip(v: int)
    requires -TWO31 <= v < TWO31
    ensures S32(GetU32(U32(v))) == v
  {
    U32Inverse(v);
    SignedInverse(v);
  }

  lemma UnsignedRoundTrip(v: nat)
    ensures v < TWO16 ==> GetU16(U16(v)) == v
    ensures v < TWO32 ==> GetU32(U32(v)) == v
  {
    U16Inverse(v);
    U32Inverse(v);
  }

  lemma FieldTailRoundTrip(f: Field)
    requires ValidField(f)
    ensures ParseFieldTail(f.name, FieldTail(f)) == f
  {
    SixParts(U32(f.tableOid), U16(f.attribute), U32(f.typeOid), U16(f.typeSize), U32(f.typeMod), U16(f.format));
    UnsignedRoundTrip(f.tableOid);
    UnsignedRoundTrip(f.attribute);
    UnsignedRoundTrip(f.typeOid);
    Signed16RoundTrip(f.typeSize);
    Signed32RoundTrip(f.typeMod);
    Signed16RoundTrip(f.format);
  }

  lemma ParseFieldOf(name: Bytes, tail: Bytes, rest: Bytes)
    requires 0 !in name && |tail| == 18
    ensures ParseField(name + [0] + tail + rest) == Some((ParseFieldTail(name, tail), rest))
  {
    var b := name + [0] + tail + rest;
    var i := |name|;
    assert b == name + [0] + (tail + rest);
    NulIndexIs(name, tail + rest);
    assert b[..i] == name && b[i + 1..i + 19] == tail && b[i + 19..] == rest;
  }

  predicate NulFree(f: Field) { 0 !in f.name }

  lemma FieldReadsBack(f: Field)
    requires ValidField(f) && NulFree(f)
    ensures ReadsBack(FieldBytes, ParseField, f)
  {
    FieldTailRoundTrip(f);
    forall rest
      ensures ParseField(FieldBytes(f) + rest) == Some((f, rest))
    {
      ParseFieldOf(f.name, FieldTail(f), rest);
    }
  }

  lemma OnlyNulFreeRead()
    ensures ReadsOnly(ParseField, NulFree)
  {
    forall b | ParseField(b).Some?
      ensures NulFree(ParseField(b).value.0)
    {
      NoNulBefore(b);
    }
  }

  lemma RowDescriptionParses(fields: seq<Field>)
    ensures ParseRowDescription(RowDescription(fields)) == ParseList(ParseField, Fields(fields), |fields| % TWO16)
  {
    U16Inverse(|fields|);
    CountedFrame(T_ROW_DESCRIPTION, |fields|, Fields(fields));
  }

  /** Decoding a RowDescription recovers every field exactly when the names hold no NUL and there are fewer than
      65536. */
  lemma RowDescriptionRoundTrip(fields: seq<Field>)
    requires AllOk(ValidField, fields)
    ensures ParseRowDescription(RowDescription(fields)) == Some(fields) <==> |fields| < TWO16 && AllOk(NulFree, fields)
  {
    forall f | f in fields && NulFree(f)
      ensures ReadsBack(FieldBytes, ParseField, f)
    {
      FieldReadsBack(f);
    }
    OnlyNulFreeRead();
    RowDescriptionParses(fields);
    ListRoundTrip(FieldBytes, ParseField, NulFree, fields);
    ParseListLength(ParseField, Fields(fields), |fields| % TWO16);
    TruncatedCount(fields, ParseList(ParseField, Fields(fields), |fields|),
                   ParseList(ParseField, Fields(fields), |fields| % TWO16));
  }

  // ----------------------------------------------------- the other replies

  /** A string up to its NUL, and what follows. */
  function ParseString(b: Bytes): Option<(Bytes, Bytes)>
  {
    if NulIndex(b) == |b| then None else Some((b[..NulIndex(b)], b[NulIndex(b) + 1..]))
  }

  lemma StringReadBack(text: Bytes, rest: Bytes)
    ensures ParseString(text + [0] + rest) == Some((text, rest)) <==> 0 !in text
  {
    var b := text + [0] + rest;
    NoNulBefore(b);
    if 0 !in text {
      NulIndexIs(text, rest);
      assert b[..|text|] == text && b[|text| + 1..] == rest;
    }
  }

  /** Whatever is read holds no NUL. */
  lemma StringHasNoNul(b: Bytes)
    ensures ParseString(b).Some? ==> 0 !in ParseString(b).value.0
  {
    NoNulBefore(b);
  }

  /** A client's reading of CommandComplete. */
  function ParseCommandComplete(msg: Bytes): Option<Bytes>
  {
    if |msg| < 5 || msg[0] != 'C' as int then None
    else
      match ParseString(msg[5..])
      case Some((tag, rest)) => if rest == [] then Some(tag) else None
      case None => None
  }

  lemma PayloadOf(tag: byte, payload: Bytes)
    ensures |Frame(tag, payload)| >= 5 && Frame(tag, payload)[0] == tag && Frame(tag, payload)[5..] == payload
  {
  }

  /** A command tag is read back exactly when it holds no NUL. */
  lemma CommandCompleteRoundTrip(tag: Bytes)
    ensures ParseCommandComplete(CommandComplete(tag)) == Some(tag) <==> 0 !in tag
  {
    PayloadOf(T_COMMAND_COMPLETE, tag + [0]);
    assert tag + [0] + [] == tag + [0];
    StringReadBack(tag, []);
    StringHasNoNul(tag + [0]);
  }

  /** A client's reading of the fields of an ErrorResponse: a type and a string each, up to a zero. */
  function ErrorFields(b: Bytes): Option<seq<(byte, Bytes)>>
    decreases |b|
  {
    if b == [] then None
    else if b[0] == 0 then (if |b| == 1 then Some([]) else None)
    else
      match ParseString(b[1..])
      case Some((text, rest)) => Prepend((b[0], text), ErrorFields(rest))
      case None => None
  }

  function ParseErrorResponse(msg: Bytes): Option<seq<(byte, Bytes)>>
  {
    if |msg| < 5 || msg[0] != 'E' as int then None else ErrorFields(msg[5..])
  }

  lemma FieldInFront(kind: byte, text: Bytes, rest: Bytes)
    requires kind != 0 && 0 !in text
    ensures ErrorFields([kind] + (text + [0] + rest)) == Prepend((kind, text), ErrorFields(rest))
  {
    var b := [kind] + (text + [0] + rest);
    assert b[1..] == text + [0] + rest;
    StringReadBack(text, rest);
  }

  lemma FirstErrorField(b: Bytes)
    requires b != [] && b[0] != 0 && ErrorFields(b).Some?
    ensures ErrorFields(b).value != [] && 0 !in ErrorFields(b).value[0].1
  {
    StringHasNoNul(b[1..]);
  }

  lemma MessageReadBack(text: Bytes)
    ensures ErrorFields([77] + (text + [0] + [0])) == Some([(77, text)]) <==> 0 !in text
  {
    var b := [77] + (text + [0] + [0]);
    if 0 !in text {
      FieldInFront(77, text, [0]);
      assert ErrorFields([0]) == Some([]) && [(77, text)] + [] == [(77, text)];
    } else if ErrorFields(b).Some? {
      FirstErrorField(b);
    }
  }

  /** The severity ERROR and the text of an error are read back exactly when the text holds no NUL. */
  lemma ErrorRoundTrip(text: Bytes)
    ensures ParseErrorResponse(ErrorResponse(text)) == Some([('S' as int, AsBytes("ERROR")), ('M' as int, text)])
            <==> 0 !in text
  {
    var message := [77] + (text + [0] + [0]);
    assert [83] + SEVERITY + [0, 77] + text + [0, 0] == [83] + (SEVERITY + [0] + message);
    PayloadOf(T_ERROR, [83] + SEVERITY + [0, 77] + text + [0, 0]);
    FieldInFront(83, SEVERITY, message);
    MessageReadBack(text);
    PrependInjective((83, SEVERITY), ErrorFields(message), [(77, text)]);
    assert [(83, SEVERITY)] + [(77, text)] == [(83, SEVERITY), (77, text)];
  }

  /** A client's reading of ParameterStatus. */
  function ParseParameterStatus(msg: Bytes): Option<(Bytes, Bytes)>
  {
    if |msg| < 5 || msg[0] != 'S' as int then None
    else
      match ParseString(msg[5..])
      case None => None
      case Some((key, rest)) =>
        match ParseString(rest)
        case Some((value, more)) => if more == [] then Some((key, value)) else None
        case None => None
  }

  /** A parameter is read back exactly when neither its name nor its value holds a NUL. */
  lemma ParameterStatusRoundTrip(key: Bytes, value: Bytes)
    ensures ParseParameterStatus(ParameterStatus(key, value)) == Some((key, value)) <==> 0 !in key && 0 !in value
  {
    var payload := key + [0] + value + [0];
    PayloadOf(T_PARAMETER, payload);
    assert payload == key + [0] + (value + [0]) && value + [0] + [] == value + [0];
    StringReadBack(key, value + [0]);
    StringReadBack(value, []);
    StringHasNoNul(payload);
    StringHasNoNul(value + [0]);
  }

  /** A client's reading of ReadyForQuery. */
  function ParseReady(msg: Bytes): Option<byte>
  {
    if |msg| != 6 || msg[0] != 'Z' as int || GetU32(msg[1..5]) != 5 then None else Some(msg[5])
  }

  lemma ReadyRoundTrip(status: byte)
    ensures ParseReady(ReadyForQuery(status)) == Some(status)
  {
    FrameHeader(T_READY, [status], []);
    assert ReadyForQuery(status) + [] == ReadyForQuery(status);
  }

  // ------------------------------------------------------- queries and startup

  /** `extractSQL`. A Parse payload without any NUL is taken for the statement itself. */
  function ExtractSQL(msg: Bytes): Bytes
  {
    if |msg| < 6 then []
    else
      var payload := msg[5..];
      if msg[0] == T_QUERY then payload[..NulIndex(payload)]
      else if msg[0] == T_PARSE then
        var i := NulIndex(payload);
        var sql := if i < |payload| then payload[i + 1..] else payload;
        sql[..NulIndex(sql)]
      else []
  }

  lemma ExtractedHasNoNul(msg: Bytes)
    ensures 0 !in ExtractSQL(msg)
  {
    if |msg| >= 6 {
      var payload := msg[5..];
      var i := NulIndex(payload);
      NoNulBefore(payload);
      NoNulBefore(if i < |payload| then payload[i + 1..] else payload);
    }
  }

  lemma ExtractFromQuery(payload: Bytes)
    requires payload != []
    ensures ExtractSQL(Frame('Q' as int, payload)) == payload[..NulIndex(payload)]
  {
    assert Frame('Q' as int, payload)[5..] == payload;
  }

  lemma ExtractFromParse(name: Bytes, rest: Bytes)
    requires 0 !in name
    ensures ExtractSQL(Frame('P' as int, name + [0] + rest)) == rest[..NulIndex(rest)]
  {
    var payload := name + [0] + rest;
    NulIndexIs(name, rest);
    assert Frame('P' as int, payload)[5..] == payload && payload[|name| + 1..] == rest;
  }

  /** A Parse message without any NUL is taken whole for its statement, and other messages have none. */
  lemma ExtractElse(tag: byte, payload: Bytes)
    requires payload != []
    ensures tag == 'P' as int && 0 !in payload ==> ExtractSQL(Frame(tag, payload)) == payload
    ensures tag != 'P' as int && tag != 'Q' as int ==> ExtractSQL(Frame(tag, payload)) == []
  {
    PayloadOf(tag, payload);
    if 0 !in payload {
      assert payload[..|payload|] == payload;
    }
  }

  /** The statement comes back from a Query message exactly when it holds no NUL. */
  lemma QueryRoundTrip(sql: Bytes)
    ensures ExtractSQL(Query(sql)) == sql <==> 0 !in sql
  {
    var payload := sql + [0];
    ExtractFromQuery(payload);
    if 0 !in sql {
      assert payload == sql + [0] + [];
      NulIndexIs(sql, []);
      assert payload[..|sql|] == sql;
    }
    ExtractedHasNoNul(Query(sql));
  }

  /** And from a Parse message whose statement name holds no NUL, whatever parameter types follow. */
  lemma ParseRoundTrip(name: Bytes, sql: Bytes, types: Bytes)
    requires 0 !in name
    ensures ExtractSQL(Parse(name, sql, types)) == sql <==> 0 !in sql
  {
    var rest := sql + [0] + types;
    assert name + [0] + sql + [0] + types == name + [0] + rest;
    ExtractFromParse(name, rest);
    if 0 !in sql {
      NulIndexIs(sql, types);
      assert rest[..|sql|] == sql;
    }
    ExtractedHasNoNul(Parse(name, sql, types));
  }

  const USER: Bytes := AsBytes("user")
  const DATABASE: Bytes := AsBytes("database")

  /** The scan for a NUL that leaves 0 when it finds none. */
  function NulOrZero(b: Bytes): (i: nat)
    ensures b != [] ==> i < |b|
  {
    if NulIndex(b) < |b| then NulIndex(b) else 0
  }

  datatype Startup = Startup(user: Bytes, database: Bytes)

  function Note(s: Startup, key: Bytes, value: Bytes): Startup
  {
    if key == USER then s.(user := value) else if key == DATABASE then s.(database := value) else s
  }

  datatype Pair = Pair(key: Bytes, value: Bytes, rest: Bytes)

  /** One pass of the parameter loop; None is the slice panic of a key whose NUL is the last byte. */
  function NextPair(params: Bytes): (p: Option<Pair>)
    requires |params| > 1
    ensures p.Some? ==> |p.value.rest| <= |params| - 2
  {
    var k := NulOrZero(params);
    var after := params[k + 1..];
    if after == [] then None
    else
      var v := NulOrZero(after);
      Some(Pair(params[..k], after[..v], after[v + 1..]))
  }

  lemma NextPairIff(params: Bytes)
    requires |params| > 1
    ensures NextPair(params).None? <==> NulIndex(params) == |params| - 1
  {
  }

  function StartupLoop(params: Bytes, s: Startup): Option<Startup>
    decreases |params|
  {
    if |params| <= 1 then Some(s)
    else
      match NextPair(params)
      case None => None
      case Some(p) => StartupLoop(p.rest, Note(s, p.key, p.value))
  }

  /** `parseStartupParams`. */
  function StartupParams(msg: Bytes): Option<Startup>
  {
    if |msg| < 8 then Some(Startup([], [])) else StartupLoop(msg[8..], Startup([], []))
  }

  ghost function Nuls(b: Bytes): nat
  {
    if b == [] then 0 else (if b[0] == 0 then 1 else 0) + Nuls(b[1..])
  }

  /** The parameters end in a NUL that closes a key: the byte before it is none, and the number of NULs is odd. */
  ghost predicate EndsInKey(params: Bytes)
  {
    |params| >= 2 && params[|params| - 1] == 0 && params[|params| - 2] != 0 && Nuls(params) % 2 == 1
  }

  lemma {:induction false} NulsSplit(b: Bytes)
    ensures Nuls(b) == if NulIndex(b) < |b| then 1 + Nuls(b[NulIndex(b) + 1..]) else 0
  {
    if b != [] && b[0] != 0 {
      NulsSplit(b[1..]);
      assert NulIndex(b) < |b| ==> b[1..][NulIndex(b)..] == b[NulIndex(b) + 1..];
    }
  }

  /** A scan over bytes that end in NUL takes exactly one NUL along, as its last byte. */
  lemma ScanTakes(b: Bytes, rest: Bytes)
    requires b != [] && b[|b| - 1] == 0 && rest == b[NulOrZero(b) + 1..]
    ensures b[NulOrZero(b)] == 0 && Nuls(rest) == Nuls(b) - 1
  {
    NoNulBefore(b);
    assert b[..|b|] == b;
    NulsSplit(b);
  }

  /** Dropping two NULs, the second as the last byte dropped, leaves the ending as it was. */
  lemma SuffixEnd(params: Bytes, n: nat, rest: Bytes)
    requires 2 <= n <= |params| && rest == params[n..]
    requires params[|params| - 1] == 0 ==> params[n - 1] == 0 && Nuls(rest) == Nuls(params) - 2
    ensures EndsInKey(params) <==> EndsInKey(rest)
  {
    if |rest| >= 2 {
      assert rest[|rest| - 1] == params[|params| - 1] && rest[|rest| - 2] == params[|params| - 2];
    } else if |rest| == 1 {
      assert params[|params| - 2] == params[n - 1];
    } else {
      assert params[|params| - 1] == params[n - 1] && Nuls(rest) == 0;
    }
  }

  lemma DropDrop(b: Bytes, i: nat, j: nat)
    requires i + j < |b|
    ensures b[i..][j] == b[i + j] && b[i..][j + 1..] == b[i + j + 1..] && b[i..][|b| - i - 1] == b[|b| - 1]
  {
  }

  /** Over bytes that end in NUL, the scans of a key and its value take exactly two NULs along. */
  lemma TwoScans(params: Bytes, after: Bytes, rest: Bytes)
    requires params != [] && params[|params| - 1] == 0 && after == params[NulOrZero(params) + 1..]
    requires after != [] && after[|after| - 1] == 0 && rest == after[NulOrZero(after) + 1..]
    ensures after[NulOrZero(after)] == 0 && Nuls(rest) == Nuls(params) - 2
  {
    ScanTakes(params, after);
    ScanTakes(after, rest);
  }

  /** What a pass that stays in range consumes: at least two bytes and, when the last byte is a NUL, two NULs, the
      second as the last byte consumed. */
  lemma PassTakes(params: Bytes, after: Bytes) returns (n: nat)
    requires |params| > 1 && after == params[NulOrZero(params) + 1..] && after != []
    ensures 2 <= n <= |params| && after[NulOrZero(after) + 1..] == params[n..]
    ensures params[|params| - 1] == 0 ==> params[n - 1] == 0 && Nuls(params[n..]) == Nuls(params) - 2
  {
    var k := NulOrZero(params);
    var v := NulOrZero(after);
    n := k + 1 + v + 1;
    DropDrop(params, k + 1, v);
    if params[|params| - 1] == 0 {
      TwoScans(params, after, params[n..]);
    }
  }

  /** A pass that stays in range leaves the ending as it was. */
  lemma PairKeepsEnd(params: Bytes)
    requires |params| > 1
    ensures match NextPair(params)
            case None => EndsInKey(params)
            case Some(p) => EndsInKey(params) <==> EndsInKey(p.rest)
  {
    if NextPair(params).None? {
      NextPairIff(params);
      OnlyNul(params);
    } else {
      var n := PassTakes(params, params[NulOrZero(params) + 1..]);
      SuffixEnd(params, n, params[n..]);
    }
  }

  lemma OnlyNul(params: Bytes)
    requires |params| > 1 && NulIndex(params) == |params| - 1
    ensures EndsInKey(params)
  {
    NulsSplit(params);
    NoNulBefore(params);
    assert params[|params| - 2] in params[..|params| - 1];
  }

  lemma {:induction false} OverrunIff(params: Bytes, s: Startup)
    ensures StartupLoop(params, s).None? <==> EndsInKey(params)
    decreases |params|
  {
    if |params| > 1 {
      PairKeepsEnd(params);
      match NextPair(params)
      case None =>
      case Some(p) => OverrunIff(p.rest, Note(s, p.key, p.value));
    }
  }

  /** `parseStartupParams` slices out of range exactly when the parameters stop after a key. */
  lemma StartupOverrunIff(msg: Bytes)
    ensures StartupParams(msg).None? <==> |msg| >= 8 && EndsInKey(msg[8..])
  {
    if |msg| >= 8 {
      OverrunIff(msg[8..], Startup([], []));
    }
  }

  function Pairs(pairs: seq<(Bytes, Bytes)>): Bytes
  {
    if pairs == [] then [] else pairs[0].0 + [0] + pairs[0].1 + [0] + Pairs(pairs[1..])
  }

  /** The value of the last pair with that key. */
  function LastValue(pairs: seq<(Bytes, Bytes)>, key: Bytes, default: Bytes): Bytes
  {
    if pairs == [] then default
    else if pairs[|pairs| - 1].0 == key then pairs[|pairs| - 1].1
    else LastValue(pairs[..|pairs| - 1], key, default)
  }

  lemma {:induction false} LastValueFirst(pairs: seq<(Bytes, Bytes)>, key: Bytes, default: Bytes)
    requires pairs != []
    ensures LastValue(pairs, key, default) ==
            LastValue(pairs[1..], key, if pairs[0].0 == key then pairs[0].1 else default)
  {
    var n := |pairs| - 1;
    if n > 0 {
      LastValueFirst(pairs[..n], key, default);
      assert pairs[..n][1..] == pairs[1..][..n - 1];
    }
  }

  /** One pass of the loop over a built list. */
  lemma NextPairReads(key: Bytes, value: Bytes, rest: Bytes)
    requires 0 !in key && 0 !in value
    ensures NextPair(key + [0] + value + [0] + rest) == Some(Pair(key, value, rest))
  {
    var params := key + [0] + value + [0] + rest;
    var after := value + [0] + rest;
    assert params == key + [0] + after;
    NulIndexIs(key, after);
    assert params[..|key|] == key && params[|key| + 1..] == after;
    NulIndexIs(value, rest);
    assert after[..|value|] == value && after[|value| + 1..] == rest;
  }

  lemma {:induction false} StartupLoopReads(pairs: seq<(Bytes, Bytes)>, s: Startup)
    requires forall p :: p in pairs ==> 0 !in p.0 && 0 !in p.1
    ensures StartupLoop(Pairs(pairs) + [0], s) ==
            Some(Startup(LastValue(pairs, USER, s.user), LastValue(pairs, DATABASE, s.database)))
  {
    if pairs != [] {
      var (k, v) := pairs[0];
      assert pairs[0] in pairs;
      assert Pairs(pairs) + [0] == k + [0] + v + [0] + (Pairs(pairs[1..]) + [0]);
      NextPairReads(k, v, Pairs(pairs[1..]) + [0]);
      StartupLoopReads(pairs[1..], Note(s, k, v));
      LastValueFirst(pairs, USER, s.user);
      LastValueFirst(pairs, DATABASE, s.database);
    }
  }

  lemma AfterHeader(length: int, version: int, params: Bytes)
    ensures StartupParams(U32(length) + (U32(version) + params)) == StartupLoop(params, Startup([], []))
  {
    var m := U32(length) + (U32(version) + params);
    assert m[8..] == params;
  }

  /** Such messages exist: any key alone. */
  lemma LoneKeyOverruns(length: int, version: int, key: Bytes)
    requires key != [] && 0 !in key
    ensures StartupParams(U32(length) + (U32(version) + (key + [0]))).None?
  {
    AfterHeader(length, version, key + [0]);
    NulIndexIs(key, []);
    assert key + [0] + [] == key + [0];
    OnlyNul(key + [0]);
    OverrunIff(key + [0], Startup([], []));
  }

  /** Parsing a built startup message stays in bounds and returns the last user and database given. */
  lemma StartupRoundTrip(length: int, version: int, pairs: seq<(Bytes, Bytes)>)
    requires forall p :: p in pairs ==> 0 !in p.0 && 0 !in p.1
    ensures StartupParams(U32(length) + (U32(version) + (Pairs(pairs) + [0]))) ==
            Some(Startup(LastValue(pairs, AsBytes("user"), []), LastValue(pairs, AsBytes("database"), [])))
  {
    AfterHeader(length, version, Pairs(pairs) + [0]);
    StartupLoopReads(pairs, Startup([], []));
  }
}
