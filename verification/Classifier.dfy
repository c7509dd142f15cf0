/**
 * `internal/proxy/classifier.go`: the comment stripper, the first token and the classification,
 * over ASCII text, and the comment grammar they are measured against
 * (PostgreSQL 16 documentation, section 4.1.5).
 */
module Classifier {
  import opened Seqs
  import opened Ascii

  datatype QueryType = Read | Write | Transaction

  // ------------------------------------------------------------------ scanning

  function NewlineIndex(s: string): (i: nat)
    ensures i <= |s| && (i < |s| ==> s[i] == '\n')
  {
    if s == "" || s[0] == '\n' then 0 else 1 + NewlineIndex(s[1..])
  }

  predicate Opens(s: string) { |s| >= 2 && s[0] == '/' && s[1] == '*' }
  predicate Closes(s: string) { |s| >= 2 && s[0] == '*' && s[1] == '/' }
  predicate Dashes(s: string) { |s| >= 2 && s[0] == '-' && s[1] == '-' }

  /** The depth-counting scan: what is left once the depth is back to zero, or, when the comment never
      closes, the last byte or nothing. */
  function Skip(s: string, depth: int): (rest: string)
    ensures |rest| <= |s|
    ensures Opens(s) ==> |rest| <= |s| - 2
  {
    if |s| < 2 then s
    else if Opens(s) then Skip(s[2..], depth + 1)
    else if Closes(s) then (if depth == 1 then s[2..] else Skip(s[2..], depth - 1))
    else Skip(s[1..], depth)
  }

  /** `stripLeadingComments`. */
  function Strip(sql: string): string
    decreases |sql|
  {
    var s := TrimSpace(sql);
    if Dashes(s) then
      var i := NewlineIndex(s);
      if i == |s| then "" else Strip(s[i + 1..])
    else if Opens(s) then Strip(Skip(s, 0))
    else s
  }

  /** The loops of the source: the outer one trims and drops a comment, the inner one counts depth. */
  method StripLeadingComments(input: string) returns (sql: string)
    ensures sql == Strip(input)
  {
    sql := input;
    while true
      invariant Strip(sql) == Strip(input)
      decreases |sql|
    {
      sql := TrimSpace(sql);
      if Dashes(sql) {
        var idx := NewlineIndex(sql);
        if idx == |sql| {
          return "";
        }
        sql := sql[idx + 1..];
        continue;
      }
      if Opens(sql) {
        var depth := 0;
        var i := 0;
        while i < |sql| - 1 && !(i > 0 && depth == 0)
          invariant 0 <= i <= |sql| && depth >= 0
          invariant i == 0 ==> depth == 0 && Opens(sql)
          invariant i > 0 && depth == 0 ==> sql[i..] == Skip(sql, 0)
          invariant i == 0 || depth > 0 ==> Skip(sql[i..], depth) == Skip(sql, 0)
          decreases |sql| - i
        {
          assert sql[i..][2..] == sql[i + 2..] && sql[i..][1..] == sql[i + 1..];
          if sql[i] == '/' && sql[i + 1] == '*' {
            depth := depth + 1;
            i := i + 2;
          } else if sql[i] == '*' && sql[i + 1] == '/' {
            depth := depth - 1;
            i := i + 2;
          } else {
            i := i + 1;
          }
        }
        assert sql[i..] == Skip(sql, 0);
        sql := sql[i..];
        continue;
      }
      return;
    }
  }

  // -------------------------------------------------------------- the grammar

  /** The inside of a block comment: characters and nested comments. */
  datatype Body = Done | Chr(c: char, rest: Body) | Nest(inner: Body, rest: Body)

  function Text(b: Body): string
  {
    match b
    case Done => ""
    case Chr(c, rest) => [c] + Text(rest)
    case Nest(inner, rest) => "/*" + Text(inner) + "*/" + Text(rest)
  }

  /** A character of the text never forms a comment mark with the one after it. */
  predicate Wf(b: Body)
  {
    match b
    case Done => true
    case Chr(c, rest) =>
      var next := (Text(rest) + "*/")[0];
      !(c == '/' && next == '*') && !(c == '*' && next == '/') && Wf(rest)
    case Nest(inner, rest) => Wf(inner) && Wf(rest)
  }

  datatype Item = Blank(c: char) | Line(text: string) | Block(body: Body)

  function ItemText(i: Item): string
  {
    match i
    case Blank(c) => [c]
    case Line(text) => "--" + text + "\n"
    case Block(body) => "/*" + Text(body) + "*/"
  }

  predicate ItemOk(i: Item)
  {
    match i
    case Blank(c) => c in BLANKS
    case Line(text) => '\n' !in text
    case Block(body) => Wf(body)
  }

  function Prefix(items: seq<Item>): string
  {
    if items == [] then "" else ItemText(items[0]) + Prefix(items[1..])
  }

  ghost predicate AllOk(items: seq<Item>)
  {
    forall i :: i in items ==> ItemOk(i)
  }

  // --------------------------------------------- the scanner skips the grammar

  /** A character that forms no mark with the one after it is skipped alone. */
  lemma ChrSkipped(c: char, rest: string, depth: int, s: string)
    requires var next := (rest + "*/")[0]; !(c == '/' && next == '*') && !(c == '*' && next == '/')
    ensures Skip([c] + rest + "*/" + s, depth) == Skip(rest + "*/" + s, depth)
    ensures Closed([c] + rest + "*/" + s, depth) <==> Closed(rest + "*/" + s, depth)
  {
    var t := [c] + rest + "*/" + s;
    assert t[0] == c && t[1..] == rest + "*/" + s && t[1] == (rest + "*/")[0];
  }

  lemma NestSkipped(inner: string, rest: string, depth: int, s: string)
    ensures var t := "/*" + inner + "*/" + rest + "*/" + s;
            && Skip(t, depth) == Skip(inner + "*/" + (rest + "*/" + s), depth + 1)
            && (Closed(t, depth) <==> Closed(inner + "*/" + (rest + "*/" + s), depth + 1))
  {
    NestedText(inner, rest, s);
  }

  /** From inside `depth` comments, a well-formed body and its closing mark are skipped exactly. */
  lemma {:induction false} BodySkipped(b: Body, depth: int, s: string)
    requires Wf(b) && depth >= 1
    ensures Skip(Text(b) + "*/" + s, depth) == if depth == 1 then s else Skip(s, depth - 1)
    decreases b
  {
    match b
    case Done =>
      var t := Text(b) + "*/" + s;
      assert Closes(t) && t[2..] == s;
    case Chr(c, rest) =>
      ChrSkipped(c, Text(rest), depth, s);
      BodySkipped(rest, depth, s);
    case Nest(inner, rest) =>
      NestSkipped(Text(inner), Text(rest), depth, s);
      BodySkipped(inner, depth + 1, Text(rest) + "*/" + s);
      BodySkipped(rest, depth, s);
  }

  lemma NestedText(inner: string, rest: string, s: string)
    ensures var t := ("/*" + inner + "*/" + rest) + "*/" + s;
            Opens(t) && t[2..] == inner + "*/" + (rest + "*/" + s)
  {
  }

  /** Stripping with the right end already trimmed. */
  function StripLeft(sql: string): string
    decreases |sql|
  {
    var s := TrimLeft(sql);
    if Dashes(s) then
      var i := NewlineIndex(s);
      if i == |s| then "" else StripLeft(s[i + 1..])
    else if Opens(s) then StripLeft(Skip(s, 0))
    else s
  }

  lemma {:induction false} SkipIsSuffix(s: string, depth: int) returns (k: nat)
    ensures k <= |s| && Skip(s, depth) == s[k..]
    decreases |s|
  {
    if |s| < 2 {
      k := 0;
    } else if Opens(s) {
      var j := SkipIsSuffix(s[2..], depth + 1);
      k := j + 2;
    } else if Closes(s) {
      if depth == 1 {
        k := 2;
      } else {
        var j := SkipIsSuffix(s[2..], depth - 1);
        k := j + 2;
      }
    } else {
      var j := SkipIsSuffix(s[1..], depth);
      k := j + 1;
    }
  }

  /** Only the first pass trims on the right. */
  lemma {:induction false} StripIsStripLeft(sql: string)
    requires RightTrimmed(sql)
    ensures Strip(sql) == StripLeft(sql)
    decreases |sql|
  {
    assert TrimRight(sql) == sql;
    var k := TrimLeftIsSuffix(sql);
    var s := TrimLeft(sql);
    if Dashes(s) {
      var i := NewlineIndex(s);
      if i < |s| {
        StripIsStripLeft(s[i + 1..]);
      }
    } else if Opens(s) {
      var j := SkipIsSuffix(s, 0);
      StripIsStripLeft(Skip(s, 0));
    }
  }

  lemma StripTrimsFirst(sql: string)
    ensures Strip(sql) == StripLeft(TrimRight(sql))
  {
    TrimRightIdempotent(sql);
    StripIsStripLeft(TrimRight(sql));
  }

  lemma {:induction false} NewlineAfter(text: string, rest: string)
    requires '\n' !in text
    ensures NewlineIndex(text + "\n" + rest) == |text|
  {
    if text != "" {
      NewlineAfter(text[1..], rest);
      assert (text + "\n" + rest)[1..] == text[1..] + "\n" + rest;
    }
  }

  lemma {:induction false} NoNewline(s: string)
    requires '\n' !in s
    ensures NewlineIndex(s) == |s|
  {
    if s != "" {
      NoNewline(s[1..]);
    }
  }

  lemma LineStripped(text: string, y: string)
    requires '\n' !in text
    ensures StripLeft("--" + text + "\n" + y) == StripLeft(y)
  {
    var s := "--" + text + "\n" + y;
    NewlineAfter("--" + text, y);
    assert s[|text| + 3..] == y;
  }

  lemma TrimmedLine(text: string)
    requires '\n' !in text
    ensures var t := TrimRight("--" + text + "\n"); Dashes(t) && '\n' !in t
  {
    TrimRightAppend("--" + text, "\n");
    TrimRightAppend("--", text);
    assert TrimRight("\n") == "" by {
      assert "\n"[..0] == "";
    }
    assert TrimRight("--") == "--";
    TrimRightShrinks(text);
  }

  /** A line comment at the very end loses its newline to the trim and is dropped whole. */
  lemma LastLineStripped(text: string)
    requires '\n' !in text
    ensures StripLeft(TrimRight("--" + text + "\n")) == ""
  {
    TrimmedLine(text);
    NoNewline(TrimRight("--" + text + "\n"));
  }

  lemma BlockStripped(body: Body, y: string)
    requires Wf(body)
    ensures StripLeft("/*" + Text(body) + "*/" + y) == StripLeft(y)
    ensures TrimRight("/*" + Text(body) + "*/") == "/*" + Text(body) + "*/"
  {
    var s := "/*" + Text(body) + "*/" + y;
    assert Opens(s) && s[2..] == Text(body) + "*/" + y;
    BodySkipped(body, 1, y);
  }

  lemma BlankStripped(c: char, y: string)
    requires c in BLANKS
    ensures StripLeft([c] + y) == StripLeft(y)
    ensures TrimRight([c]) == "" && StripLeft("") == ""
  {
    assert ([c] + y)[1..] == y && [c][..0] == "";
  }

  /** One item in front of a text with no blanks at its end changes nothing, */
  lemma ItemBeforeText(item: Item, y: string)
    requires ItemOk(item)
    ensures StripLeft(ItemText(item) + y) == StripLeft(y)
  {
    match item
    case Blank(c) => BlankStripped(c, y);
    case Line(text) => LineStripped(text, y);
    case Block(body) => BlockStripped(body, y);
  }

  /** and at the end of the text it is dropped, */
  lemma ItemAtEnd(item: Item)
    requires ItemOk(item)
    ensures StripLeft(TrimRight(ItemText(item))) == StripLeft("")
  {
    match item
    case Blank(c) => BlankStripped(c, "");
    case Line(text) => LastLineStripped(text);
    case Block(body) =>
      BlockStripped(body, "");
      assert "/*" + Text(body) + "*/" + "" == "/*" + Text(body) + "*/";
  }

  /** so one item of the grammar in front changes nothing. */
  lemma ItemStripped(item: Item, x: string)
    requires ItemOk(item)
    ensures Strip(ItemText(item) + x) == Strip(x)
  {
    StripTrimsFirst(ItemText(item) + x);
    StripTrimsFirst(x);
    TrimRightAppend(ItemText(item), x);
    ItemBeforeText(item, TrimRight(x));
    ItemAtEnd(item);
  }

  lemma PrefixSplit(items: seq<Item>, s: string)
    requires items != []
    ensures Prefix(items) + s == ItemText(items[0]) + (Prefix(items[1..]) + s)
  {
    Assoc(ItemText(items[0]), Prefix(items[1..]), s);
  }

  /** For every prefix of blanks, line comments and well-nested block comments, stripping the
      whole text gives what stripping the text after it gives. */
  lemma {:induction false} PrefixStripped(items: seq<Item>, s: string)
    requires AllOk(items)
    ensures Strip(Prefix(items) + s) == Strip(s)
  {
    if items == [] {
      assert Prefix(items) + s == s;
    } else {
      PrefixStripped(items[1..], s);
      PrefixSplit(items, s);
      ItemStripped(items[0], Prefix(items[1..]) + s);
    }
  }

  // ---------------------------------------------- and nothing but the grammar

  /** The comment that `s` is inside of, at this depth, does close. */
  predicate Closed(s: string, depth: int)
  {
    if |s| < 2 then false
    else if Opens(s) then Closed(s[2..], depth + 1)
    else if Closes(s) then depth == 1 || Closed(s[2..], depth - 1)
    else Closed(s[1..], depth)
  }

  lemma NestJoin(inner: string, after: string, r: string)
    ensures "/*" + (inner + "*/" + (after + "*/" + r)) == ("/*" + inner + "*/" + after) + "*/" + r
  {
  }

  lemma ChrJoin(c: char, after: string, r: string)
    ensures [c] + (after + "*/" + r) == ([c] + after) + "*/" + r
  {
  }

  /** What the scanner skips up to the next unmatched closing mark is a well-formed body. */
  lemma {:induction false} SkippedIsBody(s: string, depth: int) returns (b: Body, rest: string)
    requires Closed(s, depth) && depth >= 1
    ensures Wf(b) && s == Text(b) + "*/" + rest && |rest| < |s|
    ensures if depth == 1 then rest == Skip(s, 1)
            else Closed(rest, depth - 1) && Skip(rest, depth - 1) == Skip(s, depth)
    decreases |s|
  {
    if Opens(s) {
      var inner, mid := SkippedIsBody(s[2..], depth + 1);
      var after, r := SkippedIsBody(mid, depth);
      b, rest := Nest(inner, after), r;
      assert s == "/*" + s[2..];
      NestJoin(Text(inner), Text(after), r);
    } else if Closes(s) {
      b, rest := Done, s[2..];
    } else {
      var after, r := SkippedIsBody(s[1..], depth);
      b, rest := Chr(s[0], after), r;
      assert s == [s[0]] + s[1..];
      ChrJoin(s[0], Text(after), r);
      assert s[1] == (Text(after) + "*/")[0];
    }
  }

  /** The converse: the mark after a well-formed body closes the comment. */
  lemma {:induction false} BodyCloses(b: Body, depth: int, s: string)
    requires Wf(b) && depth >= 1
    ensures Closed(Text(b) + "*/" + s, depth) <==> depth == 1 || Closed(s, depth - 1)
    decreases b
  {
    match b
    case Done =>
      var t := Text(b) + "*/" + s;
      assert Closes(t) && t[2..] == s;
    case Chr(c, rest) =>
      ChrSkipped(c, Text(rest), depth, s);
      BodyCloses(rest, depth, s);
    case Nest(inner, rest) =>
      NestSkipped(Text(inner), Text(rest), depth, s);
      BodyCloses(inner, depth + 1, Text(rest) + "*/" + s);
      BodyCloses(rest, depth, s);
  }

  /** The scan finds the end of a comment exactly when the grammar does. */
  lemma ClosedIff(s: string)
    ensures Closed(s, 1) <==> exists b, rest :: Wf(b) && s == Text(b) + "*/" + rest
  {
    if Closed(s, 1) {
      var b, rest := SkippedIsBody(s, 1);
    }
    forall b, rest | Wf(b) && s == Text(b) + "*/" + rest
      ensures Closed(s, 1)
    {
      BodyCloses(b, 1, rest);
    }
  }

  lemma {:induction false} UnclosedSkip(s: string, depth: int)
    requires !Closed(s, depth) && depth >= 1
    ensures |Skip(s, depth)| <= 1
    decreases |s|
  {
    if |s| >= 2 {
      if Opens(s) {
        UnclosedSkip(s[2..], depth + 1);
      } else if Closes(s) {
        UnclosedSkip(s[2..], depth - 1);
      } else {
        UnclosedSkip(s[1..], depth);
      }
    }
  }

  ghost predicate StartsWith(item: Item, s: string)
  {
    ItemOk(item) && ItemText(item) <= s
  }

  /** A comment that starts and never ends: no comment of the grammar stands at the front. */
  ghost predicate Unterminated(s: string)
  {
    (Dashes(s) || Opens(s)) && !exists item :: StartsWith(item, s)
  }

  /** Such a comment is dropped up to its last byte at most. */
  lemma UnterminatedStripped(s: string)
    requires Unterminated(s)
    ensures |StripLeft(s)| <= 1
  {
    if Dashes(s) {
      if NewlineIndex(s) < |s| {
        var text, rest := FirstLine(s);
        assert StartsWith(Line(text), s);
      }
    } else {
      if Closed(s[2..], 1) {
        var b, rest := FirstBlock(s);
        assert StartsWith(Block(b), s);
      }
      UnclosedSkip(s[2..], 1);
    }
  }

  predicate Settled(s: string)
  {
    s == "" || (s[0] !in BLANKS && !Dashes(s) && !Opens(s))
  }

  lemma {:induction false} BeforeNewline(s: string)
    ensures '\n' !in s[..NewlineIndex(s)]
  {
    if s != "" && s[0] != '\n' {
      BeforeNewline(s[1..]);
      assert s[..NewlineIndex(s)] == [s[0]] + s[1..][..NewlineIndex(s[1..])];
    }
  }

  lemma FirstLine(s: string) returns (text: string, rest: string)
    requires Dashes(s) && NewlineIndex(s) < |s|
    ensures '\n' !in text && s == "--" + text + "\n" + rest
  {
    var i := NewlineIndex(s);
    BeforeNewline(s);
    text, rest := s[2..i], s[i + 1..];
    assert s[..i] == "--" + text;
    assert s == s[..i] + "\n" + rest;
  }

  lemma FirstBlock(s: string) returns (b: Body, rest: string)
    requires Opens(s) && Closed(s[2..], 1)
    ensures Wf(b) && s == "/*" + Text(b) + "*/" + rest
  {
    b, rest := SkippedIsBody(s[2..], 1);
    assert s == "/*" + s[2..];
  }

  /** A comment of the grammar at the front is stripped. */
  lemma CommentStripped(item: Item, rest: string)
    requires ItemOk(item) && !item.Blank?
    ensures StripLeft(ItemText(item) + rest) == StripLeft(rest)
  {
    match item
    case Line(text) => LineStripped(text, rest);
    case Block(body) => BlockStripped(body, rest);
  }

  lemma FirstComment(s: string) returns (item: Item, rest: string)
    requires exists i :: StartsWith(i, s)
    requires s != "" && !IsSpace(s[0])
    ensures ItemOk(item) && !item.Blank? && s == ItemText(item) + rest && |rest| < |s|
  {
    item :| StartsWith(item, s);
    rest := s[|ItemText(item)|..];
    assert |ItemText(item)| > 0 && ItemText(item)[0] == s[0];
  }

  /** The item at the front of a text that starts with a blank or a terminated comment. */
  lemma FirstItem(s: string) returns (item: Item, rest: string)
    requires !Settled(s) && !Unterminated(s)
    ensures ItemOk(item) && s == ItemText(item) + rest && |rest| < |s|
    ensures StripLeft(s) == StripLeft(rest)
  {
    if IsSpace(s[0]) {
      item, rest := Blank(s[0]), s[1..];
    } else {
      item, rest := FirstComment(s);
      CommentStripped(item, rest);
    }
  }

  lemma GrammarCons(item: Item, more: seq<Item>, tail: string, rest: string)
    requires ItemOk(item) && AllOk(more) && tail == Prefix(more) + rest
    ensures AllOk([item] + more) && ItemText(item) + tail == Prefix([item] + more) + rest
  {
    assert ([item] + more)[1..] == more;
    PrefixSplit([item] + more, rest);
  }

  lemma {:induction false} StripLeftIsGrammatical(s: string) returns (items: seq<Item>, rest: string)
    ensures AllOk(items) && s == Prefix(items) + rest
    ensures if Unterminated(rest) then |StripLeft(s)| <= 1 else Settled(rest) && StripLeft(s) == rest
    decreases |s|
  {
    if Unterminated(s) {
      items, rest := [], s;
      UnterminatedStripped(s);
    } else if Settled(s) {
      items, rest := [], s;
      SettledStays(s);
    } else {
      var item, tail := FirstItem(s);
      var more, r := StripLeftIsGrammatical(tail);
      GrammarCons(item, more, tail, r);
      items, rest := [item] + more, r;
    }
  }

  lemma SettledStays(s: string)
    requires Settled(s)
    ensures StripLeft(s) == s
  {
  }

  /** The converse: what stripping removes is always such a prefix. Every text, once its trailing blanks are gone, is
      a grammatical prefix followed either by the result, which starts no comment, or by a comment that never ends, of
      which at most one byte is left. */
  lemma StripIsGrammatical(s: string) returns (items: seq<Item>, rest: string)
    ensures AllOk(items) && TrimRight(s) == Prefix(items) + rest
    ensures if Unterminated(rest) then |Strip(s)| <= 1 else Settled(rest) && Strip(s) == rest
  {
    items, rest := StripLeftIsGrammatical(TrimRight(s));
    StripTrimsFirst(s);
  }

  /** The result of stripping is settled at both ends, so stripping again changes nothing. */
  lemma {:induction false} StripSettles(s: string)
    ensures Settled(Strip(s)) && RightTrimmed(Strip(s))
    ensures Strip(Strip(s)) == Strip(s)
    decreases |s|
  {
    var t := TrimSpace(s);
    TrimRightIdempotent(s);
    var k := TrimLeftIsSuffix(TrimRight(s));
    if Dashes(t) {
      var i := NewlineIndex(t);
      if i < |t| {
        StripSettles(t[i + 1..]);
      }
    } else if Opens(t) {
      StripSettles(Skip(t, 0));
    }
    var r := Strip(s);
    assert Settled(r) && RightTrimmed(r);
    assert TrimRight(r) == r && TrimLeft(r) == r;
  }

  // ------------------------------------------------------------ classification

  predicate Delimits(c: char)
  {
    c == ' ' || c == '\t' || c == '\n' || c == '\r' || c == '('
  }

  function TokenEnd(s: string): (i: nat)
    ensures i <= |s| && (i < |s| ==> Delimits(s[i]))
    ensures forall j :: 0 <= j < i ==> !Delimits(s[j])
  {
    if s == "" || Delimits(s[0]) then 0 else 1 + TokenEnd(s[1..])
  }

  function FirstToken(s: string): string { s[..TokenEnd(s)] }

  method FindFirstToken(s: string) returns (t: string)
    ensures t == FirstToken(s)
  {
    for i := 0 to |s|
      invariant forall j :: 0 <= j < i ==> !Delimits(s[j])
    {
      if Delimits(s[i]) {
        assert TokenEnd(s) == i;
        return s[..i];
      }
    }
    assert TokenEnd(s) == |s|;
    t := s;
  }

  predicate Contains(s: string, sub: string)
  {
    |sub| <= |s| && (s[..|sub|] == sub || (s != "" && Contains(s[1..], sub)))
  }

  ghost predicate StandsAt(s: string, sub: string, i: int)
  {
    0 <= i <= |s| - |sub| && s[i..i + |sub|] == sub
  }

  lemma {:induction false} ContainsIff(s: string, sub: string)
    ensures Contains(s, sub) <==> exists i :: StandsAt(s, sub, i)
  {
    if |sub| <= |s| && s[..|sub|] == sub {
      assert StandsAt(s, sub, 0);
    } else if s != "" {
      ContainsIff(s[1..], sub);
      forall i | 1 <= i
        ensures StandsAt(s, sub, i) <==> StandsAt(s[1..], sub, i - 1)
      {
        if i <= |s| - |sub| {
          assert s[1..][i - 1..i - 1 + |sub|] == s[i..i + |sub|];
        }
      }
      if j :| StandsAt(s[1..], sub, j) {
        assert StandsAt(s, sub, j + 1);
      }
    }
  }

  const READS: set<string> := {"SELECT", "SHOW", "EXPLAIN", "SET", "RESET", "DISCARD"}
  const OPENING: set<string> := {"BEGIN", "START"}
  const CLOSING: set<string> := {"COMMIT", "END", "ROLLBACK"}
  const KEEPING: set<string> := {"SAVEPOINT", "RELEASE"}

  /** What `ClassifyQuery` looks at. */
  function Bare(sql: string): string { TrimSpace(Strip(TrimSpace(sql))) }

  function ClassifyQuery(sql: string): QueryType
  {
    var s := Bare(sql);
    if s == "" then Read
    else
      var word := Upper(FirstToken(s));
      if word in READS then Read
      else if word in OPENING || word in CLOSING || word in KEEPING then Transaction
      else if word == "COPY" then (if Contains(Upper(s), " TO ") then Read else Write)
      else Write
  }

  lemma {:induction false} StripTrimmed(sql: string)
    ensures Strip(TrimSpace(sql)) == Strip(sql)
  {
    TrimRightIdempotent(sql);
    var t := TrimRight(sql);
    var k := TrimLeftIsSuffix(t);
    var u := TrimLeft(t);
    assert RightTrimmed(u);
    assert TrimRight(u) == u && TrimLeft(u) == u;
  }

  lemma SettledTrims(s: string)
    requires Settled(s) && RightTrimmed(s)
    ensures TrimSpace(s) == s
  {
  }

  /** The trims around the stripper change nothing. */
  lemma BareIsStrip(sql: string)
    ensures Bare(sql) == Strip(sql)
  {
    StripTrimmed(sql);
    StripSettles(sql);
    SettledTrims(Strip(sql));
  }

  /** Comments and blanks in front of a statement never change how it is classified. */
  lemma CommentsDoNotMatter(items: seq<Item>, s: string)
    requires AllOk(items)
    ensures ClassifyQuery(Prefix(items) + s) == ClassifyQuery(s)
  {
    PrefixStripped(items, s);
    BareIsStrip(s);
    BareIsStrip(Prefix(items) + s);
  }
}
