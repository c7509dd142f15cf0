/**
 * `quoteIdent` of `internal/cdc/snapshot.go` against a reader of quoted identifiers
 * (PostgreSQL 16 documentation, section 4.1.1).
 */
module Ident {
  import opened Wrappers
  import opened Seqs

  function DoubledChar(c: char): string { if c == '"' then "\"\"" else [c] }

  /** `strings.ReplaceAll(name, "\"", "\"\"")`. */
  function Doubled(name: string): string
  {
    if name == "" then "" else DoubledChar(name[0]) + Doubled(name[1..])
  }

  function QuoteIdent(name: string): string { "\"" + Doubled(name) + "\"" }

  datatype Lexed = Lexed(name: string, rest: string)

  function Cons(c: char, l: Option<Lexed>): Option<Lexed>
  {
    match l
    case None => None
    case Some(x) => Some(Lexed([c] + x.name, x.rest))
  }

  /** After the opening quote: a doubled quote stands for one, a single one ends the name. */
  function LexBody(s: string): Option<Lexed>
  {
    if s == "" then None
    else if s[0] != '"' then Cons(s[0], LexBody(s[1..]))
    else if |s| >= 2 && s[1] == '"' then Cons('"', LexBody(s[2..]))
    else Some(Lexed("", s[1..]))
  }

  function LexIdent(s: string): Option<Lexed>
  {
    if s == "" || s[0] != '"' then None else LexBody(s[1..])
  }

  lemma {:induction false} BodyReadBack(name: string, rest: string)
    requires rest == "" || rest[0] != '"'
    ensures LexBody(Doubled(name) + "\"" + rest) == Some(Lexed(name, rest))
  {
    var s := Doubled(name) + "\"" + rest;
    if name == "" {
      assert s[1..] == rest;
    } else {
      BodyReadBack(name[1..], rest);
      var tail := Doubled(name[1..]) + "\"" + rest;
      assert s == DoubledChar(name[0]) + tail;
      assert [name[0]] + name[1..] == name;
      if name[0] == '"' {
        assert s[2..] == tail;
      } else {
        assert s[1..] == tail;
      }
    }
  }

  lemma DoubledCons(c: char, name: string, rest: string)
    ensures Doubled([c] + name) + "\"" + rest == DoubledChar(c) + (Doubled(name) + "\"" + rest)
  {
    assert ([c] + name)[1..] == name;
    Assoc(DoubledChar(c), Doubled(name), "\"");
    Assoc(DoubledChar(c), Doubled(name) + "\"", rest);
  }

  /** What the reader accepts is a quoted name followed by text that does not continue it. */
  lemma {:induction false} BodyIsDoubled(s: string)
    requires LexBody(s).Some?
    ensures var l := LexBody(s).value;
            s == Doubled(l.name) + "\"" + l.rest && (l.rest == "" || l.rest[0] != '"')
    decreases |s|
  {
    if s[0] != '"' {
      BodyIsDoubled(s[1..]);
      var l := LexBody(s[1..]).value;
      DoubledCons(s[0], l.name, l.rest);
      assert s == [s[0]] + s[1..];
    } else if |s| >= 2 && s[1] == '"' {
      BodyIsDoubled(s[2..]);
      var l := LexBody(s[2..]).value;
      DoubledCons('"', l.name, l.rest);
      assert s == "\"\"" + s[2..];
    }
  }

  /** A quoted name is read back exactly, together with the text after it, if and only if that
      text does not begin with a quote. */
  lemma QuoteRoundTrip(name: string, rest: string)
    ensures LexIdent(QuoteIdent(name) + rest) == Some(Lexed(name, rest)) <==> (rest == "" || rest[0] != '"')
  {
    var s := QuoteIdent(name) + rest;
    assert s[1..] == Doubled(name) + "\"" + rest;
    if rest == "" || rest[0] != '"' {
      BodyReadBack(name, rest);
    } else if LexBody(s[1..]).Some? {
      BodyIsDoubled(s[1..]);
    }
  }

  /** The reader accepts nothing but quoted names. */
  lemma OnlyQuotedNames(s: string)
    requires LexIdent(s).Some?
    ensures s == QuoteIdent(LexIdent(s).value.name) + LexIdent(s).value.rest
  {
    BodyIsDoubled(s[1..]);
    assert s == "\"" + s[1..];
    Assoc("\"", Doubled(LexIdent(s).value.name) + "\"", LexIdent(s).value.rest);
    Assoc("\"", Doubled(LexIdent(s).value.name), "\"");
  }

  /** So quoting is injective. */
  lemma QuoteInjective(a: string, b: string)
    requires QuoteIdent(a) == QuoteIdent(b)
    ensures a == b
  {
    QuoteRoundTrip(a, "");
    QuoteRoundTrip(b, "");
    assert QuoteIdent(a) + "" == QuoteIdent(b) + "";
  }
}
