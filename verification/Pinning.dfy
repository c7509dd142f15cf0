/**
 * What the session promises: the transaction rule stated at `internal/proxy/proxy.go`, lines 40-42, as a
 * reference automaton over SQL keywords; exactly which statements the code handles as the
 * automaton does; and the status and shape of every reply.
 */
module Pinning {
  import opened Wrappers
  import opened Seqs
  import opened Ascii
  import opened Wire
  import opened Classifier
  import opened Session

  // ------------------------------------------------------------- the reference

  /** A character that continues a keyword or identifier. */
  predicate WordChar(c: char)
  {
    'a' <= c <= 'z' || 'A' <= c <= 'Z' || '0' <= c <= '9' || c == '_' || c == '$' || c >= '\U{80}'
  }

  function WordEnd(s: string): (i: nat)
    ensures i <= |s| && (i < |s| ==> !WordChar(s[i]))
    ensures forall j :: 0 <= j < i ==> WordChar(s[j])
  {
    if s == "" || !WordChar(s[0]) then 0 else 1 + WordEnd(s[1..])
  }

  /** The first word of a statement, after blanks and comments. */
  function Keyword(sql: string): string
  {
    Bare(sql)[..WordEnd(Bare(sql))]
  }

  datatype Kind = Opening | Closing | Keeping | Plain

  // The words of the rule, written out here so that the code's own lists are measured against them.
  const BEGINS: set<string> := {"BEGIN", "START"}
  const ENDS: set<string> := {"COMMIT", "END", "ROLLBACK"}
  const SAVES: set<string> := {"SAVEPOINT", "RELEASE"}
  const READ_WORDS: set<string> := {"SELECT", "SHOW", "EXPLAIN", "SET", "RESET", "DISCARD"}

  /** The words that end a transaction: those the code knows, and PostgreSQL's other word for ROLLBACK. */
  const ENDING: set<string> := ENDS + {"ABORT"}

  function Word(sql: string): string { Upper(Keyword(sql)) }

  function KindOf(sql: string): Kind
  {
    var w := Word(sql);
    if w in BEGINS then Opening else if w in ENDING then Closing else if w in SAVES then Keeping else Plain
  }

  /** BEGIN and START open, COMMIT, END, ROLLBACK and ABORT close, everything else leaves the transaction as it is. */
  function KindPin(pinned: bool, kind: Kind): bool
  {
    match kind
    case Opening => true
    case Closing => false
    case _ => pinned
  }

  function RefPin(pinned: bool, sql: string): bool { KindPin(pinned, KindOf(sql)) }

  /** TO stands in the statement as a word between blanks. */
  ghost predicate BlankTo(sql: string)
  {
    var text := Upper(Bare(sql));
    exists i :: 0 <= i <= |text| - 4 && text[i] in BLANKS && text[i + 1..i + 3] == "TO" && text[i + 3] in BLANKS
  }

  /** An empty statement, one of the reading words, or COPY ... TO. */
  ghost predicate RefReads(sql: string)
  {
    Bare(sql) == "" || Word(sql) in READ_WORDS || (Word(sql) == "COPY" && BlankTo(sql))
  }

  /** In a transaction the primary; otherwise reads go to the replica. */
  ghost function RefRoute(pinned: bool, sql: string): Pool
  {
    if !pinned && RefReads(sql) then Replica else Primary
  }

  // ------------------------------------------------- where code and rule agree

  /** The keyword stands alone: the text ends after it, or a blank or an opening parenthesis follows. */
  predicate Unglued(sql: string)
  {
    var text := Bare(sql);
    var e := WordEnd(text);
    e == |text| || text[e] in {' ', '\t', '\n', '\r', '('}
  }

  /** Then, and only then, the code's token is the keyword. */
  lemma UngluedIff(sql: string)
    ensures Unglued(sql) <==> FirstToken(Bare(sql)) == Keyword(sql)
  {
    var text := Bare(sql);
    assert |FirstToken(text)| == TokenEnd(text) && |Keyword(sql)| == WordEnd(text);
    if Unglued(sql) {
      TokenEndIs(text, WordEnd(text));
    }
  }

  /** Checkable on the text alone: BEGIN or START stands first, in all capitals or all small letters; COMMIT, END and
      ROLLBACK have nothing glued to them; SAVEPOINT and RELEASE do; ABORT does not stand first. */
  predicate Faithful(sql: string)
  {
    match KindOf(sql)
    case Opening => FirstToken(sql) in {"BEGIN", "START", "begin", "start"}
    case Closing => Word(sql) in ENDS && Unglued(sql)
    case Keeping => !Unglued(sql)
    case Plain => true
  }

  /** TO between two spaces, which is all the code looks for. */
  ghost predicate SpacedTo(sql: string)
  {
    var text := Upper(Bare(sql));
    exists i :: StandsAt(text, " TO ", i)
  }

  /** The code sees that a statement reads: it is empty, or its reading word has nothing glued to it, and TO follows
      COPY between two spaces. */
  ghost predicate SeenReading(sql: string)
  {
    || Bare(sql) == ""
    || (Unglued(sql) && (Word(sql) in READ_WORDS || (Word(sql) == "COPY" && SpacedTo(sql))))
  }

  predicate ControlWord(w: string) { w in BEGINS || w in ENDS || w in SAVES }

  predicate KnownWord(w: string) { ControlWord(w) || w in READ_WORDS || w == "COPY" }

  lemma KnownWordsAreLetters(w: string)
    requires KnownWord(w)
    ensures w != "" && forall i :: 0 <= i < |w| ==> 'A' <= w[i] <= 'Z'
  {
  }

  lemma WordEndIs(s: string, i: nat)
    requires i <= |s| && (i < |s| ==> !WordChar(s[i])) && forall j :: 0 <= j < i ==> WordChar(s[j])
    ensures WordEnd(s) == i
  {
    var e := WordEnd(s);
  }

  lemma TokenEndIs(s: string, i: nat)
    requires i <= |s| && (i < |s| ==> Delimits(s[i])) && forall j :: 0 <= j < i ==> !Delimits(s[j])
    ensures TokenEnd(s) == i
  {
    var e := TokenEnd(s);
  }

  /** A known word found by the code is the keyword itself. */
  lemma KnownTokenIsKeyword(sql: string)
    requires KnownWord(Upper(FirstToken(Bare(sql))))
    ensures Unglued(sql)
  {
    var s := Bare(sql);
    var t := FirstToken(s);
    KnownWordsAreLetters(Upper(t));
    forall j | 0 <= j < |t|
      ensures WordChar(s[j])
    {
      assert Upper(t)[j] == UpperChar(t[j]) && t[j] == s[j];
    }
    WordEndIs(s, |t|);
    UngluedIff(sql);
  }

  /** The code takes a statement for transaction control exactly when its keyword is one of the control words with
      nothing glued on. */
  lemma TransactionIff(sql: string)
    ensures ClassifyQuery(sql).Transaction? <==> ControlWord(Word(sql)) && Unglued(sql)
  {
    UngluedIff(sql);
    if KnownWord(Upper(FirstToken(Bare(sql)))) {
      KnownTokenIsKeyword(sql);
    }
    if KnownWord(Word(sql)) {
      KnownWordsAreLetters(Word(sql));
    }
  }

  lemma SpacedToIs(sql: string)
    ensures SpacedTo(sql) <==> Contains(Upper(Bare(sql)), " TO ")
    ensures SpacedTo(sql) ==> BlankTo(sql)
  {
    var text := Upper(Bare(sql));
    ContainsIff(text, " TO ");
    if SpacedTo(sql) {
      var i :| StandsAt(text, " TO ", i);
      assert text[i..i + 4][0] == text[i] && text[i..i + 4][3] == text[i + 3];
      assert text[i..i + 4][1] == text[i + 1] && text[i..i + 4][2] == text[i + 2];
      assert text[i + 1..i + 3] == "TO";
    }
  }

  /** And for a read exactly when it sees that it reads. */
  lemma ReadIff(sql: string)
    ensures ClassifyQuery(sql).Read? <==> SeenReading(sql)
  {
    UngluedIff(sql);
    SpacedToIs(sql);
    if KnownWord(Upper(FirstToken(Bare(sql)))) {
      KnownTokenIsKeyword(sql);
    }
    if KnownWord(Word(sql)) {
      KnownWordsAreLetters(Word(sql));
    }
  }

  /** Exactly which statements go to the replica. */
  lemma ReplicaIff(pinned: bool, sql: string)
    ensures Route(pinned, sql) == Replica <==> !pinned && SeenReading(sql)
  {
    ReadIff(sql);
  }

  /** What the code sends to the replica the rule sends there too; what it keeps on the primary beyond the rule are the
      reads it does not see. */
  lemma RouteIs(pinned: bool, sql: string)
    ensures Route(pinned, sql) == if RefReads(sql) ==> SeenReading(sql) then RefRoute(pinned, sql) else Primary
  {
    ReplicaIff(pinned, sql);
    SpacedToIs(sql);
  }

  lemma RoutedAsTheRuleIff(sql: string)
    ensures (forall pinned :: Route(pinned, sql) == RefRoute(pinned, sql)) <==> (RefReads(sql) ==> SeenReading(sql))
  {
    RouteIs(true, sql);
    RouteIs(false, sql);
  }

  /** No writing statement ever goes to the replica, */
  lemma WritesStayOnPrimary(pinned: bool, sql: string)
    requires Word(sql) in {"INSERT", "UPDATE", "DELETE", "MERGE", "TRUNCATE", "CREATE", "ALTER", "DROP", "GRANT",
                           "REVOKE", "VACUUM"}
    ensures Route(pinned, sql) == Primary
  {
    ReplicaIff(pinned, sql);
    assert Bare(sql) != "";
  }

  /** and outside a transaction a SELECT with nothing glued to it always does. */
  lemma SelectsAreRead(sql: string)
    requires Word(sql) == "SELECT" && Unglued(sql)
    ensures Route(false, sql) == Replica
  {
    ReplicaIff(false, sql);
  }

  lemma {:induction false} TrimRightKeeps(s: string, k: nat)
    requires k < |s| && !IsSpace(s[k])
    ensures |TrimRight(s)| > k && TrimRight(s) == s[..|TrimRight(s)|]
  {
    if IsSpace(s[|s| - 1]) {
      TrimRightKeeps(s[..|s| - 1], k);
    }
  }

  /** A statement whose raw first token is a word starts with no blank and no comment. */
  lemma RawTokenIsToken(sql: string)
    requires FirstToken(sql) != "" && forall i :: 0 <= i < |FirstToken(sql)| ==> WordChar(FirstToken(sql)[i])
    ensures FirstToken(Bare(sql)) == FirstToken(sql)
  {
    var t := FirstToken(sql);
    assert WordChar(t[0]) && WordChar(t[|t| - 1]) && t[|t| - 1] == sql[|t| - 1] && t[0] == sql[0];
    TrimRightKeeps(sql, |t| - 1);
    var r := TrimRight(sql);
    StripTrimsFirst(sql);
    BareIsStrip(sql);
    assert Bare(sql) == StripLeft(r) == r by {
      assert r[0] == sql[0];
      SettledStays(r);
    }
    TokenEndIs(r, |t|);
  }

  lemma SpellingsAreWords(t: string)
    requires t in BEGIN_SPELLINGS
    ensures t != "" && (forall i :: 0 <= i < |t| ==> WordChar(t[i])) && Upper(t) in BEGINS
  {
    assert Upper("BEGIN") == "BEGIN" && Upper("START") == "START";
    assert Upper("begin") == "BEGIN" && Upper("start") == "START";
  }

  /** The four spellings the code looks for, found at the very start, are an opening statement. */
  lemma SpelledIsOpening(sql: string)
    requires FirstToken(sql) in BEGIN_SPELLINGS
    ensures KindOf(sql).Opening? && Unglued(sql)
  {
    SpellingsAreWords(FirstToken(sql));
    RawTokenIsToken(sql);
    KnownTokenIsKeyword(sql);
  }

  /** How they part, for every unfaithful statement: an opening one seen but not spelled as expected closes
      instead, one seen not at all changes nothing, and so for a closing one; a savepoint closes. */
  lemma HowTheyPart(sql: string, pinned: bool)
    requires !Faithful(sql)
    ensures match KindOf(sql)
            case Opening => Pin(pinned, sql) == (!Unglued(sql) && pinned)
            case Closing => Pin(pinned, sql) == pinned
            case _ => !Pin(pinned, sql)
  {
    TransactionIff(sql);
    if FirstToken(sql) in BEGIN_SPELLINGS {
      SpelledIsOpening(sql);
    }
  }

  lemma FaithfulIsPinned(sql: string, pinned: bool)
    requires Faithful(sql)
    ensures Pin(pinned, sql) == RefPin(pinned, sql)
  {
    TransactionIff(sql);
    if FirstToken(sql) in BEGIN_SPELLINGS {
      SpelledIsOpening(sql);
    }
  }

  /** Exactly which statements are pinned as the rule says, in and out of a transaction. */
  lemma PinnedAsTheRuleIff(sql: string)
    ensures Faithful(sql) <==> forall pinned :: Pin(pinned, sql) == RefPin(pinned, sql)
  {
    if Faithful(sql) {
      forall pinned
        ensures Pin(pinned, sql) == RefPin(pinned, sql)
      {
        FaithfulIsPinned(sql, pinned);
      }
    } else {
      HowTheyPart(sql, true);
      HowTheyPart(sql, false);
    }
  }

  /** The two readings of a plain text: the word at its start and the text up to the first delimiter. */
  lemma ReadWords(s: string, word: nat, token: nat)
    requires s != "" && Settled(s) && RightTrimmed(s) && word <= |s| && token <= |s|
    requires (word < |s| ==> !WordChar(s[word])) && forall j :: 0 <= j < word ==> WordChar(s[j])
    requires (token < |s| ==> Delimits(s[token])) && forall j :: 0 <= j < token ==> !Delimits(s[j])
    ensures Keyword(s) == s[..word] && FirstToken(s) == s[..token]
    ensures Unglued(s) <==> word == token
  {
    PlainText(s);
    WordEndIs(s, word);
    TokenEndIs(s, token);
    UngluedIff(s);
  }

  /** Such statements exist: a capitalised Begin, */
  lemma MixedCaseBegin(s: string)
    requires s == "Begin"
    ensures KindOf(s).Opening? && !Faithful(s)
  {
    ReadWords(s, 5, 5);
    assert s[..5] == s && Upper(s) == "BEGIN";
    assert s[1] == 'e' && s[0] == 'B';
  }

  /** a semicolon glued to END, */
  lemma GluedEnd(s: string)
    requires s == "END;"
    ensures KindOf(s).Closing? && !Faithful(s)
  {
    ReadWords(s, 3, 4);
    assert s[..3] == "END" && Upper("END") == "END";
  }

  /** any savepoint by its usual spelling, and */
  lemma PlainSavepoint(s: string)
    requires s == "SAVEPOINT a"
    ensures KindOf(s).Keeping? && !Faithful(s)
  {
    ReadWords(s, 9, 9);
    assert s[..9] == "SAVEPOINT";
    UpperOfCapitals("SAVEPOINT");
  }

  /** ABORT, which the code does not know. */
  lemma PlainAbort(s: string)
    requires s == "ABORT"
    ensures KindOf(s).Closing? && !Faithful(s)
  {
    ReadWords(s, 5, 5);
    assert s[..5] == "ABORT";
    UpperOfCapitals("ABORT");
  }

  lemma UpperOfCapitals(s: string)
    requires forall i :: 0 <= i < |s| ==> 'A' <= s[i] <= 'Z'
    ensures Upper(s) == s
  {
  }

  lemma PlainText(s: string)
    requires s != "" && Settled(s) && RightTrimmed(s)
    ensures Bare(s) == s
  {
    BareIsStrip(s);
    StripIsStripLeft(s);
    SettledStays(s);
  }

  // ----------------------------------------------------------- whole sessions

  /** The transaction flag before each statement of a session, in the code and in the rule. */
  function Pinned(stmts: seq<string>): bool
  {
    if stmts == [] then false else Pin(Pinned(stmts[..|stmts| - 1]), stmts[|stmts| - 1])
  }

  function RefPinned(stmts: seq<string>): bool
  {
    if stmts == [] then false else RefPin(RefPinned(stmts[..|stmts| - 1]), stmts[|stmts| - 1])
  }

  lemma PinnedNext(stmts: seq<string>, k: nat)
    requires k < |stmts|
    ensures Pinned(stmts[..k + 1]) == Pin(Pinned(stmts[..k]), stmts[k])
    ensures RefPinned(stmts[..k + 1]) == RefPin(RefPinned(stmts[..k]), stmts[k])
  {
    assert stmts[..k + 1][..k] == stmts[..k];
  }

  lemma {:induction false} FlagFollowsRule(stmts: seq<string>, k: nat)
    requires k <= |stmts| && forall i :: 0 <= i < k ==> Faithful(stmts[i])
    ensures Pinned(stmts[..k]) == RefPinned(stmts[..k])
  {
    if k > 0 {
      FlagFollowsRule(stmts, k - 1);
      PinnedNext(stmts, k - 1);
      FaithfulIsPinned(stmts[k - 1], Pinned(stmts[..k - 1]));
    }
  }

  /** Over every session of faithful statements the flag is the rule's, and so is the route, but for reads the code
      does not see, which stay on the primary. */
  lemma SessionFollowsRule(stmts: seq<string>, k: nat)
    requires k < |stmts| && forall i :: 0 <= i < k ==> Faithful(stmts[i])
    ensures Pinned(stmts[..k]) == RefPinned(stmts[..k])
    ensures Route(Pinned(stmts[..k]), stmts[k])
         == if RefReads(stmts[k]) ==> SeenReading(stmts[k]) then RefRoute(RefPinned(stmts[..k]), stmts[k]) else Primary
  {
    FlagFollowsRule(stmts, k);
    RouteIs(Pinned(stmts[..k]), stmts[k]);
  }

  lemma {:induction false} OpenStaysOpen(stmts: seq<string>, i: nat, j: nat)
    requires i < j <= |stmts| && KindOf(stmts[i]).Opening?
    requires forall k :: i < k < j ==> !KindOf(stmts[k]).Closing?
    requires forall k :: i <= k < j ==> Faithful(stmts[k])
    ensures Pinned(stmts[..j])
  {
    if i < j - 1 {
      OpenStaysOpen(stmts, i, j - 1);
    }
    PinnedNext(stmts, j - 1);
    FaithfulIsPinned(stmts[j - 1], Pinned(stmts[..j - 1]));
  }

  /** Nothing after a faithful opening statement and up to the closing one reaches the replica, whatever came before. */
  lemma NothingInsideReachesReplica(stmts: seq<string>, i: nat, j: nat)
    requires i < j < |stmts| && KindOf(stmts[i]).Opening?
    requires forall k :: i < k < j ==> !KindOf(stmts[k]).Closing?
    requires forall k :: i <= k < j ==> Faithful(stmts[k])
    ensures Route(Pinned(stmts[..j]), stmts[j]) == Primary
  {
    OpenStaysOpen(stmts, i, j);
  }

  // ------------------------------------------------------------------- status

  predicate Valid(st: State) { st.txFailed ==> st.inTransaction }

  /** In every session, over Query messages and others, a failed transaction is a transaction. */
  lemma {:induction false} FailedImpliesInTransaction(msgs: seq<Bytes>, backend: nat -> Backend)
    requires Nonempty(msgs)
    ensures Valid(Final(Turns(msgs, backend)))
  {
    if msgs != [] {
      FailedImpliesInTransaction(msgs[..|msgs| - 1], backend);
    }
  }

  /** The transaction state PostgreSQL keeps and reports. */
  datatype Ref = Idle | Active | Failed

  function RefStatus(r: Ref): byte
  {
    match r
    case Idle => 'I' as int
    case Active => 'T' as int
    case Failed => 'E' as int
  }

  /** What the backend made of a statement: executed it, refused it before executing anything (a statement that does not
      parse), or failed executing it. */
  datatype Fate = Executed | Refused | Broken

  function FateOf(b: Backend): Fate
  {
    match b
    case Rejected(_) => Refused
    case Answered(_, _, failure, _) => if failure.None? then Executed else Broken
  }

  /** A failure inside a transaction fails it; a closing statement ends it even when it breaks (a COMMIT that cannot
      commit rolls back), but not when it is refused. */
  function RefNext(r: Ref, kind: Kind, fate: Fate): Ref
  {
    if r.Idle? then (if kind.Opening? && fate.Executed? then Active else Idle)
    else if kind.Closing? && !fate.Refused? then Idle
    else if r.Active? && fate.Executed? then Active
    else Failed
  }

  function Abs(st: State): Ref
  {
    if !st.inTransaction then Idle else if st.txFailed then Failed else Active
  }

  /** The reply carries the error. */
  predicate Reported(b: Backend)
  {
    b.Rejected? || (b.fields != [] && b.failure.Some?)
  }

  /** The statement broke and the reply says it was done: `rows.Err()` is looked at only when there are columns. */
  predicate Hidden(b: Backend)
  {
    FateOf(b).Broken? && !Reported(b)
  }

  /** In a failed transaction PostgreSQL executes nothing but its end. */
  predicate Obeys(r: Ref, kind: Kind, b: Backend)
  {
    r.Failed? && !kind.Closing? ==> !FateOf(b).Executed?
  }

  /** What the proxy can follow: outside a transaction no opening statement fails; inside, no closing statement is
      refused and no other failure is hidden. */
  predicate Telling(r: Ref, kind: Kind, b: Backend)
  {
    if r.Idle? then kind.Opening? ==> FateOf(b).Executed?
    else if kind.Closing? then !FateOf(b).Refused?
    else !Hidden(b)
  }

  predicate Conforms(r: Ref, kind: Kind, b: Backend)
  {
    Obeys(r, kind, b) && Telling(r, kind, b)
  }

  /** The status of the ReadyForQuery that ends a reply. */
  function StatusOf(reply: seq<Out>): byte
    requires reply != [] && reply[|reply| - 1].Ready?
  {
    reply[|reply| - 1].status
  }

  lemma RelayOutcome(b: Backend, ready: byte)
    ensures Relay(b, ready).1.Some? <==> Reported(b)
    ensures !Reported(b) ==> |Relay(b, ready).0| > 0 && Relay(b, ready).0[|Relay(b, ready).0| - 1] == Ready(ready)
  {
  }

  lemma FaithfulControl(sql: string)
    requires Faithful(sql)
    ensures ClassifyQuery(sql).Transaction? <==> KindOf(sql).Opening? || KindOf(sql).Closing?
  {
    TransactionIff(sql);
    if FirstToken(sql) in BEGIN_SPELLINGS {
      SpelledIsOpening(sql);
    }
  }

  predicate EndsWith(reply: seq<Out>, status: byte)
  {
    reply != [] && reply[|reply| - 1] == Ready(status)
  }

  /** What PostgreSQL sees of a request. */
  datatype Seen = Seen(kind: Kind, backend: Backend)

  /** What a faithful statement does to the flags, by its kind and by whether the reply carries an error, */
  function SeenState(st: State, x: Seen): State
  {
    var pinned := KindPin(st.inTransaction, x.kind);
    var failed := !x.kind.Opening? && !x.kind.Closing? && st.txFailed;
    State(pinned, if Reported(x.backend) then failed || pinned else failed)
  }

  /** and how its reply ends. */
  function SeenStatus(st: State, x: Seen): byte
  {
    var after := SeenState(st, x);
    if Reported(x.backend) && after.txFailed then FAILED else if after.inTransaction then IN_TRANSACTION else IDLE
  }

  /** The same for any statement, by what the code takes it for. */
  lemma TurnEnds(st: State, sql: string, b: Backend, pinned: bool, failed: bool)
    requires pinned == Pin(st.inTransaction, sql) && failed == (!ClassifyQuery(sql).Transaction? && st.txFailed)
    ensures var t := QueryTurn(st, sql, b);
            if Reported(b)
            then t.after == State(pinned, failed || pinned)
                 && EndsWith(t.reply, if failed || pinned then FAILED else IDLE)
            else t.after == State(pinned, failed) && EndsWith(t.reply, if pinned then IN_TRANSACTION else IDLE)
  {
    RelayOutcome(b, if pinned then IN_TRANSACTION else IDLE);
  }

  lemma FaithfulTurn(st: State, sql: string, b: Backend)
    requires Faithful(sql)
    ensures var t := QueryTurn(st, sql, b);
            && t.after == SeenState(st, Seen(KindOf(sql), b))
            && EndsWith(t.reply, SeenStatus(st, Seen(KindOf(sql), b)))
  {
    var pinned := KindPin(st.inTransaction, KindOf(sql));
    var failed := !KindOf(sql).Opening? && !KindOf(sql).Closing? && st.txFailed;
    FaithfulIsPinned(sql, st.inTransaction);
    FaithfulControl(sql);
    TurnEnds(st, sql, b, pinned, failed);
  }

  lemma SeenStatusIff(st: State, x: Seen)
    requires Valid(st)
    ensures var next := RefNext(Abs(st), x.kind, FateOf(x.backend));
            && Valid(SeenState(st, x))
            && (Conforms(Abs(st), x.kind, x.backend) ==> Abs(SeenState(st, x)) == next)
            && (Conforms(Abs(st), x.kind, x.backend) <==> SeenStatus(st, x) == RefStatus(next))
  {
  }

  /** Exactly when a faithful statement is answered with PostgreSQL's status: when the backend conforms; and then the
      proxy's state stays PostgreSQL's. */
  lemma StatusIff(st: State, sql: string, b: Backend)
    requires Valid(st) && Faithful(sql)
    ensures var t := QueryTurn(st, sql, b);
            var next := RefNext(Abs(st), KindOf(sql), FateOf(b));
            && t.reply != [] && t.reply[|t.reply| - 1].Ready? && Valid(t.after)
            && (Conforms(Abs(st), KindOf(sql), b) ==> Abs(t.after) == next)
            && (Conforms(Abs(st), KindOf(sql), b) <==> StatusOf(t.reply) == RefStatus(next))
  {
    FaithfulTurn(st, sql, b);
    SeenStatusIff(st, Seen(KindOf(sql), b));
  }

  /** A statement without columns, an INSERT say, that breaks inside a transaction: the client is told it was done
      and that the transaction goes on, while PostgreSQL has failed it. */
  lemma HiddenFailure(sql: string, error: Bytes)
    requires KindOf(sql).Plain?
    ensures var t := QueryTurn(State(true, false), sql, Answered([], [], Some(error), []));
            && t.reply == [Complete(DEFAULT_TAG), Ready(IN_TRANSACTION)] && Abs(t.after) == Active
            && RefNext(Active, KindOf(sql), FateOf(Answered([], [], Some(error), []))) == Failed
  {
    TransactionIff(sql);
  }

  /** A closing statement that does not parse: the proxy leaves the transaction, PostgreSQL has failed it. */
  lemma RefusedClose(sql: string, error: Bytes)
    requires KindOf(sql).Closing? && Faithful(sql)
    ensures var t := QueryTurn(State(true, false), sql, Rejected(error));
            && t.reply == [Error(error), Ready(IDLE)] && Abs(t.after) == Idle
            && RefNext(Active, KindOf(sql), FateOf(Rejected(error))) == Failed
  {
    FaithfulIsPinned(sql, true);
    TransactionIff(sql);
  }

  datatype Request = Request(sql: string, backend: Backend)

  /** A session of Query messages. */
  function After(reqs: seq<Request>): State
  {
    if reqs == [] then START
    else QueryTurn(After(reqs[..|reqs| - 1]), reqs[|reqs| - 1].sql, reqs[|reqs| - 1].backend).after
  }

  lemma AfterNext(reqs: seq<Request>, k: nat)
    requires k < |reqs|
    ensures After(reqs[..k + 1]) == QueryTurn(After(reqs[..k]), reqs[k].sql, reqs[k].backend).after
  {
    assert reqs[..k + 1][..k] == reqs[..k];
  }

  function SeenOf(reqs: seq<Request>): seq<Seen>
  {
    seq(|reqs|, i requires 0 <= i < |reqs| => Seen(KindOf(reqs[i].sql), reqs[i].backend))
  }

  /** PostgreSQL's state after the first `k` of them. */
  function RefAt(seen: seq<Seen>, k: nat): Ref
    requires k <= |seen|
  {
    if k == 0 then Idle else RefNext(RefAt(seen, k - 1), seen[k - 1].kind, FateOf(seen[k - 1].backend))
  }

  ghost predicate FaithfulTo(reqs: seq<Request>, n: nat)
    requires n <= |reqs|
  {
    forall k :: 0 <= k < n ==> Faithful(reqs[k].sql)
  }

  /** The backend conforms on the first `n` requests. */
  ghost predicate ConformsTo(seen: seq<Seen>, n: nat)
    requires n <= |seen|
  {
    forall k :: 0 <= k < n ==> Conforms(RefAt(seen, k), seen[k].kind, seen[k].backend)
  }

  function ReplyAt(reqs: seq<Request>, k: nat): seq<Out>
    requires k < |reqs|
  {
    QueryTurn(After(reqs[..k]), reqs[k].sql, reqs[k].backend).reply
  }

  /** The reply to request `k` ends with the status PostgreSQL itself would report. */
  ghost predicate RightStatus(reqs: seq<Request>, k: nat)
    requires k < |reqs|
  {
    EndsWith(ReplyAt(reqs, k), RefStatus(RefAt(SeenOf(reqs), k + 1)))
  }

  /** The proxy's flags before request `n`, by kinds and replies alone. */
  function StateAt(seen: seq<Seen>, n: nat): State
    requires n <= |seen|
  {
    if n == 0 then START else SeenState(StateAt(seen, n - 1), seen[n - 1])
  }

  lemma AfterFaithful(reqs: seq<Request>, k: nat)
    requires k < |reqs| && Faithful(reqs[k].sql)
    ensures After(reqs[..k + 1]) == SeenState(After(reqs[..k]), SeenOf(reqs)[k])
  {
    AfterNext(reqs, k);
    FaithfulTurn(After(reqs[..k]), reqs[k].sql, reqs[k].backend);
  }

  /** Flags that move step by step as the kinds say are those flags. */
  lemma {:induction false} Follow(flags: nat -> State, seen: seq<Seen>, n: nat)
    requires n <= |seen| && flags(0) == START
    requires forall k :: 0 <= k < n ==> flags(k + 1) == SeenState(flags(k), seen[k])
    ensures flags(n) == StateAt(seen, n)
  {
    if n > 0 {
      Follow(flags, seen, n - 1);
    }
  }

  lemma FaithfulSession(reqs: seq<Request>, n: nat)
    requires n <= |reqs| && FaithfulTo(reqs, n)
    ensures After(reqs[..n]) == StateAt(SeenOf(reqs), n)
  {
    var flags := (k: nat) => if k <= |reqs| then After(reqs[..k]) else START;
    forall k | 0 <= k < n
      ensures flags(k + 1) == SeenState(flags(k), SeenOf(reqs)[k])
    {
      AfterFaithful(reqs, k);
    }
    Follow(flags, SeenOf(reqs), n);
  }

  lemma FaithfulReply(reqs: seq<Request>, k: nat)
    requires k < |reqs| && FaithfulTo(reqs, k + 1)
    ensures EndsWith(ReplyAt(reqs, k), SeenStatus(StateAt(SeenOf(reqs), k), SeenOf(reqs)[k]))
  {
    FaithfulSession(reqs, k);
    FaithfulTurn(After(reqs[..k]), reqs[k].sql, reqs[k].backend);
  }

  lemma {:induction false} SessionState(seen: seq<Seen>, n: nat)
    requires n <= |seen| && ConformsTo(seen, n)
    ensures Valid(StateAt(seen, n)) && Abs(StateAt(seen, n)) == RefAt(seen, n)
  {
    if n > 0 {
      SessionState(seen, n - 1);
      SeenStatusIff(StateAt(seen, n - 1), seen[n - 1]);
    }
  }

  /** What `RightStatus` says, by kinds and replies alone. */
  predicate RightAt(seen: seq<Seen>, k: nat)
    requires k < |seen|
  {
    SeenStatus(StateAt(seen, k), seen[k]) == RefStatus(RefAt(seen, k + 1))
  }

  ghost predicate RightTo(seen: seq<Seen>, n: nat)
    requires n <= |seen|
  {
    forall k :: 0 <= k < n ==> RightAt(seen, k)
  }

  lemma NextRight(seen: seq<Seen>, n: nat)
    requires n < |seen|
    ensures RightTo(seen, n + 1) <==> RightTo(seen, n) && RightAt(seen, n)
    ensures ConformsTo(seen, n + 1) <==> ConformsTo(seen, n) && Conforms(RefAt(seen, n), seen[n].kind, seen[n].backend)
  {
  }

  lemma RightNextIff(seen: seq<Seen>, n: nat)
    requires n < |seen| && ConformsTo(seen, n)
    ensures RightAt(seen, n) <==> Conforms(RefAt(seen, n), seen[n].kind, seen[n].backend)
  {
    SessionState(seen, n);
    SeenStatusIff(StateAt(seen, n), seen[n]);
  }

  lemma {:induction false} RightIffConforms(seen: seq<Seen>, n: nat)
    requires n <= |seen|
    ensures RightTo(seen, n) <==> ConformsTo(seen, n)
  {
    if n > 0 {
      RightIffConforms(seen, n - 1);
      NextRight(seen, n - 1);
      if ConformsTo(seen, n - 1) {
        RightNextIff(seen, n - 1);
      }
    }
  }

  lemma RightIsRightAt(reqs: seq<Request>, k: nat)
    requires k < |reqs| && FaithfulTo(reqs, k + 1)
    ensures RightStatus(reqs, k) <==> RightAt(SeenOf(reqs), k)
  {
    FaithfulReply(reqs, k);
  }

  /** Over every session of faithful Query messages, the first `n` replies all end with PostgreSQL's status exactly when
      the backend conforms on the first `n` requests. */
  lemma SessionStatus(reqs: seq<Request>, n: nat)
    requires n <= |reqs| && FaithfulTo(reqs, n)
    ensures (forall k :: 0 <= k < n ==> RightStatus(reqs, k)) <==> ConformsTo(SeenOf(reqs), n)
  {
    forall k | 0 <= k < n
      ensures RightStatus(reqs, k) <==> RightAt(SeenOf(reqs), k)
    {
      RightIsRightAt(reqs, k);
    }
    RightIffConforms(SeenOf(reqs), n);
  }

  /** The statement neither closes the transaction nor is executed. */
  predicate Fails(x: Seen)
  {
    !x.kind.Closing? && !FateOf(x.backend).Executed?
  }

  /** The proxy can tell whether there is a transaction: no opening statement outside one fails, and no closing
      statement of one is refused. Failures inside may be hidden. */
  predicate KeepsStep(r: Ref, x: Seen)
  {
    if r.Idle? then x.kind.Opening? ==> FateOf(x.backend).Executed? else x.kind.Closing? ==> !FateOf(x.backend).Refused?
  }

  lemma {:induction false} FlagInStep(seen: seq<Seen>, n: nat)
    requires n <= |seen| && forall m :: 0 <= m < n ==> KeepsStep(RefAt(seen, m), seen[m])
    ensures StateAt(seen, n).inTransaction == !RefAt(seen, n).Idle?
  {
    if n > 0 {
      FlagInStep(seen, n - 1);
    }
  }

  lemma {:induction false} StaysFailed(seen: seq<Seen>, i: nat, k: nat)
    requires i <= k < |seen| && StateAt(seen, i).inTransaction && !RefAt(seen, i).Idle?
    requires forall j :: i <= j <= k ==> Fails(seen[j])
    ensures RefAt(seen, k + 1).Failed?
    ensures SeenStatus(StateAt(seen, k), seen[k]) == if Hidden(seen[k].backend) then IN_TRANSACTION else FAILED
    ensures StateAt(seen, k + 1).inTransaction
  {
    if i < k {
      StaysFailed(seen, i, k - 1);
    }
  }

  /** From the first failure in a transaction, hidden or not, whatever was hidden in earlier ones, until a closing
      statement PostgreSQL is in the failed state, and a reply says 'E' exactly when its own statement's failure is not
      hidden. */
  lemma FailureLasts(reqs: seq<Request>, i: nat, k: nat)
    requires i <= k < |reqs| && FaithfulTo(reqs, k + 1)
    requires forall m :: 0 <= m < i ==> KeepsStep(RefAt(SeenOf(reqs), m), SeenOf(reqs)[m])
    requires !RefAt(SeenOf(reqs), i).Idle? && forall j :: i <= j <= k ==> Fails(SeenOf(reqs)[j])
    ensures RefAt(SeenOf(reqs), k + 1).Failed?
    ensures EndsWith(ReplyAt(reqs, k), if Hidden(reqs[k].backend) then IN_TRANSACTION else FAILED)
  {
    FlagInStep(SeenOf(reqs), i);
    StaysFailed(SeenOf(reqs), i, k);
    FaithfulReply(reqs, k);
  }

  // --------------------------------------------- from the wire to the statements

  /** The Query messages of a session, with what the backend does to each. */
  function Requests(msgs: seq<Bytes>, backend: nat -> Backend): seq<Request>
    requires Nonempty(msgs)
  {
    if msgs == [] then []
    else
      var n := |msgs| - 1;
      var before := Requests(msgs[..n], backend);
      if msgs[n][0] == T_QUERY then before + [Request(AsText(ExtractSQL(msgs[n])), backend(n))] else before
  }

  lemma AfterSnoc(reqs: seq<Request>, r: Request)
    ensures After(reqs + [r]) == QueryTurn(After(reqs), r.sql, r.backend).after
  {
    assert (reqs + [r])[..|reqs|] == reqs;
  }

  /** The flags of a session are those of its Query messages alone, whatever else the client sends in between. */
  lemma {:induction false} FlagsComeFromQueries(msgs: seq<Bytes>, backend: nat -> Backend)
    requires Nonempty(msgs) && |Turns(msgs, backend)| == |msgs|
    ensures Final(Turns(msgs, backend)) == After(Requests(msgs, backend))
  {
    if msgs != [] {
      var n := |msgs| - 1;
      FlagsComeFromQueries(msgs[..n], backend);
      if msgs[n][0] == T_QUERY {
        AfterSnoc(Requests(msgs[..n], backend), Request(AsText(ExtractSQL(msgs[n])), backend(n)));
      }
    }
  }

  function Sqls(reqs: seq<Request>): seq<string>
  {
    seq(|reqs|, i requires 0 <= i < |reqs| => reqs[i].sql)
  }

  /** And the transaction flag is the pinning of their statements, whatever the backends answer. */
  lemma {:induction false} FlagIsPinning(reqs: seq<Request>)
    ensures After(reqs).inTransaction == Pinned(Sqls(reqs))
  {
    if reqs != [] {
      var n := |reqs| - 1;
      FlagIsPinning(reqs[..n]);
      assert Sqls(reqs)[..n] == Sqls(reqs[..n]);
    }
  }

  /** The last message either ends the session or gets the last turn. */
  lemma LastTurn(msgs: seq<Bytes>, backend: nat -> Backend)
    requires Nonempty(msgs) && msgs != []
    ensures var n := |msgs| - 1;
            var before := Turns(msgs[..n], backend);
            || Turns(msgs, backend) == before
            || (|before| == n && Turns(msgs, backend) == before + [MessageTurn(Final(before), msgs[n], backend(n))])
  {
  }

  /** Each turn of a session is the answer to its own message, in the state its predecessors left. */
  lemma {:induction false} TurnAt(msgs: seq<Bytes>, backend: nat -> Backend, i: nat)
    requires Nonempty(msgs) && i < |Turns(msgs, backend)|
    ensures |Turns(msgs[..i], backend)| == i
    ensures Turns(msgs, backend)[i] == MessageTurn(Final(Turns(msgs[..i], backend)), msgs[i], backend(i))
  {
    var n := |msgs| - 1;
    LastTurn(msgs, backend);
    if i < |Turns(msgs[..n], backend)| {
      TurnAt(msgs[..n], backend, i);
      assert msgs[..n][..i] == msgs[..i];
    }
  }

  /** So what holds of sessions of Query messages alone holds of the Query messages of any session. */
  lemma QueryTurnAt(msgs: seq<Bytes>, backend: nat -> Backend, i: nat)
    requires Nonempty(msgs) && i < |Turns(msgs, backend)| && msgs[i][0] == T_QUERY
    ensures Turns(msgs, backend)[i]
         == QueryTurn(After(Requests(msgs[..i], backend)), AsText(ExtractSQL(msgs[i])), backend(i))
  {
    TurnAt(msgs, backend, i);
    FlagsComeFromQueries(msgs[..i], backend);
  }

  /** In every client session, exactly which Query goes to the replica: one the code sees to read, while its flag says
      that there is no transaction. */
  lemma SessionReplicaIff(msgs: seq<Bytes>, backend: nat -> Backend, i: nat)
    requires Nonempty(msgs) && i < |Turns(msgs, backend)| && msgs[i][0] == T_QUERY
    ensures Turns(msgs, backend)[i].pool == Some(Replica) <==>
            !Pinned(Sqls(Requests(msgs[..i], backend))) && SeenReading(AsText(ExtractSQL(msgs[i])))
    ensures Turns(msgs, backend)[i].pool.Some?
  {
    QueryTurnAt(msgs, backend, i);
    FlagIsPinning(Requests(msgs[..i], backend));
    ReplicaIff(Pinned(Sqls(Requests(msgs[..i], backend))), AsText(ExtractSQL(msgs[i])));
  }

  /** The rule over whole client sessions, whatever other messages come in between and whatever the backends answer:
      up to the first unfaithful statement, each Query goes where the rule sends it, but for reads the code does not
      see, which stay on the primary. */
  lemma SessionRoutes(msgs: seq<Bytes>, backend: nat -> Backend, i: nat)
    requires Nonempty(msgs) && i < |Turns(msgs, backend)| && msgs[i][0] == T_QUERY
    requires forall r :: r in Requests(msgs[..i], backend) ==> Faithful(r.sql)
    ensures var pinned, sql := RefPinned(Sqls(Requests(msgs[..i], backend))), AsText(ExtractSQL(msgs[i]));
            var t := Turns(msgs, backend)[i];
            && t.pool == Some(if RefReads(sql) ==> SeenReading(sql) then RefRoute(pinned, sql) else Primary)
            && (Faithful(sql) ==> t.after.inTransaction == RefPin(pinned, sql))
  {
    QueryTurnAt(msgs, backend, i);
    var reqs := Requests(msgs[..i], backend);
    FlagIsPinning(reqs);
    FlagFollowsRule(Sqls(reqs), |reqs|);
    assert Sqls(reqs)[..|reqs|] == Sqls(reqs);
    RouteIs(Pinned(Sqls(reqs)), AsText(ExtractSQL(msgs[i])));
    if Faithful(AsText(ExtractSQL(msgs[i]))) {
      FaithfulIsPinned(AsText(ExtractSQL(msgs[i])), Pinned(Sqls(reqs)));
    }
  }

  /** A message that is not a Query is answered 'I' whatever the transaction: right exactly when there is none. */
  lemma OtherMessagesSayIdle(st: State)
    requires Valid(st)
    ensures StatusOf(OtherTurn(st).reply) == RefStatus(Abs(st)) <==> !st.inTransaction
  {
  }

  // ------------------------------------------------------------ response shape

  /** (T D*)? (C | E) Z */
  ghost predicate IsReply(outs: seq<Out>)
  {
    && |outs| >= 2
    && outs[|outs| - 1].Ready?
    && (outs[|outs| - 2].Complete? || outs[|outs| - 2].Error?)
    && (|outs| > 2 ==> outs[0].Description?)
    && (forall i :: 1 <= i < |outs| - 2 ==> outs[i].Row?)
  }

  /** Every reply has that shape, and carries an error exactly when the statement was not executed and its failure is
      not hidden; a hidden one is answered as success. */
  lemma ReplyShape(st: State, sql: string, b: Backend)
    ensures var reply := QueryTurn(st, sql, b).reply;
            && IsReply(reply)
            && (reply[|reply| - 2].Error? <==> !FateOf(b).Executed? && !Hidden(b))
  {
  }

  /** One turn for each message before the first Terminate. */
  ghost predicate UpToTerminate(n: nat, msgs: seq<Bytes>)
    requires Nonempty(msgs)
  {
    && n <= |msgs|
    && (forall i :: 0 <= i < n ==> msgs[i][0] != 'X' as int)
    && (n < |msgs| ==> msgs[n][0] == 'X' as int)
  }

  lemma {:induction false} TurnCount(msgs: seq<Bytes>, backend: nat -> Backend)
    requires Nonempty(msgs)
    ensures UpToTerminate(|Turns(msgs, backend)|, msgs)
  {
    if msgs != [] {
      TurnCount(msgs[..|msgs| - 1], backend);
    }
  }

  lemma {:induction false} EveryTurnReplies(msgs: seq<Bytes>, backend: nat -> Backend)
    requires Nonempty(msgs)
    ensures forall i :: 0 <= i < |Turns(msgs, backend)| ==> IsReply(Turns(msgs, backend)[i].reply)
  {
    if msgs != [] {
      var n := |msgs| - 1;
      EveryTurnReplies(msgs[..n], backend);
      var before := Turns(msgs[..n], backend);
      if msgs[n][0] == T_QUERY {
        ReplyShape(Final(before), AsText(ExtractSQL(msgs[n])), backend(n));
      }
    }
  }

  /** What a client does with the frames it reads: cut after each ReadyForQuery. */
  function CutAtReady(frames: seq<Bytes>, current: seq<Bytes>): seq<seq<Bytes>>
  {
    if frames == [] then (if current == [] then [] else [current])
    else if |frames[0]| > 0 && frames[0][0] == 'Z' as int then [current + [frames[0]]] + CutAtReady(frames[1..], [])
    else CutAtReady(frames[1..], current + [frames[0]])
  }

  lemma TagOf(o: Out)
    ensures |EncodeOut(o)| > 0 && (EncodeOut(o)[0] == 'Z' as int <==> o.Ready?)
  {
  }

  /** Cutting gathers the frames of a reply up to its only ReadyForQuery. */
  lemma {:induction false} CutReply(outs: seq<Out>, k: nat, rest: seq<Bytes>)
    requires IsReply(outs) && k < |outs|
    ensures CutAtReady(Frames(outs)[k..] + rest, Frames(outs)[..k]) == [Frames(outs)] + CutAtReady(rest, [])
    decreases |outs| - k
  {
    var f := Frames(outs);
    var here := f[k..] + rest;
    TagOf(outs[k]);
    assert here[0] == f[k] == EncodeOut(outs[k]);
    assert here[1..] == f[k + 1..] + rest;
    assert f[..k + 1] == f[..k] + [f[k]];
    if k == |outs| - 1 {
      assert f[k + 1..] + rest == rest && f[..k + 1] == f;
    } else {
      assert !outs[k].Ready?;
      CutReply(outs, k + 1, rest);
    }
  }

  ghost function ReplyFrames(turns: seq<Turn>): seq<seq<Bytes>>
  {
    seq(|turns|, i requires 0 <= i < |turns| => Frames(turns[i].reply))
  }

  ghost function AllFrames(turns: seq<Turn>): seq<Bytes>
  {
    if turns == [] then [] else Frames(turns[0].reply) + AllFrames(turns[1..])
  }

  lemma {:induction false} CutReplies(turns: seq<Turn>)
    requires forall i :: 0 <= i < |turns| ==> IsReply(turns[i].reply)
    ensures CutAtReady(AllFrames(turns), []) == ReplyFrames(turns)
  {
    if turns != [] {
      CutReplies(turns[1..]);
      var f := Frames(turns[0].reply);
      CutReply(turns[0].reply, 0, AllFrames(turns[1..]));
      assert f[0..] == f && f[..0] == [];
      assert ReplyFrames(turns) == [f] + ReplyFrames(turns[1..]);
    }
  }

  lemma {:induction false} AllFramesSnoc(turns: seq<Turn>, t: Turn)
    ensures AllFrames(turns + [t]) == AllFrames(turns) + Frames(t.reply)
  {
    if turns == [] {
      assert [] + [t] == [t] && [t][1..] == [];
      assert AllFrames([t]) == Frames(t.reply) + [];
    } else {
      AllFramesSnoc(turns[1..], t);
      assert (turns + [t])[1..] == turns[1..] + [t];
      Assoc(Frames(turns[0].reply), AllFrames(turns[1..]), Frames(t.reply));
    }
  }

  lemma {:induction false} FramesOfReplies(turns: seq<Turn>)
    ensures Frames(Replies(turns)) == AllFrames(turns)
  {
    if turns != [] {
      var init, t := turns[..|turns| - 1], turns[|turns| - 1];
      FramesOfReplies(init);
      assert turns == init + [t];
      AllFramesSnoc(init, t);
      FramesAppend(Replies(init), t.reply);
    }
  }

  lemma OutIsFrame(o: Out)
    requires |EncodeOut(o)| <= TWO32
    ensures IsFrame(EncodeOut(o))
  {
    match o
    case Description(fields) => FrameIsFrame(T_ROW_DESCRIPTION, U16(|fields|) + Fields(fields));
    case Row(values) => FrameIsFrame(T_DATA_ROW, U16(|values|) + Columns(values));
    case Complete(tag) => FrameIsFrame(T_COMMAND_COMPLETE, tag + [0]);
    case Error(text) => FrameIsFrame(T_ERROR, [83] + SEVERITY + [0, 77] + text + [0, 0]);
    case Ready(status) => FrameIsFrame(T_READY, [status]);
  }

  lemma FramesFit(outs: seq<Out>)
    requires forall o :: o in outs ==> |EncodeOut(o)| <= TWO32
    ensures forall f :: f in Frames(outs) ==> IsFrame(f)
  {
    forall i | 0 <= i < |outs|
      ensures IsFrame(Frames(outs)[i])
    {
      assert outs[i] in outs;
      OutIsFrame(outs[i]);
    }
  }

  /** What the client sees. For every byte stream a client sends and every backend behaviour whose messages fit the
      length field, reading the proxy's output frame by frame and cutting it after each ReadyForQuery gives exactly
      one reply message up to the first Terminate, in order, each of the shape (T D*)? (C | E) Z. */
  lemma ClientSeesOneReplyPerRequest(input: Bytes, backend: nat -> Backend)
    requires forall o :: o in Replies(Turns(ReadAll(input).0, backend)) ==> |EncodeOut(o)| <= TWO32
    ensures var turns := Turns(ReadAll(input).0, backend);
            var (frames, end) := ReadAll(EncodeAll(Replies(turns)));
            && end == EndOfFile
            && UpToTerminate(|turns|, ReadAll(input).0)
            && CutAtReady(frames, []) == ReplyFrames(turns)
            && forall i :: 0 <= i < |turns| ==> IsReply(turns[i].reply)
  {
    var msgs := ReadAll(input).0;
    var turns := Turns(msgs, backend);
    EveryTurnReplies(msgs, backend);
    TurnCount(msgs, backend);
    FramesOfReplies(turns);
    FramesFit(Replies(turns));
    FramingRoundTrip(AllFrames(turns));
    CutReplies(turns);
  }
}
