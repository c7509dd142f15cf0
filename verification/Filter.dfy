/** `internal/cdc/filter.go`. */
module Filters {
  import opened Ascii
  import opened Events

  /** Empty sets mean "no restriction". Table names are stored in lower case. */
  datatype Filter = Filter(tables: set<string>, actions: set<string>)

  predicate Match(f: Filter, e: Event)
  {
    && (|f.actions| > 0 ==> e.action in f.actions)
    && (|f.tables| > 0 ==>
          || Lower(e.table) in f.tables
          || Lower(e.schema + "." + e.table) in f.tables)
  }

  /** `strings.Split(s, ",")`. */
  function Split(s: string): (parts: seq<string>)
    ensures |parts| > 0
  {
    if s == "" then [""]
    else
      var parts := Split(s[1..]);
      if s[0] == ',' then [""] + parts else [[s[0]] + parts[0]] + parts[1..]
  }

  function Joined(parts: seq<string>): string
    requires |parts| > 0
  {
    if |parts| == 1 then parts[0] else parts[0] + "," + Joined(parts[1..])
  }

  /** Splitting loses nothing and leaves no comma. */
  lemma {:induction false} SplitIsExact(s: string)
    ensures Joined(Split(s)) == s
    ensures forall p :: p in Split(s) ==> ',' !in p
  {
    if s != "" {
      SplitIsExact(s[1..]);
      var parts := Split(s[1..]);
      if s[0] == ',' {
        assert ([""] + parts)[1..] == parts;
        assert "" + "," + Joined(parts) == s;
      } else {
        var head := [s[0]] + parts[0];
        assert ([head] + parts[1..])[1..] == parts[1..];
        assert Joined([head] + parts[1..]) == [s[0]] + Joined(parts);
      }
    }
  }

  /** Some item of the comma-separated list, trimmed, is `name` up to `fold`. */
  ghost predicate Lists(list: string, fold: string -> string, name: string)
  {
    name != "" && exists p :: p in Split(list) && fold(TrimSpace(p)) == name
  }

  ghost predicate ListsSomething(list: string)
  {
    exists p :: p in Split(list) && TrimSpace(p) != ""
  }

  /** The loop `NewFilter` runs once for tables and once for actions. */
  method Collect(list: string, fold: string -> string) returns (names: set<string>)
    requires forall s :: |fold(s)| == |s|
    ensures forall name :: name in names <==> Lists(list, fold, name)
  {
    names := {};
    var parts := Split(list);
    for i := 0 to |parts|
      invariant forall name :: name in names <==>
                  name != "" && exists p :: p in parts[..i] && fold(TrimSpace(p)) == name
    {
      assert parts[..i + 1] == parts[..i] + [parts[i]];
      var t := TrimSpace(parts[i]);
      if t != "" {
        names := names + {fold(t)};
      }
    }
    assert parts[..|parts|] == parts;
  }

  method NewFilter(tables: string, actions: string) returns (f: Filter)
    ensures forall name :: name in f.tables <==> Lists(tables, Lower, name)
    ensures forall name :: name in f.actions <==> Lists(actions, Upper, name)
  {
    var t, a := {}, {};
    assert Split("") == [""] && TrimSpace("") == "";
    if tables != "" {
      t := Collect(tables, Lower);
    }
    if actions != "" {
      a := Collect(actions, Upper);
    }
    f := Filter(t, a);
  }

  lemma EmptyIff(s: set<string>)
    ensures |s| > 0 <==> exists x :: x in s
  {
    if s != {} {
      var x :| x in s;
    }
  }

  /** Some item of the comma-separated list, trimmed, is `name` in any case. */
  ghost predicate Names(list: string, name: string)
  {
    name != "" && exists p :: p in Split(list) && SameUpToCase(TrimSpace(p), name)
  }

  lemma ListsLower(list: string, name: string)
    ensures Lists(list, Lower, Lower(name)) <==> Names(list, name)
  {
    forall p | p in Split(list)
      ensures Lower(TrimSpace(p)) == Lower(name) <==> SameUpToCase(TrimSpace(p), name)
    {
      FoldsCase(TrimSpace(p), name);
    }
    assert Lower(name) == "" <==> name == "";
  }

  lemma ListsUpper(list: string, name: string)
    ensures Lists(list, Upper, name) <==> Upper(name) == name && Names(list, name)
  {
    forall p | p in Split(list)
      ensures Upper(TrimSpace(p)) == Upper(name) <==> SameUpToCase(TrimSpace(p), name)
    {
      FoldsCase(TrimSpace(p), name);
      assert Upper(Upper(TrimSpace(p))) == Upper(TrimSpace(p));
    }
  }

  lemma SomeListed(f: Filter, tables: string, actions: string)
    requires forall name :: name in f.tables <==> Lists(tables, Lower, name)
    requires forall name :: name in f.actions <==> Lists(actions, Upper, name)
    ensures |f.tables| > 0 <==> ListsSomething(tables)
    ensures |f.actions| > 0 <==> ListsSomething(actions)
  {
    EmptyIff(f.tables);
    EmptyIff(f.actions);
    if ListsSomething(tables) {
      var p :| p in Split(tables) && TrimSpace(p) != "";
      assert Lists(tables, Lower, Lower(TrimSpace(p)));
    }
    if ListsSomething(actions) {
      var p :| p in Split(actions) && TrimSpace(p) != "";
      assert Lists(actions, Upper, Upper(TrimSpace(p)));
    }
  }

  /** What the two option strings mean: an event passes exactly when each list is empty of names or names it, in any
      case: its action, which is in capitals, and its table bare or schema-qualified. */
  lemma MatchMeaning(f: Filter, tables: string, actions: string, e: Event)
    requires forall name :: name in f.tables <==> Lists(tables, Lower, name)
    requires forall name :: name in f.actions <==> Lists(actions, Upper, name)
    ensures Match(f, e) <==>
            && (ListsSomething(actions) ==> Upper(e.action) == e.action && Names(actions, e.action))
            && (ListsSomething(tables) ==> Names(tables, e.table) || Names(tables, e.schema + "." + e.table))
  {
    SomeListed(f, tables, actions);
    ListsUpper(actions, e.action);
    ListsLower(tables, e.table);
    ListsLower(tables, e.schema + "." + e.table);
  }
}
