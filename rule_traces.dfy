/** What the rule computes over a whole traversal: the visitor calls the host
    makes, in order, folded through `Visit`, and the reports at `Program:exit`
    in terms of the events alone. */
module RuleTraces {
  import opened NoOneTimeVars

  /** One visitor call before `Program:exit`. */
  datatype Event =
    | IdentifierEvent(node: Node, parentType: string)
    | FunctionEvent(fn: FunctionNode)

  predicate IsDeclaration(e: Event, name: string) {
    e.IdentifierEvent? && e.parentType == Declarator && e.node.name == name
  }

  predicate IsCountedUse(e: Event, name: string) {
    e.IdentifierEvent? && Counted(e.parentType) && e.node.name == name
  }

  /** The effect of one event on the per-`create` table; function events only
      touch the shared span list. */
  function Apply(t: Table, e: Event): Table {
    match e
    case IdentifierEvent(node, parentType) => Visit(t, node, parentType)
    case FunctionEvent(_) => t
  }

  function Run(t: Table, evs: seq<Event>): Table
    decreases |evs|
  {
    if evs == [] then t else Run(Apply(t, evs[0]), evs[1..])
  }

  /** The number of counted occurrences of `name` among the events. */
  function Uses(evs: seq<Event>, name: string): nat
    decreases |evs|
  {
    if evs == [] then 0
    else (if IsCountedUse(evs[0], name) then 1 else 0) + Uses(evs[1..], name)
  }

  predicate Declares(evs: seq<Event>, name: string) {
    exists i :: 0 <= i < |evs| && IsDeclaration(evs[i], name)
  }

  /** The position of the first declarator occurrence of `name`. */
  function FirstDecl(evs: seq<Event>, name: string): (k: nat)
    requires Declares(evs, name)
    ensures k < |evs| && IsDeclaration(evs[k], name)
    ensures forall j :: 0 <= j < k ==> !IsDeclaration(evs[j], name)
    decreases |evs|
  {
    if IsDeclaration(evs[0], name) then 0
    else
      assert Declares(evs[1..], name) by {
        var i :| 0 <= i < |evs| && IsDeclaration(evs[i], name);
        assert evs[1..][i - 1] == evs[i];
      }
      var k := FirstDecl(evs[1..], name);
      assert forall j :: 1 <= j <= k ==> evs[j] == evs[1..][j - 1];
      1 + k
  }

  lemma {:induction false} GrowsTransitive(t: Table, u: Table, v: Table)
    requires Grows(t, u) && Grows(u, v)
    ensures Grows(t, v)
  {
  }

  /** Over any traversal no name is dropped, no entry's node is replaced, no
      count decreases, the order only grows at its end, and `order` keeps
      listing the keys of `data` once each. */
  lemma {:induction false} RunGrows(t: Table, evs: seq<Event>)
    ensures Grows(t, Run(t, evs))
    ensures WellFormed(t) ==> WellFormed(Run(t, evs))
    decreases |evs|
  {
    if evs != [] {
      var t' := Apply(t, evs[0]);
      RunGrows(t', evs[1..]);
      GrowsTransitive(t, t', Run(t', evs[1..]));
    }
  }

  /** A registered name keeps its node, and its count grows by exactly its
      counted occurrences; declarator occurrences add nothing. */
  lemma {:induction false} RunRegistered(t: Table, evs: seq<Event>, name: string)
    requires name in t.data
    ensures name in Run(t, evs).data
    ensures Run(t, evs).data[name] == Entry(t.data[name].node, t.data[name].count + Uses(evs, name))
    decreases |evs|
  {
    if evs != [] {
      RunRegistered(Apply(t, evs[0]), evs[1..], name);
    }
  }

  /** A name without an entry gets one exactly when a declarator occurrence
      of it comes; the entry holds the first such node and counts only the
      occurrences after it. */
  lemma {:induction false} RunUnregistered(t: Table, evs: seq<Event>, name: string)
    requires name !in t.data
    ensures name in Run(t, evs).data <==> Declares(evs, name)
    ensures Declares(evs, name) ==>
              var k := FirstDecl(evs, name);
              Run(t, evs).data[name] == Entry(evs[k].node, Uses(evs[k + 1..], name))
    decreases |evs|
  {
    if evs == [] {
      return;
    }
    var t' := Apply(t, evs[0]);
    if IsDeclaration(evs[0], name) {
      assert t'.data[name] == Entry(evs[0].node, 0);
      RunRegistered(t', evs[1..], name);
      assert Declares(evs, name);
    } else {
      assert name !in t'.data;
      RunUnregistered(t', evs[1..], name);
      assert Declares(evs, name) <==> Declares(evs[1..], name) by {
        if Declares(evs, name) {
          var i :| 0 <= i < |evs| && IsDeclaration(evs[i], name);
          assert evs[1..][i - 1] == evs[i];
        }
        if Declares(evs[1..], name) {
          var i :| 0 <= i < |evs[1..]| && IsDeclaration(evs[1..][i], name);
          assert evs[i + 1] == evs[1..][i];
        }
      }
      if Declares(evs, name) {
        var k := FirstDecl(evs[1..], name);
        assert FirstDecl(evs, name) == k + 1;
        assert evs[k + 2..] == evs[1..][k + 1..];
      }
    }
  }

  /** What `Program:exit` reports after the traversal `evs` of one file. */
  function ExitReports(evs: seq<Event>): seq<Report> {
    RunGrows(Empty, evs);
    var t := Run(Empty, evs);
    Reported(t.data, t.order)
  }

  /** A name is reported exactly when it is declared and counted exactly once
      after its first declaration; the report carries that first declaration. */
  lemma ReportedExactly(evs: seq<Event>, name: string)
    ensures (exists k :: 0 <= k < |ExitReports(evs)| && ExitReports(evs)[k].name == name)
            <==> Declares(evs, name) && Uses(evs[FirstDecl(evs, name) + 1..], name) == 1
    ensures forall k :: 0 <= k < |ExitReports(evs)| && ExitReports(evs)[k].name == name ==>
              ExitReports(evs)[k].node == evs[FirstDecl(evs, name)].node
  {
    RunGrows(Empty, evs);
    RunUnregistered(Empty, evs, name);
    var t := Run(Empty, evs);
    assert ExitReports(evs) == Reported(t.data, t.order);
    assert name in t.data <==> name in t.order;
    ReportedSound(t.data, t.order);
    ReportedComplete(t.data, t.order);
  }

  /** Each name is reported at most once. */
  lemma ReportedOnce(evs: seq<Event>)
    ensures forall i, j :: 0 <= i < j < |ExitReports(evs)| ==> ExitReports(evs)[i].name != ExitReports(evs)[j].name
  {
    RunGrows(Empty, evs);
    var t := Run(Empty, evs);
    ReportedDistinct(t.data, t.order);
  }

  lemma {:induction false} RunSnoc(t: Table, evs: seq<Event>, e: Event)
    ensures Run(t, evs + [e]) == Apply(Run(t, evs), e)
    decreases |evs|
  {
    if evs == [] {
      assert evs + [e] == [e];
    } else {
      assert (evs + [e])[0] == evs[0] && (evs + [e])[1..] == evs[1..] + [e];
      RunSnoc(Apply(t, evs[0]), evs[1..], e);
    }
  }

  /** A later event does not move the first declaration of a declared name. */
  lemma FirstDeclSnoc(evs: seq<Event>, e: Event, name: string)
    requires Declares(evs, name)
    ensures Declares(evs + [e], name) && FirstDecl(evs + [e], name) == FirstDecl(evs, name)
  {
    assert forall j :: 0 <= j < |evs| ==> (evs + [e])[j] == evs[j];
  }

  /** The first declaration of a name no earlier event declares is the new one. */
  lemma FirstDeclNew(evs: seq<Event>, e: Event, name: string)
    requires !Declares(evs, name) && IsDeclaration(e, name)
    ensures Declares(evs + [e], name) && FirstDecl(evs + [e], name) == |evs|
  {
    assert (evs + [e])[|evs|] == e;
    assert forall j :: 0 <= j < |evs| ==> (evs + [e])[j] == evs[j];
  }

  /** `a` and `b` are declared, `a` first. */
  predicate DeclaredBefore(evs: seq<Event>, a: string, b: string) {
    Declares(evs, a) && Declares(evs, b) && FirstDecl(evs, a) < FirstDecl(evs, b)
  }

  /** `order` lists declared names by increasing first declaration. */
  ghost predicate SortedByFirstDecl(evs: seq<Event>, order: seq<string>) {
    forall p, q :: 0 <= p < q < |order| ==> DeclaredBefore(evs, order[p], order[q])
  }

  /** A later event keeps an order of declared names sorted. */
  lemma OrderStepSame(init: seq<Event>, e: Event, order: seq<string>)
    requires SortedByFirstDecl(init, order)
    requires forall n :: n in order ==> Declares(init, n)
    ensures SortedByFirstDecl(init + [e], order)
  {
    forall n | n in order
      ensures Declares(init + [e], n) && FirstDecl(init + [e], n) == FirstDecl(init, n)
    {
      FirstDeclSnoc(init, e, n);
    }
    forall p, q | 0 <= p < q < |order|
      ensures DeclaredBefore(init + [e], order[p], order[q])
    {
      assert order[p] in order && order[q] in order;
    }
  }

  /** A name first declared by the new event goes to the end of the order. */
  lemma OrderStepNew(init: seq<Event>, e: Event, order: seq<string>, name: string)
    requires SortedByFirstDecl(init, order)
    requires forall n :: n in order ==> Declares(init, n)
    requires !Declares(init, name) && IsDeclaration(e, name)
    ensures SortedByFirstDecl(init + [e], order + [name])
  {
    var evs := init + [e];
    var o := order + [name];
    OrderStepSame(init, e, order);
    FirstDeclNew(init, e, name);
    forall p, q | 0 <= p < q < |o|
      ensures DeclaredBefore(evs, o[p], o[q])
    {
      assert o[p] == order[p] && order[p] in order;
      FirstDeclSnoc(init, e, o[p]);
      if q < |order| {
        assert o[q] == order[q];
        assert DeclaredBefore(init, order[p], order[q]);
      } else {
        assert o[q] == name;
        assert FirstDecl(evs, o[p]) == FirstDecl(init, o[p]) < |init| == FirstDecl(evs, name);
      }
    }
  }

  /** Names are registered in the order of their first declarations. */
  lemma {:induction false} OrderByFirstDecl(evs: seq<Event>)
    ensures SortedByFirstDecl(evs, Run(Empty, evs).order)
    decreases |evs|
  {
    if evs != [] {
      var init := evs[..|evs| - 1];
      var e := evs[|evs| - 1];
      assert evs == init + [e];
      OrderByFirstDecl(init);
      RunSnoc(Empty, init, e);
      RunGrows(Empty, init);
      RegisteredAreDeclared(init);
      var t := Run(Empty, init);
      var r := Apply(t, e);
      assert forall n :: n in t.order ==> Declares(init, n);
      if r.order == t.order {
        OrderStepSame(init, e, t.order);
      } else {
        var name := e.node.name;
        assert name !in t.data && e.parentType == Declarator && r.order == t.order + [name];
        RunUnregistered(Empty, init, name);
        OrderStepNew(init, e, t.order, name);
      }
    }
  }

  /** Reports come in the order of the names' first declarations. */
  lemma ReportsInDeclarationOrder(evs: seq<Event>)
    ensures forall i, j :: 0 <= i < j < |ExitReports(evs)| ==>
              DeclaredBefore(evs, ExitReports(evs)[i].name, ExitReports(evs)[j].name)
  {
    RunGrows(Empty, evs);
    RegisteredAreDeclared(evs);
    OrderByFirstDecl(evs);
    var t := Run(Empty, evs);
    var rank := (n: string) => if Declares(evs, n) then FirstDecl(evs, n) else -1;
    forall p, q | 0 <= p < q < |t.order|
      ensures rank(t.order[p]) < rank(t.order[q])
    {
      assert DeclaredBefore(evs, t.order[p], t.order[q]);
    }
    ReportedKeepsOrder(t.data, t.order, rank);
    ReportedSound(t.data, t.order);
    var r := ExitReports(evs);
    assert r == Reported(t.data, t.order);
    forall i, j | 0 <= i < j < |r|
      ensures DeclaredBefore(evs, r[i].name, r[j].name)
    {
      assert r[i].name in t.data && r[j].name in t.data;
      assert rank(r[i].name) < rank(r[j].name);
    }
  }

  /** An identifier event for `name` at offset `start`. */
  function IdentifierAt(name: string, start: int, parentType: string): Event {
    IdentifierEvent(Node(name, start, start + |name|), parentType)
  }

  /** `var testVar = 'once';` followed by `calls` lines `console.log(testVar);`.
      The offsets are those of the test code at
      tests/lib/rules/no-one-time-vars.js:58-61, each further call 34 characters
      on; the test at :22-26 has a longer literal, but only the names and the
      parent types affect the result. */
  function LogCalls(calls: nat): seq<Event> {
    [IdentifierAt("testVar", 17, Declarator)] + LogCallsFrom(calls, 47)
  }

  function LogCallsFrom(calls: nat, at: int): seq<Event> {
    if calls == 0 then []
    else [ IdentifierAt("console", at, "MemberExpression"),
           IdentifierAt("log", at + 8, "MemberExpression"),
           IdentifierAt("testVar", at + 12, "CallExpression") ]
         + LogCallsFrom(calls - 1, at + 34)
  }

  lemma {:induction false} UsesAppend(a: seq<Event>, b: seq<Event>, name: string)
    ensures Uses(a + b, name) == Uses(a, name) + Uses(b, name)
    decreases |a|
  {
    if a == [] {
      assert a + b == b;
    } else {
      assert (a + b)[0] == a[0] && (a + b)[1..] == a[1..] + b;
      UsesAppend(a[1..], b, name);
    }
  }

  lemma DeclaresAppend(a: seq<Event>, b: seq<Event>, name: string)
    ensures Declares(a + b, name) <==> Declares(a, name) || Declares(b, name)
  {
    if Declares(a + b, name) {
      var i :| 0 <= i < |a + b| && IsDeclaration((a + b)[i], name);
      if i >= |a| {
        assert (a + b)[i] == b[i - |a|];
      }
    }
    if Declares(a, name) {
      var i :| 0 <= i < |a| && IsDeclaration(a[i], name);
      assert (a + b)[i] == a[i];
    }
    if Declares(b, name) {
      var i :| 0 <= i < |b| && IsDeclaration(b[i], name);
      assert (a + b)[i + |a|] == b[i];
    }
  }

  /** `n` calls of `console.log(testVar)` count `testVar` `n` times and
      declare nothing. */
  lemma {:induction false} LogCallsFromFacts(calls: nat, at: int)
    ensures Uses(LogCallsFrom(calls, at), "testVar") == calls
    ensures forall name :: !Declares(LogCallsFrom(calls, at), name)
    decreases calls
  {
    if calls > 0 {
      var call := [ IdentifierAt("console", at, "MemberExpression"),
                    IdentifierAt("log", at + 8, "MemberExpression"),
                    IdentifierAt("testVar", at + 12, "CallExpression") ];
      var rest := LogCallsFrom(calls - 1, at + 34);
      LogCallsFromFacts(calls - 1, at + 34);
      UsesAppend(call, rest, "testVar");
      assert Counted("CallExpression") && "console" != "testVar" && "log" != "testVar";
      assert call[1..][1..][1..] == [];
      assert Uses(call[1..][1..], "testVar") == 1;
      assert Uses(call, "testVar") == Uses(call[1..][1..], "testVar");
      forall name | true
        ensures !Declares(LogCallsFrom(calls, at), name)
      {
        DeclaresAppend(call, rest, name);
        assert forall i :: 0 <= i < |call| ==> call[i].parentType != Declarator;
      }
    }
  }

  /** In `LogCalls(n)` only `testVar` is declared, first at position 0, and
      it is counted `n` times after that. */
  lemma LogCallsShape(calls: nat)
    ensures forall name :: Declares(LogCalls(calls), name) <==> name == "testVar"
    ensures Declares(LogCalls(calls), "testVar") && FirstDecl(LogCalls(calls), "testVar") == 0
    ensures LogCalls(calls)[1..] == LogCallsFrom(calls, 47)
    ensures Uses(LogCallsFrom(calls, 47), "testVar") == calls
  {
    var decl := [IdentifierAt("testVar", 17, Declarator)];
    var rest := LogCallsFrom(calls, 47);
    LogCallsFromFacts(calls, 47);
    assert IsDeclaration(LogCalls(calls)[0], "testVar");
    forall name | true
      ensures Declares(LogCalls(calls), name) <==> name == "testVar"
    {
      DeclaresAppend(decl, rest, name);
    }
  }

  /** A sequence without repetitions has as many elements as it has members. */
  lemma {:induction false} DistinctCount(s: seq<string>)
    requires NoDup(s)
    ensures |set x | x in s| == |s|
    decreases |s|
  {
    if s != [] {
      var init := s[..|s| - 1];
      assert NoDup(init);
      DistinctCount(init);
      assert (set x | x in s) == (set x | x in init) + {s[|s| - 1]};
    }
  }

  /** `order` is as long as `data` has keys. */
  lemma OrderLength(t: Table)
    requires WellFormed(t)
    ensures |t.order| == |t.data|
  {
    assert t.data.Keys == set x | x in t.order;
    DistinctCount(t.order);
  }

  /** A table whose only key is `name` lists just `name`. */
  lemma SingleKeyOrder(t: Table, name: string)
    requires WellFormed(t) && name in t.data
    requires forall other :: other in t.data ==> other == name
    ensures t.order == [name]
  {
    OrderLength(t);
    assert t.data.Keys == {name};
    assert t.order[0] in t.order;
  }

  /** Only declared names are registered. */
  lemma RegisteredAreDeclared(evs: seq<Event>)
    ensures forall name :: name in Run(Empty, evs).data ==> Declares(evs, name)
  {
    forall name | name in Run(Empty, evs).data
      ensures Declares(evs, name)
    {
      RunUnregistered(Empty, evs, name);
    }
  }

  /** When `name` is the only declared name, it is reported exactly when it
      is counted once after its first declaration, and then alone. */
  lemma OnlyNameDeclared(evs: seq<Event>, name: string)
    requires Declares(evs, name)
    requires forall other :: Declares(evs, other) ==> other == name
    ensures ExitReports(evs) == if Uses(evs[FirstDecl(evs, name) + 1..], name) == 1
                                then [Report(name, evs[FirstDecl(evs, name)].node)] else []
  {
    RunGrows(Empty, evs);
    RunUnregistered(Empty, evs, name);
    RegisteredAreDeclared(evs);
    var t := Run(Empty, evs);
    SingleKeyOrder(t, name);
    assert ExitReports(evs) == Reported(t.data, [name]);
  }

  /** `var testVar = '...';` followed by `n` calls of `console.log(testVar)`
      reports `testVar`, at its declaration, exactly when `n` is 1; two calls
      give no report. */
  lemma LogCallsReported(calls: nat)
    ensures ExitReports(LogCalls(calls)) == if calls == 1 then [Report("testVar", Node("testVar", 17, 24))] else []
  {
    LogCallsShape(calls);
    OnlyNameDeclared(LogCalls(calls), "testVar");
  }

  /** In `var a = b;` both identifiers have the declarator as parent, so the
      initializer `b` is registered, not counted. */
  lemma InitializerIsRegistered()
    ensures Run(Empty, [IdentifierAt("a", 4, Declarator), IdentifierAt("b", 8, Declarator)])
            == Table(map["a" := Entry(Node("a", 4, 5), 0), "b" := Entry(Node("b", 8, 9), 0)], ["a", "b"])
  {
    var evs := [IdentifierAt("a", 4, Declarator), IdentifierAt("b", 8, Declarator)];
    var t1 := Apply(Empty, evs[0]);
    assert t1 == Table(map["a" := Entry(Node("a", 4, 5), 0)], ["a"]);
    assert evs[1..] == [evs[1]];
    var t2 := Apply(t1, evs[1]);
    assert "b" != "a";
    assert t2 == Table(map["a" := Entry(Node("a", 4, 5), 0), "b" := Entry(Node("b", 8, 9), 0)], ["a", "b"]);
    assert Run(t2, []) == t2;
    assert Run(t1, [evs[1]]) == t2;
  }

  /** The visitor calls for the test code at tests/lib/rules/no-one-time-vars.js:70-78,
      in traversal order, with the offsets of that code:
      `module.exports = { create: function() { var testVar = Date.now();
      console.log(Date.now() - testVar); } }`. */
  function CallbackTest(): seq<Event> {
    CallbackHead() + [IdentifierAt("testVar", 87, Declarator)] + CallbackTail()
  }

  /** The calls before the declaration of `testVar`. */
  function CallbackHead(): seq<Event> {
    [ IdentifierAt("module", 13, "MemberExpression"),
      IdentifierAt("exports", 20, "MemberExpression"),
      IdentifierAt("create", 46, "Property"),
      FunctionEvent(FunctionNode(FunctionExpression, 54, 176)) ]
  }

  /** The calls after it; the last one is the operand of `-`. */
  function CallbackTail(): seq<Event> {
    [ IdentifierAt("Date", 97, "MemberExpression"),
      IdentifierAt("now", 102, "MemberExpression"),
      IdentifierAt("console", 126, "MemberExpression"),
      IdentifierAt("log", 134, "MemberExpression"),
      IdentifierAt("Date", 138, "MemberExpression"),
      IdentifierAt("now", 143, "MemberExpression"),
      IdentifierAt("testVar", 151, "BinaryExpression") ]
  }

  /** Events none of which is a counted use of `name` count it zero times. */
  lemma {:induction false} UsesNone(evs: seq<Event>, name: string)
    requires forall i :: 0 <= i < |evs| ==> !IsCountedUse(evs[i], name)
    ensures Uses(evs, name) == 0
    decreases |evs|
  {
    if evs != [] {
      assert forall i :: 0 <= i < |evs[1..]| ==> evs[1..][i] == evs[i + 1];
      UsesNone(evs[1..], name);
    }
  }

  /** A traversal with a single declarator occurrence, of `name`, reports
      `name` at that occurrence exactly when it is counted once afterwards,
      and reports nothing otherwise. */
  lemma SoleDeclaration(pre: seq<Event>, decl: Event, post: seq<Event>, name: string)
    requires forall other :: !Declares(pre, other) && !Declares(post, other)
    requires IsDeclaration(decl, name)
    ensures ExitReports(pre + [decl] + post)
            == if Uses(post, name) == 1 then [Report(name, decl.node)] else []
  {
    var evs := pre + [decl] + post;
    assert evs[|pre|] == decl;
    assert Declares(evs, name);
    forall other | Declares(evs, other)
      ensures other == name
    {
      DeclaresAppend(pre + [decl], post, other);
      DeclaresAppend(pre, [decl], other);
    }
    var k := FirstDecl(evs, name);
    assert k == |pre| by {
      if k < |pre| {
        assert evs[k] == pre[k];
        assert Declares(pre, name);
      }
    }
    assert evs[k + 1..] == post;
    OnlyNameDeclared(evs, name);
  }

  /** In that code the only read of `testVar` is an operand of `-`, so it is
      never counted and nothing is reported, although the test expects a
      report. */
  lemma CallbackTestNotReported()
    ensures ExitReports(CallbackTest()) == []
  {
    var pre, post := CallbackHead(), CallbackTail();
    assert forall i :: 0 <= i < |pre| ==> pre[i].FunctionEvent? || pre[i].parentType != Declarator;
    assert forall i :: 0 <= i < |post| ==> post[i].parentType != Declarator;
    forall other
      ensures !Declares(pre, other) && !Declares(post, other)
    {
    }
    assert !Counted("BinaryExpression");
    UsesNone(post, "testVar");
    SoleDeclaration(pre, IdentifierAt("testVar", 87, Declarator), post, "testVar");
  }

  /** The visitor calls for the test code at tests/lib/rules/no-one-time-vars.js:40-47,
      in traversal order, with the offsets of that code:
      `var testVar = Date.now(); module.exports = { create: function() {
      console.log(Date.now() - testVar); } }`. */
  function TopLevelTest(): seq<Event> {
    [IdentifierAt("testVar", 17, Declarator)] + TopLevelTail()
  }

  /** The calls after the declaration; the last one is the operand of `-`. */
  function TopLevelTail(): seq<Event> {
    [ IdentifierAt("Date", 27, "MemberExpression"),
      IdentifierAt("now", 32, "MemberExpression"),
      IdentifierAt("module", 52, "MemberExpression"),
      IdentifierAt("exports", 59, "MemberExpression"),
      IdentifierAt("create", 85, "Property"),
      FunctionEvent(FunctionNode(FunctionExpression, 93, 174)),
      IdentifierAt("console", 124, "MemberExpression"),
      IdentifierAt("log", 132, "MemberExpression"),
      IdentifierAt("Date", 136, "MemberExpression"),
      IdentifierAt("now", 141, "MemberExpression"),
      IdentifierAt("testVar", 149, "BinaryExpression") ]
  }

  /** Here too the only read of `testVar` is an operand of `-`, inside a
      function this time, so nothing is reported. */
  lemma TopLevelTestNotReported()
    ensures ExitReports(TopLevelTest()) == []
  {
    var decl, post := IdentifierAt("testVar", 17, Declarator), TopLevelTail();
    assert TopLevelTest() == [] + [decl] + post;
    assert forall i :: 0 <= i < |post| ==> post[i].FunctionEvent? || post[i].parentType != Declarator;
    forall other
      ensures !Declares([], other) && !Declares(post, other)
    {
    }
    assert !Counted("BinaryExpression");
    UsesNone(post, "testVar");
    SoleDeclaration([], decl, post, "testVar");
  }
}
