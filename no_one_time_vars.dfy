/** A model of the ESLint rule `no-one-time-vars`.

    The host walks the syntax tree and calls the rule's visitors: `Identifier`
    for every identifier (with the type of its parent node), one of the three
    function visitors for every function node, and `Program:exit` once at the
    end. The rule counts, per name, the identifier occurrences whose parent is
    one of twelve node types, and at program exit reports every name that was
    declared and counted exactly once.
 */
module NoOneTimeVars {

  datatype Option<T> = None | Some(value: T)

  /** The parent node types under which an identifier is looked at at all. */
  const NodeTypes: seq<string> := [
    "AssignmentExpression",
    "ExpressionStatement",
    "VariableDeclarator",
    "AssignmentPattern",
    "LogicalExpression",
    "MemberExpression",
    "ArrayExpression",
    "SwitchStatement",
    "AwaitExpression",
    "CallExpression",
    "IfStatement",
    "Property"
  ]

  const Declarator: string := "VariableDeclarator"

  /** An `Identifier` node: its name and its source range. */
  datatype Node = Node(name: string, start: int, end: int)

  /** The entry the rule keeps per registered name: the identifier that
      registered it and the number of counted occurrences since. */
  datatype Entry = Entry(node: Node, count: nat)

  /** One record of the shared `functions` list. */
  datatype Span = Span(start: int, end: int)

  datatype FunctionKind = ArrowFunctionExpression | FunctionExpression | FunctionDeclaration

  /** A function node as the three function visitors receive it. */
  datatype FunctionNode = FunctionNode(kind: FunctionKind, start: int, end: int)

  /** The first element of `context.options`, as the rule's schema allows it. */
  datatype RuleOptions = RuleOptions(allowInsideFunctions: Option<bool>)

  /** What `Program:exit` hands to `context.report`: the name and the node. */
  datatype Report = Report(name: string, node: Node)

  /** The per-`create` dictionary `data`, with the order in which its keys were
      inserted (the order `Object.entries` enumerates identifier names in). */
  datatype Table = Table(data: map<string, Entry>, order: seq<string>)

  const Empty: Table := Table(map[], [])

  predicate NoDup<T(==)>(s: seq<T>) {
    forall i, j :: 0 <= i < j < |s| ==> s[i] != s[j]
  }

  /** `order` lists every key of `data` exactly once. */
  ghost predicate WellFormed(t: Table) {
    && NoDup(t.order)
    && forall n :: n in t.data <==> n in t.order
  }

  /** An occurrence under this parent type increments an existing entry. */
  predicate Counted(parentType: string) {
    parentType in NodeTypes && parentType != Declarator
  }

  /** `u` is `t` after zero or more visits: no name is dropped, no entry's node
      is replaced, no count decreases, and the old order is a prefix of the new. */
  ghost predicate Grows(t: Table, u: Table) {
    && t.data.Keys <= u.data.Keys
    && (forall n :: n in t.data ==> u.data[n].node == t.data[n].node && u.data[n].count >= t.data[n].count)
    && t.order <= u.order
  }

  /** The `Identifier` visitor as a function of the table before the visit. */
  function Visit(t: Table, node: Node, parentType: string): (r: Table)
    // a parent outside the twelve node types changes nothing
    ensures parentType !in NodeTypes ==> r == t
    // a later declarator occurrence of a registered name changes nothing
    ensures parentType == Declarator && node.name in t.data ==> r == t
    // any other occurrence of an unregistered name changes nothing
    ensures parentType != Declarator && node.name !in t.data ==> r == t
    // a name gets an entry only from a declarator parent, with that node and count 0
    ensures node.name !in t.data && node.name in r.data <==> node.name !in t.data && parentType == Declarator
    ensures node.name !in t.data && node.name in r.data ==>
              r.data[node.name] == Entry(node, 0) && r.order == t.order + [node.name]
    // a registered name keeps its node; its count goes up by one exactly when counted
    ensures node.name in t.data ==>
              && r.order == t.order
              && node.name in r.data
              && r.data[node.name].node == t.data[node.name].node
              && r.data[node.name].count == t.data[node.name].count + (if Counted(parentType) then 1 else 0)
    // no other name is touched
    ensures forall n :: n != node.name ==> (n in r.data <==> n in t.data)
    ensures forall n :: n != node.name && n in t.data ==> r.data[n] == t.data[n]
    ensures Grows(t, r)
    ensures WellFormed(t) ==> WellFormed(r)
  {
    if parentType in NodeTypes then
      if parentType == Declarator then
        if node.name !in t.data then Table(t.data[node.name := Entry(node, 0)], t.order + [node.name])
        else t
      else if node.name in t.data then
        Table(t.data[node.name := t.data[node.name].(count := t.data[node.name].count + 1)], t.order)
      else t
    else t
  }

  /** The reports `Program:exit` makes, in the order of `order`: one per name
      whose count is exactly 1, carrying the node that registered it. */
  function Reported(data: map<string, Entry>, order: seq<string>): (r: seq<Report>)
    requires forall n :: n in order ==> n in data
    ensures |r| <= |order|
    decreases |order|
  {
    if order == [] then []
    else
      var last := order[|order| - 1];
      var init := order[..|order| - 1];
      assert forall n :: n in init ==> n in order;
      Reported(data, init) + if data[last].count == 1 then [Report(last, data[last].node)] else []
  }

  /** Every report names a listed entry whose count is 1 and carries its node. */
  lemma {:induction false} ReportedSound(data: map<string, Entry>, order: seq<string>)
    requires forall n :: n in order ==> n in data
    ensures forall k :: 0 <= k < |Reported(data, order)| ==>
              && Reported(data, order)[k].name in order
              && data[Reported(data, order)[k].name].count == 1
              && Reported(data, order)[k].node == data[Reported(data, order)[k].name].node
    decreases |order|
  {
    if order != [] {
      var init := order[..|order| - 1];
      assert forall n :: n in init ==> n in order;
      ReportedSound(data, init);
    }
  }

  /** Every listed entry whose count is 1 is reported, with its node. */
  lemma {:induction false} ReportedComplete(data: map<string, Entry>, order: seq<string>)
    requires forall n :: n in order ==> n in data
    ensures forall n :: n in order && data[n].count == 1 ==> Report(n, data[n].node) in Reported(data, order)
    decreases |order|
  {
    if order != [] {
      var last := order[|order| - 1];
      var init := order[..|order| - 1];
      assert forall n :: n in init ==> n in order;
      assert forall n :: n in order && n != last ==> n in init;
      ReportedComplete(data, init);
    }
  }

  /** When `order` lists each name once, no name is reported twice. */
  lemma {:induction false} ReportedDistinct(data: map<string, Entry>, order: seq<string>)
    requires forall n :: n in order ==> n in data
    requires NoDup(order)
    ensures forall i, j :: 0 <= i < j < |Reported(data, order)| ==>
              Reported(data, order)[i].name != Reported(data, order)[j].name
    decreases |order|
  {
    if order != [] {
      var last := order[|order| - 1];
      var init := order[..|order| - 1];
      assert forall n :: n in init ==> n in order;
      assert last !in init;
      ReportedDistinct(data, init);
      ReportedSound(data, init);
    }
  }

  /** Extending the order by one name adds that name's report, if any. */
  lemma ReportedStep(data: map<string, Entry>, order: seq<string>, i: nat)
    requires forall n :: n in order ==> n in data
    requires i < |order|
    ensures forall n :: n in order[..i] ==> n in data
    ensures forall n :: n in order[..i + 1] ==> n in data
    ensures Reported(data, order[..i + 1])
            == Reported(data, order[..i]) + if data[order[i]].count == 1 then [Report(order[i], data[order[i]].node)] else []
  {
    assert forall n :: n in order[..i + 1] ==> n in order;
    assert order[..i + 1][..i] == order[..i];
  }

  /** Reports follow registration order: the reports for names registered
      earlier all come before those for names registered later. */
  lemma {:induction false} ReportedAppend(data: map<string, Entry>, a: seq<string>, b: seq<string>)
    requires forall n :: n in a ==> n in data
    requires forall n :: n in b ==> n in data
    ensures forall n :: n in a + b ==> n in data
    ensures Reported(data, a + b) == Reported(data, a) + Reported(data, b)
    decreases |b|
  {
    if b == [] {
      assert a + b == a;
    } else {
      var init := b[..|b| - 1];
      assert (a + b)[..|a + b| - 1] == a + init;
      assert forall n :: n in init ==> n in b;
      ReportedAppend(data, a, init);
    }
  }

  /** Reports keep the relative order of their names in `order`: when `rank`
      increases along `order`, it increases along the reports. */
  lemma {:induction false} ReportedKeepsOrder(data: map<string, Entry>, order: seq<string>, rank: string -> int)
    requires forall n :: n in order ==> n in data
    requires forall p, q :: 0 <= p < q < |order| ==> rank(order[p]) < rank(order[q])
    ensures forall i, j :: 0 <= i < j < |Reported(data, order)| ==>
              rank(Reported(data, order)[i].name) < rank(Reported(data, order)[j].name)
    decreases |order|
  {
    if order != [] {
      var last := order[|order| - 1];
      var init := order[..|order| - 1];
      assert forall n :: n in init ==> n in order;
      ReportedKeepsOrder(data, init, rank);
      ReportedSound(data, init);
      var r := Reported(data, init);
      forall i | 0 <= i < |r|
        ensures rank(r[i].name) < rank(last)
      {
        var p :| 0 <= p < |init| && init[p] == r[i].name;
        assert order[p] == init[p];
      }
    }
  }

  /** Whether `Program:exit` walks the function spans for an entry:
      `(context.options[0] || {allowInsideFunctions: true}).allowInsideFunctions`.
      It reads `context.options` as the rule receives it. Without options the
      fallback object turns the walk on; an option object that reaches the rule
      without the property reads as `undefined` and turns it off. */
  function InsideFunctionsChecked(options: seq<RuleOptions>): (r: bool)
    // no options: the fallback `{allowInsideFunctions: true}` applies
    ensures options == [] ==> r
    // an option object without the property leaves the walk off
    ensures options != [] && options[0].allowInsideFunctions == None ==> !r
    // otherwise the first option object's value decides
    ensures options != [] && options[0].allowInsideFunctions.Some? ==> r == options[0].allowInsideFunctions.value
  {
    if |options| == 0 then true else options[0].allowInsideFunctions == Some(true)
  }

  /** The module-level `functions` array, shared by every rule instance. */
  class FunctionList {
    var spans: seq<Span>

    constructor ()
      ensures spans == []
    {
      spans := [];
    }

    /** `addFunction`: appends the node's range and removes nothing. */
    method AddFunction(node: FunctionNode)
      modifies this
      ensures spans == old(spans) + [Span(node.start, node.end)]
    {
      spans := spans + [Span(node.start, node.end)];
    }
  }

  /** The visitor object `create(context)` returns. `data` and `order` are its
      own; `functions` is the one shared list. */
  class Rule {
    var data: map<string, Entry>
    var order: seq<string>
    const functions: FunctionList
    const options: seq<RuleOptions>

    ghost predicate Valid()
      reads this
    {
      WellFormed(Table(data, order))
    }

    /** `create(context)`: a fresh, empty `data`; the shared list is neither
        copied nor cleared. */
    constructor Create(functions: FunctionList, options: seq<RuleOptions>)
      ensures Valid()
      ensures data == map[] && order == []
      ensures this.functions == functions && this.options == options
      ensures functions.spans == old(functions.spans)
    {
      data := map[];
      order := [];
      this.functions := functions;
      this.options := options;
    }

    /** The `Identifier` visitor. */
    method Identifier(node: Node, parentType: string)
      requires Valid()
      modifies this
      ensures Valid()
      ensures Table(data, order) == Visit(Table(old(data), old(order)), node, parentType)
      ensures functions.spans == old(functions.spans)
    {
      if parentType in NodeTypes {
        if parentType == Declarator {
          if node.name !in data {
            data := data[node.name := Entry(node, 0)];
            order := order + [node.name];
          }
        } else if node.name in data {
          data := data[node.name := data[node.name].(count := data[node.name].count + 1)];
        }
      }
    }

    /** The `ArrowFunctionExpression`, `FunctionExpression` and
        `FunctionDeclaration` visitors, which all call `addFunction`. */
    method Function(node: FunctionNode)
      modifies functions
      ensures functions.spans == old(functions.spans) + [Span(node.start, node.end)]
      ensures data == old(data) && order == old(order)
    {
      functions.AddFunction(node);
    }

    /** The `Program:exit` visitor. The walk over the function spans ends each
        callback with `return`, which only moves on to the next span, so the
        options and the spans have no bearing on what is reported. */
    method ProgramExit() returns (reports: seq<Report>)
      requires Valid()
      ensures reports == Reported(data, order)
    {
      var checkSpans := InsideFunctionsChecked(options);
      assert forall n :: n in order ==> n in data;
      reports := [];
      var i := 0;
      while i < |order|
        invariant 0 <= i <= |order|
        invariant reports == Reported(data, order[..i])
      {
        var name := order[i];
        var value := data[name];
        if checkSpans {
          var j := 0;
          while j < |functions.spans|
            invariant 0 <= j <= |functions.spans|
          {
            var func := functions.spans[j];
            j := j + 1;
            if value.node.start >= func.start && value.node.end <= func.end {
              continue;
            }
          }
        }
        ReportedStep(data, order, i);
        if value.count == 1 {
          reports := reports + [Report(name, value.node)];
        }
        i := i + 1;
      }
      assert order[..i] == order;
    }
  }

  /** Two `create` calls, for two files, with a function node visited in the
      first: the second instance starts with an empty `data` but sees the span
      the first one recorded. */
  method TwoFiles(functions: FunctionList, options: seq<RuleOptions>, fn: FunctionNode)
    returns (first: Rule, second: Rule)
    modifies functions
    ensures first.functions == functions && second.functions == functions
    ensures second.data == map[] && second.order == []
    ensures functions.spans == old(functions.spans) + [Span(fn.start, fn.end)]
  {
    first := new Rule.Create(functions, options);
    first.Function(fn);
    second := new Rule.Create(functions, options);
  }
}
