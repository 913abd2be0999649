/** Dependency extraction: the walk over an expression's syntax tree, against the evaluator whose inputs it predicts.
    `V` stands for JavaScript values; what the language itself does with them comes from a `Host`. */
module Dependencies {
  import opened Prelude

  /** The kinds the parser produces. A non-computed member has an identifier as its property. */
  datatype Ast<V> =
    | Literal(value: V)
    | Identifier(name: string)
    | Member(target: Ast<V>, property: Ast<V>, computed: bool, optional: bool)
    | Call(callee: Ast<V>, args: seq<Ast<V>>)
    | Binary(op: string, left: Ast<V>, right: Ast<V>)
    | Logical(op: string, left: Ast<V>, right: Ast<V>)
    | Unary(op: string, argument: Ast<V>)
    | Conditional(test: Ast<V>, consequent: Ast<V>, alternate: Ast<V>)
    | Object(keys: seq<string>, values: seq<Ast<V>>)
    | Array(elements: seq<Ast<V>>)
    | Nullish(left: Ast<V>, right: Ast<V>)
    | Arrow(params: seq<string>, body: Ast<V>)

  // ---- evaluation ----------------------------------------------------------------------------

  datatype EvalError =
    NotDefined(name: string) | Forbidden | NotCallable | UnknownOperator(op: string) | Thrown(message: string)

  /** `makeClosure` gets a function's parameters, its body, and what the body can see of the context. */
  datatype Host<!V> = Host(
    undefinedValue: V, nullish: V -> bool, truthy: V -> bool,
    text: string -> V, show: V -> string,
    forbidden: V -> bool, get: (V, V) -> Result<V, EvalError>,
    callable: V -> bool, call: (V, V, seq<V>) -> Result<V, EvalError>,
    binary: (string, V, V) -> Result<V, EvalError>, unary: (string, V) -> Result<V, EvalError>,
    makeObject: (seq<string>, seq<V>) -> V, makeArray: seq<V> -> V,
    makeClosure: (seq<string>, Ast<V>, map<string, V>) -> V)

  const BINARY_OPERATORS := {"+", "-", "*", "/", "%", "==", "===", "!=", "!==", "<", ">", "<=", ">="}

  const UNARY_OPERATORS := {"!", "-", "+"}

  function Evaluate<V>(host: Host<V>, node: Ast<V>, ctx: map<string, V>): Result<V, EvalError>
    decreases node, 1
  {
    match node
    case Literal(v) => Ok(v)
    case Identifier(name) => if name in ctx then Ok(ctx[name]) else Err(NotDefined(name))
    case Member(target, property, computed, _) =>
      var o := Evaluate(host, target, ctx);
      if o.Err? then o else
      var p := if computed then Evaluate(host, property, ctx) else Ok(host.text(PropertyName(property)));
      if p.Err? then p
      else if host.forbidden(p.value) then Err(Forbidden)
      else if host.nullish(o.value) then Ok(host.undefinedValue)
      else host.get(o.value, p.value)
    case Call(callee, args) =>
      var receiver := if callee.Member? then Evaluate(host, callee.target, ctx) else Ok(host.undefinedValue);
      if receiver.Err? then receiver
      else if callee.Member? && callee.optional && host.nullish(receiver.value) then Ok(host.undefinedValue)
      else
        var f := Evaluate(host, callee, ctx);
        if f.Err? then f
        else if !host.callable(f.value) then Err(NotCallable)
        else
          var vs := EvaluateAll(host, args, ctx);
          if vs.Err? then Err(vs.error) else host.call(f.value, receiver.value, vs.value)
    case Binary(op, left, right) =>
      var l := Evaluate(host, left, ctx);
      if l.Err? then l else
      var r := Evaluate(host, right, ctx);
      if r.Err? then r
      else if op in BINARY_OPERATORS then host.binary(op, l.value, r.value) else Err(UnknownOperator(op))
    case Logical(op, left, right) =>
      var l := Evaluate(host, left, ctx);
      if l.Err? then l
      else if op == "&&" then (if host.truthy(l.value) then Evaluate(host, right, ctx) else l)
      else if op == "||" then (if host.truthy(l.value) then l else Evaluate(host, right, ctx))
      else Err(UnknownOperator(op))
    case Unary(op, argument) =>
      var a := Evaluate(host, argument, ctx);
      if a.Err? then a
      else if op in UNARY_OPERATORS then host.unary(op, a.value) else Err(UnknownOperator(op))
    case Conditional(test, consequent, alternate) =>
      var t := Evaluate(host, test, ctx);
      if t.Err? then t
      else if host.truthy(t.value) then Evaluate(host, consequent, ctx) else Evaluate(host, alternate, ctx)
    case Object(keys, values) =>
      var vs := EvaluateAll(host, values, ctx);
      if vs.Err? then Err(vs.error) else Ok(host.makeObject(keys, vs.value))
    case Array(elements) =>
      var vs := EvaluateAll(host, elements, ctx);
      if vs.Err? then Err(vs.error) else Ok(host.makeArray(vs.value))
    case Nullish(left, right) =>
      var l := Evaluate(host, left, ctx);
      if l.Ok? && host.nullish(l.value) then Evaluate(host, right, ctx) else l
    case Arrow(params, body) => Ok(host.makeClosure(params, body, Captured(node, ctx)))
  }

  function EvaluateAll<V>(host: Host<V>, nodes: seq<Ast<V>>, ctx: map<string, V>): Result<seq<V>, EvalError>
    decreases nodes, 0
  {
    if nodes == [] then Ok([])
    else
      var v := Evaluate(host, nodes[0], ctx);
      if v.Err? then Err(v.error) else
      var vs := EvaluateAll(host, nodes[1..], ctx);
      if vs.Err? then vs else Ok([v.value] + vs.value)
  }

  function PropertyName<V>(property: Ast<V>): string { if property.Identifier? then property.name else "undefined" }

  /** The names of the context that evaluating the node, now or later, can read. */
  function Captured<V>(node: Ast<V>, ctx: map<string, V>): map<string, V> {
    map k | k in ctx && (!IsSignal(k) || k[1..] in Mentioned(node)) :: ctx[k]
  }

  /** The context a function's body is evaluated in: parameters shadow, missing arguments are undefined. */
  function Bind<V>(host: Host<V>, ctx: map<string, V>, params: seq<string>, args: seq<V>): map<string, V>
    decreases |params|
  {
    if params == [] then ctx
    else
      var arg := if args == [] then host.undefinedValue else args[0];
      Bind(host, ctx[params[0] := arg], params[1..], if args == [] then [] else args[1..])
  }

  /** Which operand a branching expression gives, by the value of the first one: `and`, `or`, `??` and `?:`. An error of
      the first one is the error of the whole. */
  lemma OperandsDecide<V>(host: Host<V>, first: Ast<V>, second: Ast<V>, third: Ast<V>, ctx: map<string, V>)
    ensures var l, r := Evaluate(host, first, ctx), Evaluate(host, second, ctx);
      var both, either, rather, choice :=
        Evaluate(host, Logical("&&", first, second), ctx), Evaluate(host, Logical("||", first, second), ctx),
        Evaluate(host, Nullish(first, second), ctx), Evaluate(host, Conditional(first, second, third), ctx);
      if l.Err? then both == either == rather == choice == l
      else
        && (host.truthy(l.value) ==> both == r && either == l && choice == r)
        && (!host.truthy(l.value) ==> both == l && either == r && choice == Evaluate(host, third, ctx))
        && rather == if host.nullish(l.value) then r else l
  {
  }

  // ---- extraction ------------------------------------------------------------------------------

  datatype Dependency = Dependency(signal: string, path: seq<string>, computed: bool)

  predicate IsSignal(name: string) { name != "" && name[0] == '$' }

  function PathPart<V>(host: Host<V>, node: Ast<V>): seq<string>
    requires node.Member?
  {
    if node.computed then (if node.property.Literal? then [host.show(node.property.value)] else ["*"])
    else if node.property.Identifier? then [node.property.name] else []
  }

  /** The path of a chain of members, root to leaf. */
  function PathOf<V>(host: Host<V>, node: Ast<V>): seq<string> {
    if node.Member? then PathOf(host, node.target) + PathPart(host, node) else []
  }

  method ExtractPath<V>(host: Host<V>, node: Ast<V>) returns (parts: seq<string>)
    ensures parts == PathOf(host, node)
  {
    parts := [];
    var current := node;
    while current.Member?
      invariant PathOf(host, node) == PathOf(host, current) + parts
      decreases current
    {
      parts := PathPart(host, current) + parts;
      current := current.target;
    }
  }

  datatype Walk = Walk(deps: seq<Dependency>, seen: set<string>)

  /** Records a dependency unless its key was met before. */
  function Note(w: Walk, key: string, d: Dependency): Walk {
    if key in w.seen then w else Walk(w.deps + [d], w.seen + {key})
  }

  function Walked<V>(host: Host<V>, node: Ast<V>, w: Walk): Walk
    decreases node, 1
  {
    match node
    case Identifier(name) =>
      if IsSignal(name) then Note(w, name[1..], Dependency(name[1..], [], false)) else w
    case Member(target, property, computed, _) =>
      var w1 :=
        if target.Identifier? && IsSignal(target.name) then
          Note(w, target.name[1..] + "." + Join(PathOf(host, node), "."),
            Dependency(target.name[1..], PathOf(host, node), computed))
        else Walked(host, target, w);
      if computed then Walked(host, property, w1) else w1
    case Call(callee, args) => WalkedAll(host, args, Walked(host, callee, w))
    case Binary(_, left, right) => Walked(host, right, Walked(host, left, w))
    case Logical(_, left, right) => Walked(host, right, Walked(host, left, w))
    case Unary(_, argument) => Walked(host, argument, w)
    case Conditional(test, consequent, alternate) =>
      Walked(host, alternate, Walked(host, consequent, Walked(host, test, w)))
    case Object(_, values) => WalkedAll(host, values, w)
    case _ => w
  }

  function WalkedAll<V>(host: Host<V>, nodes: seq<Ast<V>>, w: Walk): Walk
    decreases nodes, 0
  {
    if nodes == [] then w else WalkedAll(host, nodes[1..], Walked(host, nodes[0], w))
  }

  lemma {:induction false} WalkedAllSnoc<V>(host: Host<V>, nodes: seq<Ast<V>>, node: Ast<V>, w: Walk)
    ensures WalkedAll(host, nodes + [node], w) == Walked(host, node, WalkedAll(host, nodes, w))
    decreases |nodes|
  {
    if nodes == [] {
      assert ([node])[1..] == [];
      assert [] + [node] == [node];
    } else {
      assert (nodes + [node])[1..] == nodes[1..] + [node];
      WalkedAllSnoc(host, nodes[1..], node, Walked(host, nodes[0], w));
    }
  }

  class Extractor<V> {
    const host: Host<V>
    var deps: seq<Dependency>
    var seen: set<string>

    constructor (host: Host<V>)
      ensures this.host == host && deps == [] && seen == {}
    {
      this.host, deps, seen := host, [], {};
    }

    method Record(key: string, d: Dependency)
      modifies this
      ensures Walk(deps, seen) == Note(Walk(old(deps), old(seen)), key, d)
    {
      if key !in seen {
        seen := seen + {key};
        deps := deps + [d];
      }
    }

    method Visit(node: Ast<V>)
      modifies this
      ensures Walk(deps, seen) == Walked(host, node, Walk(old(deps), old(seen)))
      decreases node, 1
    {
      match node {
        case Identifier(name) =>
          if IsSignal(name) { Record(name[1..], Dependency(name[1..], [], false)); }
        case Member(target, property, computed, _) =>
          if target.Identifier? && IsSignal(target.name) {
            var path := ExtractPath(host, node);
            Record(target.name[1..] + "." + Join(path, "."), Dependency(target.name[1..], path, computed));
          } else {
            Visit(target);
          }
          if computed { Visit(property); }
        case Call(callee, args) =>
          Visit(callee);
          VisitAll(args);
        case Binary(_, left, right) =>
          Visit(left);
          Visit(right);
        case Logical(_, left, right) =>
          Visit(left);
          Visit(right);
        case Unary(_, argument) => Visit(argument);
        case Conditional(test, consequent, alternate) =>
          Visit(test);
          Visit(consequent);
          Visit(alternate);
        case Object(_, values) => VisitAll(values);
        case _ =>
      }
    }

    method VisitAll(nodes: seq<Ast<V>>)
      modifies this
      ensures Walk(deps, seen) == WalkedAll(host, nodes, Walk(old(deps), old(seen)))
      decreases nodes, 0
    {
      for i := 0 to |nodes|
        invariant Walk(deps, seen) == WalkedAll(host, nodes[..i], Walk(old(deps), old(seen)))
      {
        WalkedAllSnoc(host, nodes[..i], nodes[i], Walk(old(deps), old(seen)));
        assert nodes[..i + 1] == nodes[..i] + [nodes[i]];
        Visit(nodes[i]);
      }
      assert nodes[..|nodes|] == nodes;
    }
  }

  const NOTHING := Walk([], {})

  function Extracted<V>(host: Host<V>, node: Ast<V>): seq<Dependency> { Walked(host, node, NOTHING).deps }

  /** `None` is an expression that does not compile. */
  method ExtractDependencies<V>(host: Host<V>, ast: Option<Ast<V>>) returns (deps: seq<Dependency>)
    ensures deps == if ast.Some? then Extracted(host, ast.value) else []
  {
    if ast.None? { return []; }
    var e := new Extractor(host);
    e.Visit(ast.value);
    return e.deps;
  }

  // ---- which signals are found ---------------------------------------------------------------------

  function SignalsOf(deps: seq<Dependency>): set<string> { set d | d in deps :: d.signal }

  /** The signals whose value evaluation may need. */
  function Mentioned<V>(node: Ast<V>): set<string>
    decreases node, 1
  {
    match node
    case Literal(_) => {}
    case Identifier(name) => if IsSignal(name) then {name[1..]} else {}
    case Member(target, property, computed, _) => Mentioned(target) + if computed then Mentioned(property) else {}
    case Call(callee, args) => Mentioned(callee) + MentionedAll(args)
    case Binary(_, left, right) => Mentioned(left) + Mentioned(right)
    case Logical(_, left, right) => Mentioned(left) + Mentioned(right)
    case Unary(_, argument) => Mentioned(argument)
    case Conditional(test, consequent, alternate) => Mentioned(test) + Mentioned(consequent) + Mentioned(alternate)
    case Object(_, values) => MentionedAll(values)
    case Array(elements) => MentionedAll(elements)
    case Nullish(left, right) => Mentioned(left) + Mentioned(right)
    case Arrow(params, body) => Mentioned(body) - ParamSignals(params)
  }

  /** The signals that a function's parameters shadow. */
  function ParamSignals(params: seq<string>): set<string> { set p | p in params && IsSignal(p) :: p[1..] }

  function MentionedAll<V>(nodes: seq<Ast<V>>): set<string>
    decreases nodes, 0
  {
    if nodes == [] then {} else Mentioned(nodes[0]) + MentionedAll(nodes[1..])
  }

  /** The part of them that stands outside array literals, `??` and function bodies, kinds the walk passes by. */
  function Reached<V>(node: Ast<V>): set<string>
    decreases node, 1
  {
    match node
    case Identifier(name) => if IsSignal(name) then {name[1..]} else {}
    case Member(target, property, computed, _) => Reached(target) + if computed then Reached(property) else {}
    case Call(callee, args) => Reached(callee) + ReachedAll(args)
    case Binary(_, left, right) => Reached(left) + Reached(right)
    case Logical(_, left, right) => Reached(left) + Reached(right)
    case Unary(_, argument) => Reached(argument)
    case Conditional(test, consequent, alternate) => Reached(test) + Reached(consequent) + Reached(alternate)
    case Object(_, values) => ReachedAll(values)
    case _ => {}
  }

  function ReachedAll<V>(nodes: seq<Ast<V>>): set<string>
    decreases nodes, 0
  {
    if nodes == [] then {} else Reached(nodes[0]) + ReachedAll(nodes[1..])
  }

  /** The part that stands inside them. */
  function Hidden<V>(node: Ast<V>): set<string>
    decreases node, 1
  {
    match node
    case Member(target, property, computed, _) => Hidden(target) + if computed then Hidden(property) else {}
    case Call(callee, args) => Hidden(callee) + HiddenAll(args)
    case Binary(_, left, right) => Hidden(left) + Hidden(right)
    case Logical(_, left, right) => Hidden(left) + Hidden(right)
    case Unary(_, argument) => Hidden(argument)
    case Conditional(test, consequent, alternate) => Hidden(test) + Hidden(consequent) + Hidden(alternate)
    case Object(_, values) => HiddenAll(values)
    case Array(_) => Mentioned(node)
    case Nullish(_, _) => Mentioned(node)
    case Arrow(_, _) => Mentioned(node)
    case _ => {}
  }

  function HiddenAll<V>(nodes: seq<Ast<V>>): set<string>
    decreases nodes, 0
  {
    if nodes == [] then {} else Hidden(nodes[0]) + HiddenAll(nodes[1..])
  }

  /** Every mentioned signal is reached, hidden, or both. */
  lemma {:induction false} ReachedOrHidden<V>(node: Ast<V>)
    ensures Mentioned(node) == Reached(node) + Hidden(node)
    decreases node, 1
  {
    match node
    case Member(target, property, _, _) =>
      ReachedOrHidden(target);
      ReachedOrHidden(property);
    case Call(callee, args) =>
      ReachedOrHidden(callee);
      AllReachedOrHidden(args);
    case Binary(_, left, right) =>
      ReachedOrHidden(left);
      ReachedOrHidden(right);
    case Logical(_, left, right) =>
      ReachedOrHidden(left);
      ReachedOrHidden(right);
    case Unary(_, argument) => ReachedOrHidden(argument);
    case Conditional(test, consequent, alternate) =>
      ReachedOrHidden(test);
      ReachedOrHidden(consequent);
      ReachedOrHidden(alternate);
    case Object(_, values) => AllReachedOrHidden(values);
    case _ =>
  }

  lemma {:induction false} AllReachedOrHidden<V>(nodes: seq<Ast<V>>)
    ensures MentionedAll(nodes) == ReachedAll(nodes) + HiddenAll(nodes)
    decreases nodes, 0
  {
    if nodes != [] {
      ReachedOrHidden(nodes[0]);
      AllReachedOrHidden(nodes[1..]);
    }
  }

  /** No identifier contains a dot; the lexer never builds one that does. */
  ghost predicate DotFree<V>(node: Ast<V>)
    decreases node, 1
  {
    match node
    case Literal(_) => true
    case Identifier(name) => '.' !in name
    case Member(target, property, _, _) => DotFree(target) && DotFree(property)
    case Call(callee, args) => DotFree(callee) && DotFreeAll(args)
    case Binary(_, left, right) => DotFree(left) && DotFree(right)
    case Logical(_, left, right) => DotFree(left) && DotFree(right)
    case Unary(_, argument) => DotFree(argument)
    case Conditional(test, consequent, alternate) => DotFree(test) && DotFree(consequent) && DotFree(alternate)
    case Object(_, values) => DotFreeAll(values)
    case Array(elements) => DotFreeAll(elements)
    case Nullish(left, right) => DotFree(left) && DotFree(right)
    case Arrow(params, body) => (forall p :: p in params ==> '.' !in p) && DotFree(body)
  }

  ghost predicate DotFreeAll<V>(nodes: seq<Ast<V>>)
    decreases nodes, 0
  {
    nodes == [] || (DotFree(nodes[0]) && DotFreeAll(nodes[1..]))
  }

  /** What stands before the first dot. */
  function BeforeDot(key: string): string {
    if key == "" || key[0] == '.' then "" else [key[0]] + BeforeDot(key[1..])
  }

  lemma {:induction false} BeforeDotOf(signal: string, rest: string)
    requires '.' !in signal
    ensures BeforeDot(signal + "." + rest) == signal && BeforeDot(signal) == signal
  {
    if signal == "" {
      assert signal + "." + rest == "." + rest;
    } else {
      assert (signal + "." + rest)[1..] == signal[1..] + "." + rest;
      BeforeDotOf(signal[1..], rest);
    }
  }

  /** Every key that was met belongs to a signal that was recorded. */
  ghost predicate Consistent(w: Walk) {
    forall key :: key in w.seen ==> BeforeDot(key) in SignalsOf(w.deps)
  }

  lemma NoteSignal(w: Walk, key: string, d: Dependency)
    requires Consistent(w) && BeforeDot(key) == d.signal
    ensures Consistent(Note(w, key, d))
    ensures SignalsOf(Note(w, key, d).deps) == SignalsOf(w.deps) + {d.signal}
  {
    if key !in w.seen {
      assert SignalsOf(w.deps + [d]) == SignalsOf(w.deps) + {d.signal};
    }
  }

  /** The walk adds exactly the signals it reaches. */
  lemma {:induction false} WalkFinds<V>(host: Host<V>, node: Ast<V>, w: Walk)
    requires Consistent(w) && DotFree(node)
    ensures var r := Walked(host, node, w);
      && Consistent(r)
      && SignalsOf(r.deps) == SignalsOf(w.deps) + Reached(node)
    decreases node, 1
  {
    match node
    case Identifier(name) =>
      if IsSignal(name) {
        BeforeDotOf(name[1..], "");
        NoteSignal(w, name[1..], Dependency(name[1..], [], false));
      }
    case Member(target, property, computed, _) =>
      var w1: Walk;
      if target.Identifier? && IsSignal(target.name) {
        var key := target.name[1..] + "." + Join(PathOf(host, node), ".");
        var d := Dependency(target.name[1..], PathOf(host, node), computed);
        BeforeDotOf(target.name[1..], Join(PathOf(host, node), "."));
        NoteSignal(w, key, d);
        w1 := Note(w, key, d);
      } else {
        WalkFinds(host, target, w);
        w1 := Walked(host, target, w);
      }
      if computed { WalkFinds(host, property, w1); }
    case Call(callee, args) =>
      WalkFinds(host, callee, w);
      WalkFindsAll(host, args, Walked(host, callee, w));
    case Binary(_, left, right) =>
      WalkFinds(host, left, w);
      WalkFinds(host, right, Walked(host, left, w));
    case Logical(_, left, right) =>
      WalkFinds(host, left, w);
      WalkFinds(host, right, Walked(host, left, w));
    case Unary(_, argument) => WalkFinds(host, argument, w);
    case Conditional(test, consequent, alternate) =>
      var w1 := Walked(host, test, w);
      WalkFinds(host, test, w);
      WalkFinds(host, consequent, w1);
      WalkFinds(host, alternate, Walked(host, consequent, w1));
    case Object(_, values) => WalkFindsAll(host, values, w);
    case _ =>
  }

  lemma {:induction false} WalkFindsAll<V>(host: Host<V>, nodes: seq<Ast<V>>, w: Walk)
    requires Consistent(w) && DotFreeAll(nodes)
    ensures var r := WalkedAll(host, nodes, w);
      && Consistent(r)
      && SignalsOf(r.deps) == SignalsOf(w.deps) + ReachedAll(nodes)
    decreases nodes, 0
  {
    if nodes != [] {
      WalkFinds(host, nodes[0], w);
      WalkFindsAll(host, nodes[1..], Walked(host, nodes[0], w));
    }
  }

  // ---- soundness -------------------------------------------------------------------------------------

  /** The contexts agree on the given signals and on every name that is not a signal. */
  ghost predicate Agree<V>(c: map<string, V>, d: map<string, V>, signals: set<string>) {
    forall name: string :: !IsSignal(name) || name[1..] in signals ==>
      (name in c <==> name in d) && (name in c ==> c[name] == d[name])
  }

  lemma CallAlike<V>(host: Host<V>, callee: Ast<V>, args: seq<Ast<V>>, c: map<string, V>, d: map<string, V>)
    requires Evaluate(host, callee, c) == Evaluate(host, callee, d)
    requires callee.Member? ==> Evaluate(host, callee.target, c) == Evaluate(host, callee.target, d)
    requires EvaluateAll(host, args, c) == EvaluateAll(host, args, d)
    ensures Evaluate(host, Call(callee, args), c) == Evaluate(host, Call(callee, args), d)
  {
  }

  lemma {:induction false} EvaluationNeedsOnlyMentioned<V>(host: Host<V>, node: Ast<V>, c: map<string, V>,
                                                           d: map<string, V>, signals: set<string>)
    requires Agree(c, d, signals) && Mentioned(node) <= signals
    ensures Evaluate(host, node, c) == Evaluate(host, node, d)
    decreases node, 1
  {
    match node
    case Literal(_) =>
    case Identifier(_) =>
    case Member(target, property, computed, _) =>
      EvaluationNeedsOnlyMentioned(host, target, c, d, signals);
      if computed { EvaluationNeedsOnlyMentioned(host, property, c, d, signals); }
    case Call(callee, args) =>
      if callee.Member? { EvaluationNeedsOnlyMentioned(host, callee.target, c, d, signals); }
      EvaluationNeedsOnlyMentioned(host, callee, c, d, signals);
      EvaluateAllNeedsOnlyMentioned(host, args, c, d, signals);
      CallAlike(host, callee, args, c, d);
    case Binary(_, left, right) =>
      EvaluationNeedsOnlyMentioned(host, left, c, d, signals);
      EvaluationNeedsOnlyMentioned(host, right, c, d, signals);
    case Logical(_, left, right) =>
      EvaluationNeedsOnlyMentioned(host, left, c, d, signals);
      EvaluationNeedsOnlyMentioned(host, right, c, d, signals);
    case Unary(_, argument) => EvaluationNeedsOnlyMentioned(host, argument, c, d, signals);
    case Conditional(test, consequent, alternate) =>
      EvaluationNeedsOnlyMentioned(host, test, c, d, signals);
      EvaluationNeedsOnlyMentioned(host, consequent, c, d, signals);
      EvaluationNeedsOnlyMentioned(host, alternate, c, d, signals);
    case Object(_, values) => EvaluateAllNeedsOnlyMentioned(host, values, c, d, signals);
    case Array(elements) => EvaluateAllNeedsOnlyMentioned(host, elements, c, d, signals);
    case Nullish(left, right) =>
      EvaluationNeedsOnlyMentioned(host, left, c, d, signals);
      EvaluationNeedsOnlyMentioned(host, right, c, d, signals);
    case Arrow(_, _) => CapturedAlike(node, c, d, signals);
  }

  lemma CapturedAlike<V>(node: Ast<V>, c: map<string, V>, d: map<string, V>, signals: set<string>)
    requires Agree(c, d, signals) && Mentioned(node) <= signals
    ensures Captured(node, c) == Captured(node, d)
  {
    forall k | !IsSignal(k) || k[1..] in Mentioned(node)
      ensures (k in c <==> k in d) && (k in c ==> c[k] == d[k])
    {
    }
  }

  lemma {:induction false} EvaluateAllNeedsOnlyMentioned<V>(host: Host<V>, nodes: seq<Ast<V>>, c: map<string, V>,
                                                            d: map<string, V>, signals: set<string>)
    requires Agree(c, d, signals) && MentionedAll(nodes) <= signals
    ensures EvaluateAll(host, nodes, c) == EvaluateAll(host, nodes, d)
    decreases nodes, 0
  {
    if nodes != [] {
      EvaluationNeedsOnlyMentioned(host, nodes[0], c, d, signals);
      EvaluateAllNeedsOnlyMentioned(host, nodes[1..], c, d, signals);
    }
  }

  /** Two contexts that agree on a name, or bind it as a parameter, still do so when a function's body is evaluated. */
  lemma {:induction false} BindAlike<V>(host: Host<V>, c: map<string, V>, d: map<string, V>, params: seq<string>,
                                        args: seq<V>, k: string)
    requires k in params || ((k in c <==> k in d) && (k in c ==> c[k] == d[k]))
    ensures var u, v := Bind(host, c, params, args), Bind(host, d, params, args);
      (k in u <==> k in v) && (k in u ==> u[k] == v[k])
    decreases |params|
  {
    if params != [] {
      var arg := if args == [] then host.undefinedValue else args[0];
      BindAlike(host, c[params[0] := arg], d[params[0] := arg], params[1..], if args == [] then [] else args[1..], k);
    }
  }

  /** Handing a closure only what it captured changes nothing: whatever it is called with, its body evaluates as it
      would in the whole context. */
  lemma ClosureNeedsOnlyItsCapture<V>(host: Host<V>, params: seq<string>, body: Ast<V>, ctx: map<string, V>,
                                      args: seq<V>)
    ensures Evaluate(host, body, Bind(host, Captured(Arrow(params, body), ctx), params, args))
            == Evaluate(host, body, Bind(host, ctx, params, args))
  {
    var captured := Captured(Arrow(params, body), ctx);
    var u, v := Bind(host, captured, params, args), Bind(host, ctx, params, args);
    forall k: string | !IsSignal(k) || k[1..] in Mentioned(body)
      ensures (k in u <==> k in v) && (k in u ==> u[k] == v[k])
    {
      if k !in params && IsSignal(k) { NotAParamSignal(params, k); }
      BindAlike(host, captured, ctx, params, args, k);
    }
    EvaluationNeedsOnlyMentioned(host, body, u, v, Mentioned(body));
  }

  lemma NotAParamSignal(params: seq<string>, k: string)
    requires IsSignal(k) && k !in params
    ensures k[1..] !in ParamSignals(params)
  {
    forall p | p in params && IsSignal(p) ensures p[1..] != k[1..] {
      assert p == ['$'] + p[1..] && k == ['$'] + k[1..];
    }
  }

  /** What is extracted: exactly the signals outside array literals, `??` and function bodies. */
  lemma ExtractsExactlyReached<V>(host: Host<V>, node: Ast<V>)
    requires DotFree(node)
    ensures SignalsOf(Extracted(host, node)) == Reached(node) <= Mentioned(node)
  {
    WalkFinds(host, node, NOTHING);
    ReachedOrHidden(node);
  }

  /** Extraction finds every signal of the expression if and only if those inside array literals, `??` and function
      bodies also occur outside. */
  lemma ExtractionIsCompleteIffNothingHidden<V>(host: Host<V>, node: Ast<V>)
    requires DotFree(node)
    ensures SignalsOf(Extracted(host, node)) == Mentioned(node) <==> Hidden(node) <= Reached(node)
  {
    ExtractsExactlyReached(host, node);
    ReachedOrHidden(node);
  }

  /** Soundness: contexts that agree on the extracted signals, and on all names without a dollar, evaluate alike. */
  lemma ExtractionIsSound<V>(host: Host<V>, node: Ast<V>, c: map<string, V>, d: map<string, V>)
    requires DotFree(node) && Hidden(node) <= Reached(node)
    requires Agree(c, d, SignalsOf(Extracted(host, node)))
    ensures Evaluate(host, node, c) == Evaluate(host, node, d)
  {
    ExtractionIsCompleteIffNothingHidden(host, node);
    EvaluationNeedsOnlyMentioned(host, node, c, d, SignalsOf(Extracted(host, node)));
  }

  /** The condition is not necessary for soundness, only for completeness: a hidden signal in a branch that can never be
      taken does no harm, whatever the values. No condition on the kinds and names alone can tell such branches. */
  lemma DeadBranchIsHarmless<V>(host: Host<V>, v: V, c: map<string, V>, d: map<string, V>)
    ensures var lit := Literal(v);
      var node := Conditional(lit, Conditional(lit, lit, Array([Identifier("$a")])), lit);
      && !(Hidden(node) <= Reached(node))
      && Evaluate(host, node, c) == Evaluate(host, node, d)
  {
    var lit, list := Literal(v), Array([Identifier("$a")]);
    assert IsSignal("$a") && "$a"[1..] == "a";
    assert MentionedAll<V>([Identifier("$a")]) == {"a"};
    assert Hidden(list) == {"a"} && Reached(lit) == {} && Reached(list) == {};
    var inner := Conditional(lit, lit, list);
    assert Hidden(inner) == {"a"} && Reached(inner) == {};
    assert Evaluate(host, lit, c) == Ok(v) == Evaluate(host, lit, d);
  }

  /** Without that condition it fails: `$a ?? 1` extracts nothing, yet its value is that of `$a`. */
  lemma NullishHidesItsSignal<V>(host: Host<V>, one: V, x: V, y: V)
    requires x != y && !host.nullish(x) && !host.nullish(y)
    ensures var node, c, d := Nullish(Identifier("$a"), Literal(one)), map["$a" := x], map["$a" := y];
      && DotFree(node) && Extracted(host, node) == []
      && Agree(c, d, SignalsOf(Extracted(host, node)))
      && Evaluate(host, node, c) != Evaluate(host, node, d)
  {
  }

  /** So is a function body passed by: `() => $a` extracts nothing, yet closes over `$a`. */
  lemma ArrowHidesItsSignal<V>(host: Host<V>, x: V, y: V)
    requires host.makeClosure([], Identifier("$a"), map["$a" := x]) !=
             host.makeClosure([], Identifier("$a"), map["$a" := y])
    ensures var node, c, d := Arrow([], Identifier("$a")), map["$a" := x], map["$a" := y];
      && DotFree(node) && Extracted(host, node) == []
      && Agree(c, d, SignalsOf(Extracted(host, node)))
      && Evaluate(host, node, c) != Evaluate(host, node, d)
  {
    var node: Ast<V>, c, d := Arrow([], Identifier("$a")), map["$a" := x], map["$a" := y];
    assert IsSignal("$a") && ParamSignals([]) == {} && Mentioned(node) == {"$a"[1..]};
    assert Captured(node, c) == c && Captured(node, d) == d;
  }

  // ---- paths ----------------------------------------------------------------------------------------------

  /** A chain of member steps from a signal: `$a.b.c`, `$a[0].b`. */
  predicate IsChain<V>(node: Ast<V>) {
    node.Member? && (node.computed || node.property.Identifier?) &&
    (if node.target.Member? then IsChain(node.target) else node.target.Identifier? && IsSignal(node.target.name))
  }

  function Steps<V>(node: Ast<V>): nat { if node.Member? then 1 + Steps(node.target) else 0 }

  lemma {:induction false} PathHasAllSteps<V>(host: Host<V>, node: Ast<V>)
    requires IsChain(node)
    ensures |PathOf(host, node)| == Steps(node)
  {
    if node.target.Member? { PathHasAllSteps(host, node.target); }
  }

  /** Of a chain from a signal, the whole path is recorded if and only if it has a single step. */
  lemma WholePathIffOneStep<V>(host: Host<V>, node: Ast<V>)
    requires IsChain(node)
    ensures (exists d :: d in Extracted(host, node) && d.path == PathOf(host, node)) <==> Steps(node) == 1
  {
    PathHasAllSteps(host, node);
    PathsHaveOneStep(host, node, NOTHING);
    if Steps(node) == 1 {
      var d := Dependency(node.target.name[1..], PathOf(host, node), node.computed);
      var w := Note(NOTHING, node.target.name[1..] + "." + Join(PathOf(host, node), "."), d);
      assert d in w.deps;
      if node.computed { WalkKeeps(host, node.property, w); }
      assert d in Extracted(host, node);
    }
  }

  /** `$a.b.c` is recorded as `$a.b`: the path is not the documented one. */
  lemma DeepPathIsCut<V>(host: Host<V>)
    ensures var node := Member(Member(Identifier("$a"), Identifier("b"), false, false), Identifier("c"), false, false);
      Extracted(host, node) == [Dependency("a", ["b"], false)] && PathOf(host, node) == ["b", "c"]
  {
    var inner: Ast<V> := Member(Identifier("$a"), Identifier("b"), false, false);
    assert "$a"[1..] == "a" && PathOf(host, inner) == [] + ["b"] == ["b"];
    assert PathOf(host, Member(inner, Identifier("c"), false, false)) == ["b"] + ["c"];
  }

  lemma {:induction false} WalkKeeps<V>(host: Host<V>, node: Ast<V>, w: Walk)
    ensures forall d :: d in w.deps ==> d in Walked(host, node, w).deps
    decreases node, 1
  {
    match node
    case Member(target, property, computed, _) =>
      var w1: Walk;
      if target.Identifier? && IsSignal(target.name) {
        var d := Dependency(target.name[1..], PathOf(host, node), computed);
        w1 := Note(w, target.name[1..] + "." + Join(PathOf(host, node), "."), d);
      } else {
        WalkKeeps(host, target, w);
        w1 := Walked(host, target, w);
      }
      if computed { WalkKeeps(host, property, w1); }
    case Call(callee, args) =>
      WalkKeeps(host, callee, w);
      WalkAllKeeps(host, args, Walked(host, callee, w));
    case Binary(_, left, right) =>
      WalkKeeps(host, left, w);
      WalkKeeps(host, right, Walked(host, left, w));
    case Logical(_, left, right) =>
      WalkKeeps(host, left, w);
      WalkKeeps(host, right, Walked(host, left, w));
    case Unary(_, argument) => WalkKeeps(host, argument, w);
    case Conditional(test, consequent, alternate) =>
      var w1 := Walked(host, test, w);
      WalkKeeps(host, test, w);
      WalkKeeps(host, consequent, w1);
      WalkKeeps(host, alternate, Walked(host, consequent, w1));
    case Object(_, values) => WalkAllKeeps(host, values, w);
    case _ =>
  }

  lemma {:induction false} WalkAllKeeps<V>(host: Host<V>, nodes: seq<Ast<V>>, w: Walk)
    ensures forall d :: d in w.deps ==> d in WalkedAll(host, nodes, w).deps
    decreases nodes, 0
  {
    if nodes != [] {
      WalkKeeps(host, nodes[0], w);
      WalkAllKeeps(host, nodes[1..], Walked(host, nodes[0], w));
    }
  }

  /** However deep the member chain, a recorded path has at most one step: the chain's outer steps are walked past. */
  lemma {:induction false} PathsHaveOneStep<V>(host: Host<V>, node: Ast<V>, w: Walk)
    requires forall d :: d in w.deps ==> |d.path| <= 1
    ensures forall d :: d in Walked(host, node, w).deps ==> |d.path| <= 1
    decreases node, 1
  {
    match node
    case Member(target, property, computed, _) =>
      var w1: Walk;
      if target.Identifier? && IsSignal(target.name) {
        assert PathOf(host, node) == [] + PathPart(host, node);
        var d := Dependency(target.name[1..], PathOf(host, node), computed);
        w1 := Note(w, target.name[1..] + "." + Join(PathOf(host, node), "."), d);
      } else {
        PathsHaveOneStep(host, target, w);
        w1 := Walked(host, target, w);
      }
      if computed { PathsHaveOneStep(host, property, w1); }
    case Call(callee, args) =>
      PathsHaveOneStep(host, callee, w);
      PathsHaveOneStepAll(host, args, Walked(host, callee, w));
    case Binary(_, left, right) =>
      PathsHaveOneStep(host, left, w);
      PathsHaveOneStep(host, right, Walked(host, left, w));
    case Logical(_, left, right) =>
      PathsHaveOneStep(host, left, w);
      PathsHaveOneStep(host, right, Walked(host, left, w));
    case Unary(_, argument) => PathsHaveOneStep(host, argument, w);
    case Conditional(test, consequent, alternate) =>
      var w1 := Walked(host, test, w);
      PathsHaveOneStep(host, test, w);
      PathsHaveOneStep(host, consequent, w1);
      PathsHaveOneStep(host, alternate, Walked(host, consequent, w1));
    case Object(_, values) => PathsHaveOneStepAll(host, values, w);
    case _ =>
  }

  lemma {:induction false} PathsHaveOneStepAll<V>(host: Host<V>, nodes: seq<Ast<V>>, w: Walk)
    requires forall d :: d in w.deps ==> |d.path| <= 1
    ensures forall d :: d in WalkedAll(host, nodes, w).deps ==> |d.path| <= 1
    decreases nodes, 0
  {
    if nodes != [] {
      PathsHaveOneStep(host, nodes[0], w);
      PathsHaveOneStepAll(host, nodes[1..], Walked(host, nodes[0], w));
    }
  }

  // ---- several expressions ------------------------------------------------------------------------------

  function KeyOf(d: Dependency): string { d.signal + "." + Join(d.path, ".") }

  function NoteAll(w: Walk, deps: seq<Dependency>): Walk
    decreases |deps|
  {
    if deps == [] then w else NoteAll(Note(w, KeyOf(deps[0]), deps[0]), deps[1..])
  }

  lemma {:induction false} NoteAllSnoc(w: Walk, deps: seq<Dependency>, d: Dependency)
    ensures NoteAll(w, deps + [d]) == Note(NoteAll(w, deps), KeyOf(d), d)
    decreases |deps|
  {
    if deps == [] {
      assert [] + [d] == [d] && [d][1..] == [];
    } else {
      assert (deps + [d])[1..] == deps[1..] + [d];
      NoteAllSnoc(Note(w, KeyOf(deps[0]), deps[0]), deps[1..], d);
    }
  }

  /** The extractions of several expressions, merged. */
  function Merged<V>(host: Host<V>, asts: seq<Option<Ast<V>>>, w: Walk): Walk
    decreases |asts|
  {
    if asts == [] then w
    else Merged(host, asts[1..], NoteAll(w, if asts[0].Some? then Extracted(host, asts[0].value) else []))
  }

  lemma {:induction false} MergedSnoc<V>(host: Host<V>, asts: seq<Option<Ast<V>>>, ast: Option<Ast<V>>, w: Walk)
    ensures Merged(host, asts + [ast], w) ==
            NoteAll(Merged(host, asts, w), if ast.Some? then Extracted(host, ast.value) else [])
    decreases |asts|
  {
    if asts == [] {
      assert [] + [ast] == [ast] && [ast][1..] == [];
    } else {
      assert (asts + [ast])[1..] == asts[1..] + [ast];
      MergedSnoc(host, asts[1..], ast, NoteAll(w, if asts[0].Some? then Extracted(host, asts[0].value) else []));
    }
  }

  method ExtractAllDependencies<V>(host: Host<V>, asts: seq<Option<Ast<V>>>) returns (all: seq<Dependency>)
    ensures all == Merged(host, asts, NOTHING).deps
  {
    all := [];
    var seen: set<string> := {};
    for i := 0 to |asts|
      invariant Walk(all, seen) == Merged(host, asts[..i], NOTHING)
    {
      var deps := ExtractDependencies(host, asts[i]);
      ghost var before := Walk(all, seen);
      for j := 0 to |deps|
        invariant Walk(all, seen) == NoteAll(before, deps[..j])
      {
        NoteAllSnoc(before, deps[..j], deps[j]);
        assert deps[..j + 1] == deps[..j] + [deps[j]];
        var key := KeyOf(deps[j]);
        if key !in seen {
          seen := seen + {key};
          all := all + [deps[j]];
        }
      }
      assert deps[..|deps|] == deps;
      MergedSnoc(host, asts[..i], asts[i], NOTHING);
      assert asts[..i + 1] == asts[..i] + [asts[i]];
    }
    assert asts[..|asts|] == asts;
  }

  ghost predicate DotFreeSignals(deps: seq<Dependency>) { forall d :: d in deps ==> '.' !in d.signal }

  lemma {:induction false} NoteAllSignals(w: Walk, deps: seq<Dependency>)
    requires Consistent(w) && DotFreeSignals(deps)
    ensures Consistent(NoteAll(w, deps)) && SignalsOf(NoteAll(w, deps).deps) == SignalsOf(w.deps) + SignalsOf(deps)
    decreases |deps|
  {
    if deps != [] {
      BeforeDotOf(deps[0].signal, Join(deps[0].path, "."));
      NoteSignal(w, KeyOf(deps[0]), deps[0]);
      NoteAllSignals(Note(w, KeyOf(deps[0]), deps[0]), deps[1..]);
      assert deps == [deps[0]] + deps[1..];
      assert SignalsOf(deps) == {deps[0].signal} + SignalsOf(deps[1..]);
    }
  }

  lemma {:induction false} MentionedIsDotFree<V>(node: Ast<V>)
    requires DotFree(node)
    ensures forall x :: x in Mentioned(node) ==> '.' !in x
    decreases node, 1
  {
    match node
    case Identifier(name) => if IsSignal(name) { assert forall c :: c in name[1..] ==> c in name; }
    case Member(target, property, _, _) =>
      MentionedIsDotFree(target);
      MentionedIsDotFree(property);
    case Call(callee, args) =>
      MentionedIsDotFree(callee);
      MentionedAllIsDotFree(args);
    case Binary(_, left, right) =>
      MentionedIsDotFree(left);
      MentionedIsDotFree(right);
    case Logical(_, left, right) =>
      MentionedIsDotFree(left);
      MentionedIsDotFree(right);
    case Unary(_, argument) => MentionedIsDotFree(argument);
    case Conditional(test, consequent, alternate) =>
      MentionedIsDotFree(test);
      MentionedIsDotFree(consequent);
      MentionedIsDotFree(alternate);
    case Object(_, values) => MentionedAllIsDotFree(values);
    case Array(elements) => MentionedAllIsDotFree(elements);
    case Nullish(left, right) =>
      MentionedIsDotFree(left);
      MentionedIsDotFree(right);
    case Arrow(_, body) => MentionedIsDotFree(body);
    case Literal(_) =>
  }

  lemma {:induction false} MentionedAllIsDotFree<V>(nodes: seq<Ast<V>>)
    requires DotFreeAll(nodes)
    ensures forall x :: x in MentionedAll(nodes) ==> '.' !in x
    decreases nodes, 0
  {
    if nodes != [] {
      MentionedIsDotFree(nodes[0]);
      MentionedAllIsDotFree(nodes[1..]);
    }
  }

  /** The signals that some expression on its own yields. */
  function SignalsOfAll<V>(host: Host<V>, asts: seq<Option<Ast<V>>>): set<string>
    decreases |asts|
  {
    if asts == [] then {}
    else (if asts[0].Some? then SignalsOf(Extracted(host, asts[0].value)) else {}) + SignalsOfAll(host, asts[1..])
  }

  /** Merging several extractions loses no signal, although it compares dependencies by a joined text. */
  lemma {:induction false} MergingLosesNoSignal<V>(host: Host<V>, asts: seq<Option<Ast<V>>>, w: Walk)
    requires Consistent(w) && forall i :: 0 <= i < |asts| && asts[i].Some? ==> DotFree(asts[i].value)
    ensures SignalsOf(Merged(host, asts, w).deps) == SignalsOf(w.deps) + SignalsOfAll(host, asts)
    decreases |asts|
  {
    if asts != [] {
      var deps := if asts[0].Some? then Extracted(host, asts[0].value) else [];
      if asts[0].Some? {
        ExtractsExactlyReached(host, asts[0].value);
        MentionedIsDotFree(asts[0].value);
      }
      forall d | d in deps ensures '.' !in d.signal { assert d.signal in SignalsOf(deps); }
      NoteAllSignals(w, deps);
      MergingLosesNoSignal(host, asts[1..], NoteAll(w, deps));
    }
  }
}
