/** Expressions without branches: there, extraction is sound exactly if it is complete. */
module StraightExpressions {
  import opened Prelude
  import opened Dependencies

  /** Every part is evaluated: no conditionals, logical operators or `??` outside function bodies, and only operators
      that the evaluator knows. */
  predicate Straight<V>(node: Ast<V>)
    decreases node, 1
  {
    match node
    case Literal(_) => true
    case Identifier(_) => true
    case Member(target, property, computed, _) => Straight(target) && (computed ==> Straight(property))
    case Call(callee, args) => Straight(callee) && StraightAll(args)
    case Binary(op, left, right) => op in BINARY_OPERATORS && Straight(left) && Straight(right)
    case Unary(op, argument) => op in UNARY_OPERATORS && Straight(argument)
    case Object(_, values) => StraightAll(values)
    case Array(elements) => StraightAll(elements)
    case Arrow(_, _) => true
    case _ => false
  }

  predicate StraightAll<V>(nodes: seq<Ast<V>>)
    decreases nodes, 0
  {
    nodes == [] || (Straight(nodes[0]) && StraightAll(nodes[1..]))
  }

  /** The names that evaluation looks up. */
  function Names<V>(node: Ast<V>): set<string>
    decreases node, 1
  {
    match node
    case Identifier(name) => {name}
    case Member(target, property, computed, _) => Names(target) + if computed then Names(property) else {}
    case Call(callee, args) => Names(callee) + NamesAll(args)
    case Binary(_, left, right) => Names(left) + Names(right)
    case Unary(_, argument) => Names(argument)
    case Object(_, values) => NamesAll(values)
    case Array(elements) => NamesAll(elements)
    case _ => {}
  }

  function NamesAll<V>(nodes: seq<Ast<V>>): set<string>
    decreases nodes, 0
  {
    if nodes == [] then {} else Names(nodes[0]) + NamesAll(nodes[1..])
  }

  /** The values of the literals that evaluation meets. */
  function Literals<V(==)>(node: Ast<V>): set<V>
    decreases node, 1
  {
    match node
    case Literal(v) => {v}
    case Member(target, property, computed, _) => Literals(target) + if computed then Literals(property) else {}
    case Call(callee, args) => Literals(callee) + LiteralsAll(args)
    case Binary(_, left, right) => Literals(left) + Literals(right)
    case Unary(_, argument) => Literals(argument)
    case Object(_, values) => LiteralsAll(values)
    case Array(elements) => LiteralsAll(elements)
    case _ => {}
  }

  function LiteralsAll<V(==)>(nodes: seq<Ast<V>>): set<V>
    decreases nodes, 0
  {
    if nodes == [] then {} else Literals(nodes[0]) + LiteralsAll(nodes[1..])
  }

  /** A language in which the value `mark` spreads through every operation, and a function that cannot see signal `x`
      where its body mentions it is marked. */
  function Marking<V(==)>(x: string, plain: V, mark: V): Host<V> {
    Host(plain, v => false, v => true, s => plain, v => "", v => false,
         (o, p) => Ok(if o == mark || p == mark then mark else plain),
         v => true,
         (f, receiver, args) => Ok(if f == mark || receiver == mark || mark in args then mark else plain),
         (op, l, r) => Ok(if l == mark || r == mark then mark else plain),
         (op, v) => Ok(if v == mark then mark else plain),
         (keys, vs) => if mark in vs then mark else plain,
         vs => if mark in vs then mark else plain,
         (params, body, captured) =>
           if x in Mentioned(Arrow(params, body)) && "$" + x !in captured then mark else plain)
  }

  predicate Shows<V(==)>(r: Result<V, EvalError>, mark: V) { r.Err? || r.value == mark }

  /** Every name is bound to the plain value, except perhaps signal `x`, which may be unbound. */
  ghost predicate AllPlain<V>(ctx: map<string, V>, names: set<string>, x: string, plain: V) {
    names - {"$" + x} <= ctx.Keys && forall k :: k in ctx ==> ctx[k] == plain
  }

  lemma SignalName(name: string, x: string)
    requires IsSignal(name)
    ensures name[1..] == x <==> name == "$" + x
  {
    assert name == "$" + name[1..];
  }

  /** The evaluation of the node shows that signal `x` is missing exactly if it is and the node mentions it. */
  ghost predicate Tells<V>(node: Ast<V>, ctx: map<string, V>, x: string, plain: V, mark: V) {
    Shows(Evaluate(Marking(x, plain, mark), node, ctx), mark) <==> "$" + x !in ctx && x in Mentioned(node)
  }

  ghost predicate AllTell<V>(nodes: seq<Ast<V>>, ctx: map<string, V>, x: string, plain: V, mark: V) {
    var r := EvaluateAll(Marking(x, plain, mark), nodes, ctx);
    r.Err? || mark in r.value <==> "$" + x !in ctx && x in MentionedAll(nodes)
  }

  lemma CallTells<V>(callee: Ast<V>, args: seq<Ast<V>>, ctx: map<string, V>, x: string, plain: V, mark: V)
    requires plain != mark && Tells(callee, ctx, x, plain, mark) && AllTell(args, ctx, x, plain, mark)
    requires callee.Member? ==> Tells(callee.target, ctx, x, plain, mark)
    ensures Tells(Call(callee, args), ctx, x, plain, mark)
  {
  }

  lemma ArrowTells<V>(node: Ast<V>, ctx: map<string, V>, x: string, plain: V, mark: V)
    requires node.Arrow? && plain != mark
    ensures Tells(node, ctx, x, plain, mark)
  {
    SignalName("$" + x, x);
    assert "$" + x in Captured(node, ctx) <==> "$" + x in ctx && x in Mentioned(node);
  }

  /** The missing signal shows in the result exactly if the expression mentions it. */
  lemma {:induction false} MissingSignalShows<V>(node: Ast<V>, ctx: map<string, V>, x: string, plain: V, mark: V)
    requires Straight(node) && plain != mark && mark !in Literals(node) && AllPlain(ctx, Names(node), x, plain)
    ensures Tells(node, ctx, x, plain, mark)
    decreases node, 1
  {
    match node
    case Literal(_) =>
    case Identifier(name) =>
      if IsSignal(name) { SignalName(name, x); }
    case Member(target, property, computed, _) =>
      MissingSignalShows(target, ctx, x, plain, mark);
      if computed { MissingSignalShows(property, ctx, x, plain, mark); }
    case Call(callee, args) =>
      if callee.Member? {
        assert Names(callee.target) <= Names(callee) && Literals(callee.target) <= Literals(callee);
        MissingSignalShows(callee.target, ctx, x, plain, mark);
      }
      MissingSignalShows(callee, ctx, x, plain, mark);
      MissingSignalShowsInAll(args, ctx, x, plain, mark);
      CallTells(callee, args, ctx, x, plain, mark);
    case Binary(_, left, right) =>
      MissingSignalShows(left, ctx, x, plain, mark);
      MissingSignalShows(right, ctx, x, plain, mark);
    case Unary(_, argument) => MissingSignalShows(argument, ctx, x, plain, mark);
    case Object(_, values) => MissingSignalShowsInAll(values, ctx, x, plain, mark);
    case Array(elements) => MissingSignalShowsInAll(elements, ctx, x, plain, mark);
    case Arrow(_, _) => ArrowTells(node, ctx, x, plain, mark);
  }

  lemma {:induction false} MissingSignalShowsInAll<V>(nodes: seq<Ast<V>>, ctx: map<string, V>, x: string, plain: V,
                                                      mark: V)
    requires StraightAll(nodes) && plain != mark && mark !in LiteralsAll(nodes)
    requires AllPlain(ctx, NamesAll(nodes), x, plain)
    ensures AllTell(nodes, ctx, x, plain, mark)
    decreases nodes, 0
  {
    if nodes != [] {
      MissingSignalShows(nodes[0], ctx, x, plain, mark);
      MissingSignalShowsInAll(nodes[1..], ctx, x, plain, mark);
    }
  }

  /** A signal that is missed decides between two contexts that agree on everything extracted. */
  lemma HiddenSignalCounts<V>(node: Ast<V>, x: string, plain: V, mark: V) returns (c: map<string, V>, d: map<string, V>)
    requires DotFree(node) && Straight(node) && plain != mark && mark !in Literals(node)
    requires x in Hidden(node) && x !in Reached(node)
    ensures Agree(c, d, SignalsOf(Extracted(Marking(x, plain, mark), node)))
    ensures Evaluate(Marking(x, plain, mark), node, c) != Evaluate(Marking(x, plain, mark), node, d)
  {
    c := map k | k in Names(node) + {"$" + x} :: plain;
    d := c - {"$" + x};
    ExtractsExactlyReached(Marking(x, plain, mark), node);
    ReachedOrHidden(node);
    MissingSignalShows(node, c, x, plain, mark);
    MissingSignalShows(node, d, x, plain, mark);
    SignalName("$" + x, x);
  }

  /** Contexts that agree on the extracted signals evaluate alike, whatever the language does with values. */
  ghost predicate Sound<V(!new)>(node: Ast<V>) {
    forall host: Host<V>, c: map<string, V>, d: map<string, V> ::
      Agree(c, d, SignalsOf(Extracted(host, node))) ==> Evaluate(host, node, c) == Evaluate(host, node, d)
  }

  /** For an expression without branches, extraction is sound if and only if nothing is hidden. */
  lemma SoundIffNothingHidden<V(!new)>(node: Ast<V>, plain: V, mark: V)
    requires DotFree(node) && Straight(node) && plain != mark && mark !in Literals(node)
    ensures Sound(node) <==> Hidden(node) <= Reached(node)
  {
    if Hidden(node) <= Reached(node) {
      forall host: Host<V>, c: map<string, V>, d: map<string, V> | Agree(c, d, SignalsOf(Extracted(host, node)))
        ensures Evaluate(host, node, c) == Evaluate(host, node, d)
      {
        ExtractionIsSound(host, node, c, d);
      }
    } else {
      var x :| x in Hidden(node) && x !in Reached(node);
      var c, d := HiddenSignalCounts(node, x, plain, mark);
      assert !(Agree(c, d, SignalsOf(Extracted(Marking(x, plain, mark), node))) ==>
        Evaluate(Marking(x, plain, mark), node, c) == Evaluate(Marking(x, plain, mark), node, d));
    }
  }
}
