/** What the extractor records, against the uses of signals read off the syntax tree: which signals and paths, in which
    order, and each how often. */
module DependencyUses {
  import opened Prelude
  import opened Dependencies

  /** Every step after a dot is a name; the parser takes nothing else. */
  ghost predicate NamedSteps<V>(node: Ast<V>)
    decreases node, 1
  {
    match node
    case Member(target, property, computed, _) =>
      NamedSteps(target) && NamedSteps(property) && (computed || property.Identifier?)
    case Call(callee, args) => NamedSteps(callee) && NamedStepsAll(args)
    case Binary(_, left, right) => NamedSteps(left) && NamedSteps(right)
    case Logical(_, left, right) => NamedSteps(left) && NamedSteps(right)
    case Unary(_, argument) => NamedSteps(argument)
    case Conditional(test, consequent, alternate) =>
      NamedSteps(test) && NamedSteps(consequent) && NamedSteps(alternate)
    case Object(_, values) => NamedStepsAll(values)
    case Array(elements) => NamedStepsAll(elements)
    case Nullish(left, right) => NamedSteps(left) && NamedSteps(right)
    case Arrow(_, body) => NamedSteps(body)
    case _ => true
  }

  ghost predicate NamedStepsAll<V>(nodes: seq<Ast<V>>)
    decreases nodes, 0
  {
    nodes == [] || (NamedSteps(nodes[0]) && NamedStepsAll(nodes[1..]))
  }

  /** What lexer and parser guarantee. */
  ghost predicate Parsed<V>(node: Ast<V>) { DotFree(node) && NamedSteps(node) }

  /** The step of a member: its name, its literal as text, or a star. */
  function StepName<V>(host: Host<V>, property: Ast<V>, computed: bool): string
    requires computed || property.Identifier?
  {
    if !computed then property.name else if property.Literal? then host.show(property.value) else "*"
  }

  /** Every use of a signal outside array literals, `??` and function bodies, in reading order: on its own, or with the
      step that follows it. */
  ghost function Uses<V>(host: Host<V>, node: Ast<V>): seq<Dependency>
    requires NamedSteps(node)
    decreases node, 1
  {
    match node
    case Identifier(name) => if name != "" && name[0] == '$' then [Dependency(name[1..], [], false)] else []
    case Member(target, property, computed, _) =>
      (if target.Identifier? && target.name != "" && target.name[0] == '$'
       then [Dependency(target.name[1..], [StepName(host, property, computed)], computed)]
       else Uses(host, target))
      + if computed then Uses(host, property) else []
    case Call(callee, args) => Uses(host, callee) + UsesAll(host, args)
    case Binary(_, left, right) => Uses(host, left) + Uses(host, right)
    case Logical(_, left, right) => Uses(host, left) + Uses(host, right)
    case Unary(_, argument) => Uses(host, argument)
    case Conditional(test, consequent, alternate) =>
      Uses(host, test) + (Uses(host, consequent) + Uses(host, alternate))
    case Object(_, values) => UsesAll(host, values)
    case _ => []
  }

  ghost function UsesAll<V>(host: Host<V>, nodes: seq<Ast<V>>): seq<Dependency>
    requires NamedStepsAll(nodes)
    decreases nodes, 0
  {
    if nodes == [] then [] else Uses(host, nodes[0]) + UsesAll(host, nodes[1..])
  }

  // ---- each pair of signal and path once ----------------------------------------------------------

  type Pair = (string, seq<string>)

  function PairOf(d: Dependency): Pair { (d.signal, d.path) }

  function Pairs(ds: seq<Dependency>): set<Pair> { set d | d in ds :: PairOf(d) }

  /** The first use of every signal and path. */
  function Firsts(ds: seq<Dependency>): seq<Dependency> {
    if ds == [] then []
    else Firsts(Front(ds)) + if PairOf(Last(ds)) in Pairs(Front(ds)) then [] else [Last(ds)]
  }

  ghost predicate DistinctPairs(ds: seq<Dependency>) {
    forall i, j :: 0 <= i < j < |ds| ==> PairOf(ds[i]) != PairOf(ds[j])
  }

  lemma PairsConcat(a: seq<Dependency>, b: seq<Dependency>)
    ensures Pairs(a + b) == Pairs(a) + Pairs(b)
  {
    forall p ensures p in Pairs(a + b) <==> p in Pairs(a) + Pairs(b) {
      if p in Pairs(a) { var d :| d in a && PairOf(d) == p; assert d in a + b; }
      if p in Pairs(b) { var d :| d in b && PairOf(d) == p; assert d in a + b; }
    }
  }

  lemma FirstsSnoc(ds: seq<Dependency>, d: Dependency)
    ensures Firsts(ds + [d]) == Firsts(ds) + if PairOf(d) in Pairs(ds) then [] else [d]
    ensures Pairs(ds + [d]) == Pairs(ds) + {PairOf(d)}
  {
    assert Front(ds + [d]) == ds;
    PairsConcat(ds, [d]);
  }

  lemma {:induction false} FirstsHavePairs(ds: seq<Dependency>)
    ensures Pairs(Firsts(ds)) == Pairs(ds)
    decreases |ds|
  {
    if ds != [] {
      FirstsHavePairs(Front(ds));
      assert ds == Front(ds) + [Last(ds)];
      FirstsSnoc(Front(ds), Last(ds));
      FirstsSnoc(Firsts(Front(ds)), Last(ds));
    }
  }

  /** Each pair is there once, and with the use that comes first. */
  lemma {:induction false} FirstsAreOnce(ds: seq<Dependency>)
    ensures Pairs(Firsts(ds)) == Pairs(ds) && DistinctPairs(Firsts(ds))
    ensures forall i :: 0 <= i < |ds| && PairOf(ds[i]) !in Pairs(ds[..i]) ==> ds[i] in Firsts(ds)
    decreases |ds|
  {
    FirstsHavePairs(ds);
    if ds != [] {
      var init, last := Front(ds), Last(ds);
      FirstsAreOnce(init);
      var firsts := Firsts(init);
      forall i | 0 <= i < |firsts| ensures PairOf(firsts[i]) in Pairs(init) { assert firsts[i] in firsts; }
      forall i | 0 <= i < |ds| && PairOf(ds[i]) !in Pairs(ds[..i]) ensures ds[i] in Firsts(ds) {
        if i < |init| { assert init[..i] == ds[..i] && init[i] == ds[i]; } else { assert ds[..i] == init; }
      }
    }
  }

  lemma FirstsStep(a: seq<Dependency>, init: seq<Dependency>, last: Dependency)
    requires Firsts(a + Firsts(init)) == Firsts(a + init)
    ensures Firsts(a + Firsts(init + [last])) == Firsts(a + (init + [last]))
  {
    FirstsHavePairs(init);
    PairsConcat(a, init);
    PairsConcat(a, Firsts(init));
    FirstsSnoc(init, last);
    Associates(a, init, [last]);
    FirstsSnoc(a + init, last);
    if PairOf(last) in Pairs(init) {
      assert Firsts(init + [last]) == Firsts(init) + [] == Firsts(init);
      assert Firsts(a + init + [last]) == Firsts(a + init) + [] == Firsts(a + init);
    } else {
      Associates(a, Firsts(init), [last]);
      FirstsSnoc(a + Firsts(init), last);
    }
  }

  lemma {:induction false} FirstsOfFirsts(a: seq<Dependency>, b: seq<Dependency>)
    ensures Firsts(a + Firsts(b)) == Firsts(a + b) && Pairs(a + Firsts(b)) == Pairs(a + b)
    decreases |b|
  {
    FirstsHavePairs(b);
    PairsConcat(a, b);
    PairsConcat(a, Firsts(b));
    if b == [] {
      assert Firsts(b) == b;
    } else {
      FirstsOfFirsts(a, Front(b));
      FirstsStep(a, Front(b), Last(b));
      assert b == Front(b) + [Last(b)];
    }
  }

  // ---- the walk records first uses --------------------------------------------------------------------

  /** The key under which the walk records a use. */
  function OwnKey(d: Dependency): string { if d.path == [] then d.signal else KeyOf(d) }

  function Keys(key: Dependency -> string, uses: seq<Dependency>): set<string> { set u | u in uses :: key(u) }

  /** The walk has met exactly these uses, and tells them apart by this key. */
  ghost predicate Tracks(key: Dependency -> string, w: Walk, uses: seq<Dependency>) {
    w.deps == Firsts(uses) && w.seen == Keys(key, uses)
  }

  /** Signals without a dot, and at most one step. */
  ghost predicate Short(uses: seq<Dependency>) { forall u :: u in uses ==> '.' !in u.signal && |u.path| <= 1 }

  lemma NoteTracks(key: Dependency -> string, w: Walk, uses: seq<Dependency>, d: Dependency)
    requires Tracks(key, w, uses)
    requires forall u :: u in uses ==> (key(u) == key(d) <==> PairOf(u) == PairOf(d))
    ensures Tracks(key, Note(w, key(d), d), uses + [d])
  {
    FirstsSnoc(uses, d);
    assert Keys(key, uses + [d]) == Keys(key, uses) + {key(d)};
    assert key(d) in Keys(key, uses) <==> PairOf(d) in Pairs(uses);
  }

  /** With signals free of dots and at most one step, the joined text of a dependency tells signal and path apart,
      except for a signal on its own and the same signal with an empty step. */
  lemma KeysTellPairs(u: Dependency, d: Dependency)
    requires Short([u, d])
    ensures OwnKey(u) == OwnKey(d) <==> PairOf(u) == PairOf(d)
    ensures KeyOf(u) == KeyOf(d) <==>
      u.signal == d.signal && (u.path == d.path || {u.path, d.path} == {[], [""]})
  {
    assert u in [u, d] && d in [u, d];
    var p, q := Join(u.path, "."), Join(d.path, ".");
    BeforeDotOf(u.signal, p);
    BeforeDotOf(d.signal, q);
    if u.signal == d.signal && (KeyOf(u) == KeyOf(d)) { AppendCancels(u.signal + ".", p, d.signal + ".", q); }
    if u.path == [] || d.path == [] {
      assert |OwnKey(u)| > |u.signal| <==> u.path != [];
      assert |OwnKey(d)| > |d.signal| <==> d.path != [];
    }
    assert u.path != [] ==> u.path == [p];
    assert d.path != [] ==> d.path == [q];
  }

  lemma RecordTracks(w: Walk, uses: seq<Dependency>, d: Dependency)
    requires Tracks(OwnKey, w, uses) && Short(uses + [d])
    ensures Tracks(OwnKey, Note(w, OwnKey(d), d), uses + [d])
  {
    forall u | u in uses ensures OwnKey(u) == OwnKey(d) <==> PairOf(u) == PairOf(d) {
      assert u in uses + [d] && d in uses + [d];
      KeysTellPairs(u, d);
    }
    NoteTracks(OwnKey, w, uses, d);
  }

  lemma SignalIsDotFree(name: string)
    requires '.' !in name && IsSignal(name)
    ensures '.' !in name[1..]
  {
    assert forall c :: c in name[1..] ==> c in name;
  }

  lemma {:induction false} WalkTracks<V>(host: Host<V>, node: Ast<V>, w: Walk, uses: seq<Dependency>)
    requires Parsed(node) && Tracks(OwnKey, w, uses) && Short(uses)
    ensures var all := uses + Uses(host, node); Tracks(OwnKey, Walked(host, node, w), all) && Short(all)
    decreases node, 1
  {
    match node
    case Identifier(name) =>
      if IsSignal(name) {
        SignalIsDotFree(name);
        RecordTracks(w, uses, Dependency(name[1..], [], false));
      } else {
        assert uses + [] == uses;
      }
    case Member(target, property, computed, _) => MemberTracks(host, node, w, uses);
    case Call(callee, args) =>
      WalkTracks(host, callee, w, uses);
      WalkTracksAll(host, args, Walked(host, callee, w), uses + Uses(host, callee));
      Associates(uses, Uses(host, callee), UsesAll(host, args));
    case Binary(_, left, right) =>
      WalkTracks(host, left, w, uses);
      WalkTracks(host, right, Walked(host, left, w), uses + Uses(host, left));
      Associates(uses, Uses(host, left), Uses(host, right));
    case Logical(_, left, right) =>
      WalkTracks(host, left, w, uses);
      WalkTracks(host, right, Walked(host, left, w), uses + Uses(host, left));
      Associates(uses, Uses(host, left), Uses(host, right));
    case Unary(_, argument) => WalkTracks(host, argument, w, uses);
    case Conditional(test, consequent, alternate) =>
      var w1, sofar := Walked(host, test, w), uses + Uses(host, test);
      WalkTracks(host, test, w, uses);
      WalkTracks(host, consequent, w1, sofar);
      WalkTracks(host, alternate, Walked(host, consequent, w1), sofar + Uses(host, consequent));
      Associates(sofar, Uses(host, consequent), Uses(host, alternate));
      Associates(uses, Uses(host, test), Uses(host, consequent) + Uses(host, alternate));
    case Object(_, values) => WalkTracksAll(host, values, w, uses);
    case _ => assert uses + [] == uses;
  }

  lemma {:induction false} MemberTracks<V>(host: Host<V>, node: Ast<V>, w: Walk, uses: seq<Dependency>)
    requires node.Member? && Parsed(node) && Tracks(OwnKey, w, uses) && Short(uses)
    ensures var all := uses + Uses(host, node); Tracks(OwnKey, Walked(host, node, w), all) && Short(all)
    decreases node, 0
  {
    var w1: Walk, first: seq<Dependency>;
    if node.target.Identifier? && IsSignal(node.target.name) {
      var part := StepName(host, node.property, node.computed);
      assert PathOf(host, node) == [] + PathPart(host, node) == [part];
      var d := Dependency(node.target.name[1..], [part], node.computed);
      assert DotFree(node.target);
      SignalIsDotFree(node.target.name);
      RecordTracks(w, uses, d);
      w1, first := Note(w, OwnKey(d), d), [d];
    } else {
      WalkTracks(host, node.target, w, uses);
      w1, first := Walked(host, node.target, w), Uses(host, node.target);
    }
    if node.computed {
      WalkTracks(host, node.property, w1, uses + first);
      Associates(uses, first, Uses(host, node.property));
    } else {
      assert first + [] == first;
    }
  }

  lemma {:induction false} WalkTracksAll<V>(host: Host<V>, nodes: seq<Ast<V>>, w: Walk, uses: seq<Dependency>)
    requires DotFreeAll(nodes) && NamedStepsAll(nodes) && Tracks(OwnKey, w, uses) && Short(uses)
    ensures var all := uses + UsesAll(host, nodes); Tracks(OwnKey, WalkedAll(host, nodes, w), all) && Short(all)
    decreases nodes, 0
  {
    if nodes == [] {
      assert uses + [] == uses;
    } else {
      WalkTracks(host, nodes[0], w, uses);
      WalkTracksAll(host, nodes[1..], Walked(host, nodes[0], w), uses + Uses(host, nodes[0]));
      Associates(uses, Uses(host, nodes[0]), UsesAll(host, nodes[1..]));
    }
  }

  /** What is extracted: the uses of signals outside array literals, `??` and function bodies, in reading order, each
      signal and path once, where it is used first. */
  lemma ExtractsEveryUseOnce<V>(host: Host<V>, node: Ast<V>)
    requires Parsed(node)
    ensures Extracted(host, node) == Firsts(Uses(host, node)) && Short(Uses(host, node))
    ensures Pairs(Extracted(host, node)) == Pairs(Uses(host, node)) && DistinctPairs(Extracted(host, node))
  {
    WalkTracks(host, node, NOTHING, []);
    assert [] + Uses(host, node) == Uses(host, node);
    FirstsAreOnce(Uses(host, node));
  }

  /** `$user.name + $user.age` yields both paths. */
  lemma TwoPathsOfOneSignal<V>(host: Host<V>)
    ensures var user := Identifier("$user");
      Extracted(host, Binary("+", Member(user, Identifier("name"), false, false),
                                  Member(user, Identifier("age"), false, false)))
      == [Dependency("user", ["name"], false), Dependency("user", ["age"], false)]
  {
    var user: Ast<V> := Identifier("$user");
    var left, right := Member(user, Identifier("name"), false, false), Member(user, Identifier("age"), false, false);
    var d, e := Dependency("user", ["name"], false), Dependency("user", ["age"], false);
    assert "$user"[1..] == "user";
    assert Uses(host, left) == [d] + [] && Uses(host, right) == [e] + [];
    var node := Binary("+", left, right);
    assert Uses(host, node) == [d, e];
    ExtractsEveryUseOnce(host, node);
    assert Front([d, e]) == [d] && Front([d]) == [];
    assert d.path[0] != e.path[0];
    assert Firsts([d]) == [d] && Firsts([d, e]) == [d] + [e];
  }

  // ---- several expressions -----------------------------------------------------------------------------

  ghost predicate AllParsed<V>(asts: seq<Option<Ast<V>>>) {
    forall i :: 0 <= i < |asts| && asts[i].Some? ==> Parsed(asts[i].value)
  }

  /** The uses in all expressions that compile. */
  ghost function AllUses<V>(host: Host<V>, asts: seq<Option<Ast<V>>>): seq<Dependency>
    requires AllParsed(asts)
  {
    if asts == [] then []
    else (if asts[0].Some? then Uses(host, asts[0].value) else []) + AllUses(host, asts[1..])
  }

  /** A signal is used on its own, and also with an empty step, as in `$a` and `$a['']`. */
  ghost predicate Clash(uses: seq<Dependency>) {
    exists x :: (x, []) in Pairs(uses) && (x, [""]) in Pairs(uses)
  }

  lemma ClashGrows(a: seq<Dependency>, b: seq<Dependency>)
    ensures Clash(a) || Clash(b) ==> Clash(a + b)
  {
    PairsConcat(a, b);
  }

  lemma {:induction false} NoteAllTracks(w: Walk, uses: seq<Dependency>, deps: seq<Dependency>)
    requires Tracks(KeyOf, w, uses) && Short(uses + deps) && !Clash(uses + deps)
    ensures Tracks(KeyOf, NoteAll(w, deps), uses + deps)
    decreases |deps|
  {
    if deps == [] {
      assert uses + deps == uses;
    } else {
      var d := deps[0];
      forall u | u in uses ensures KeyOf(u) == KeyOf(d) <==> PairOf(u) == PairOf(d) {
        assert u in uses + deps && d in uses + deps;
        KeysTellPairs(u, d);
        assert PairOf(u) in Pairs(uses + deps) && PairOf(d) in Pairs(uses + deps);
      }
      NoteTracks(KeyOf, w, uses, d);
      assert uses + deps == uses + [d] + deps[1..];
      NoteAllTracks(Note(w, KeyOf(d), d), uses + [d], deps[1..]);
    }
  }

  /** Without such a clash, merging keeps the first use of every signal and path of all the expressions. */
  lemma {:induction false} MergeTracks<V>(host: Host<V>, asts: seq<Option<Ast<V>>>, w: Walk, uses: seq<Dependency>)
    requires AllParsed(asts) && Tracks(KeyOf, w, uses) && Short(uses) && !Clash(uses + AllUses(host, asts))
    ensures Tracks(KeyOf, Merged(host, asts, w), uses + AllUses(host, asts))
    decreases |asts|
  {
    if asts == [] {
      assert uses + [] == uses;
    } else {
      var mine := if asts[0].Some? then Uses(host, asts[0].value) else [];
      var deps := if asts[0].Some? then Extracted(host, asts[0].value) else [];
      if asts[0].Some? { ExtractsEveryUseOnce(host, asts[0].value); }
      Associates(uses, mine, AllUses(host, asts[1..]));
      ClashGrows(uses + mine, AllUses(host, asts[1..]));
      FirstsAreOnce(mine);
      assert deps == Firsts(mine);
      SamePairs(uses, mine, deps);
      NoteAllTracks(w, uses, deps);
      SameTracks(NoteAll(w, deps), uses, mine);
      MergeTracks(host, asts[1..], NoteAll(w, deps), uses + mine);
    }
  }

  lemma SamePairs(uses: seq<Dependency>, mine: seq<Dependency>, deps: seq<Dependency>)
    requires Pairs(mine) == Pairs(deps) && Short(uses) && Short(mine)
    ensures Pairs(uses + mine) == Pairs(uses + deps) && Short(uses + mine) && Short(uses + deps)
  {
    PairsConcat(uses, mine);
    PairsConcat(uses, deps);
    forall d | d in deps ensures '.' !in d.signal && |d.path| <= 1 {
      assert PairOf(d) in Pairs(mine);
      var u :| u in mine && PairOf(u) == PairOf(d);
    }
  }

  lemma KeysFollowPairs(a: seq<Dependency>, b: seq<Dependency>)
    requires Pairs(a) <= Pairs(b)
    ensures Keys(KeyOf, a) <= Keys(KeyOf, b)
  {
    forall u | u in a ensures KeyOf(u) in Keys(KeyOf, b) {
      assert PairOf(u) in Pairs(b);
      var v :| v in b && PairOf(v) == PairOf(u);
      assert KeyOf(v) in Keys(KeyOf, b);
    }
  }

  lemma SameTracks(w: Walk, uses: seq<Dependency>, mine: seq<Dependency>)
    requires Tracks(KeyOf, w, uses + Firsts(mine))
    ensures Tracks(KeyOf, w, uses + mine)
  {
    FirstsOfFirsts(uses, mine);
    KeysFollowPairs(uses + mine, uses + Firsts(mine));
    KeysFollowPairs(uses + Firsts(mine), uses + mine);
  }

  /** No two recorded dependencies have the same joined text. */
  ghost predicate DistinctKeys(w: Walk) {
    (forall i, j :: 0 <= i < j < |w.deps| ==> KeyOf(w.deps[i]) != KeyOf(w.deps[j]))
    && forall i :: 0 <= i < |w.deps| ==> KeyOf(w.deps[i]) in w.seen
  }

  lemma {:induction false} NoteAllDistinct(w: Walk, deps: seq<Dependency>)
    requires DistinctKeys(w)
    ensures DistinctKeys(NoteAll(w, deps))
    decreases |deps|
  {
    if deps != [] { NoteAllDistinct(Note(w, KeyOf(deps[0]), deps[0]), deps[1..]); }
  }

  lemma {:induction false} MergedDistinct<V>(host: Host<V>, asts: seq<Option<Ast<V>>>, w: Walk)
    requires DistinctKeys(w)
    ensures DistinctKeys(Merged(host, asts, w))
    decreases |asts|
  {
    if asts != [] {
      var deps := if asts[0].Some? then Extracted(host, asts[0].value) else [];
      NoteAllDistinct(w, deps);
      MergedDistinct(host, asts[1..], NoteAll(w, deps));
    }
  }

  lemma DistinctKeysDistinctPairs(w: Walk)
    requires DistinctKeys(w)
    ensures DistinctPairs(w.deps) && !Clash(w.deps)
  {
    forall i, j | 0 <= i < j < |w.deps| ensures PairOf(w.deps[i]) != PairOf(w.deps[j]) {
      assert KeyOf(w.deps[i]) != KeyOf(w.deps[j]);
    }
    forall x ensures (x, []) !in Pairs(w.deps) || (x, [""]) !in Pairs(w.deps) {
      assert forall d: Dependency :: PairOf(d) == (x, []) || PairOf(d) == (x, [""]) ==> KeyOf(d) == x + ".";
    }
  }

  /** Merging the extractions of several expressions gives the first use of every signal and path, in reading order, if
      and only if no signal is used both on its own and with an empty step. In any case each is given once. */
  lemma MergesEveryUseOnceIff<V>(host: Host<V>, asts: seq<Option<Ast<V>>>)
    requires AllParsed(asts)
    ensures var all, uses := Merged(host, asts, NOTHING).deps, AllUses(host, asts);
      && DistinctPairs(all)
      && (all == Firsts(uses) <==> !Clash(uses))
      && (Pairs(all) == Pairs(uses) <==> !Clash(uses))
  {
    var w, uses := Merged(host, asts, NOTHING), AllUses(host, asts);
    MergedDistinct(host, asts, NOTHING);
    DistinctKeysDistinctPairs(w);
    FirstsAreOnce(uses);
    if !Clash(uses) {
      assert [] + uses == uses;
      MergeTracks(host, asts, NOTHING, []);
    }
  }

  /** `$a` and `$a['']`: the merged list holds only the first. */
  lemma EmptyStepIsLost<V>(host: Host<V>, empty: V)
    requires host.show(empty) == ""
    ensures var a, step := Identifier("$a"), Member(Identifier("$a"), Literal(empty), true, false);
      && Extracted(host, step) == [Dependency("a", [""], true)]
      && Merged(host, [Some(a), Some(step)], NOTHING).deps == [Dependency("a", [], false)]
  {
    var a: Ast<V>, step := Identifier("$a"), Member(Identifier("$a"), Literal(empty), true, false);
    assert "$a"[1..] == "a";
    assert PathOf(host, step) == [] + [""] == [""];
    var asts := [Some(a), Some(step)];
    assert asts[1..] == [Some(step)] && asts[1..][1..] == [];
    var d, e := Dependency("a", [], false), Dependency("a", [""], true);
    assert Extracted(host, a) == [d];
    assert Walked(host, step, NOTHING) == Note(NOTHING, "a" + "." + Join([""], "."), e);
    assert Extracted(host, step) == [e];
    assert [d][1..] == [] && [e][1..] == [] && KeyOf(d) == KeyOf(e) == "a.";
    var w := Walk([d], {"a."});
    assert NoteAll(NOTHING, [d]) == NoteAll(w, []) == w && NoteAll(w, [e]) == NoteAll(w, []) == w;
    assert Merged(host, [Some(step)], w) == Merged(host, [], NoteAll(w, [e])) == w;
  }
}
