/** What the expansion of components yields: which element stands at which place of the expanded tree. */
module ComponentTrees {
  import opened Prelude
  import opened Components

  // ---- the expanded tree ---------------------------------------------------------------------------

  /** The same element, whatever is inside it. */
  predicate SameElement(a: Node, b: Node) { a.id == b.id && a.tag == b.tag && a.name == b.name && a.slot == b.slot }

  /** What the expansion of an element holds: for a component its template, filled with the children. */
  function Inside(registry: Registry, n: Node): seq<Node> {
    if n.tag in registry then Filled(registry, n) else n.children
  }

  /** Place by place, the tree has the elements of `nodes`, and in each of them what belongs inside it. */
  ghost predicate Expands(registry: Registry, nodes: seq<Node>, tree: seq<Node>)
    decreases tree
  {
    |tree| == |nodes| && forall i :: 0 <= i < |tree| ==>
      SameElement(tree[i], nodes[i]) && Expands(registry, Inside(registry, nodes[i]), tree[i].children)
  }

  lemma {:induction false} ExpansionIsThatTree(registry: Registry, nodes: seq<Node>, stack: set<string>)
    requires Expand(registry, nodes, stack).Ok?
    ensures Expands(registry, nodes, Expand(registry, nodes, stack).value)
    decreases |registry.Keys - stack|, Size(nodes)
  {
    if nodes != [] {
      var n, tree := nodes[0], Expand(registry, nodes, stack).value;
      if n.tag in registry {
        OneLess(registry, stack, n.tag);
        ExpansionIsThatTree(registry, Filled(registry, n), stack + {n.tag});
      } else {
        ExpansionIsThatTree(registry, n.children, stack);
      }
      ExpansionIsThatTree(registry, nodes[1..], stack);
      var rest := Expand(registry, nodes[1..], stack).value;
      assert tree[1..] == rest;
      forall i | 0 <= i < |tree|
        ensures SameElement(tree[i], nodes[i]) && Expands(registry, Inside(registry, nodes[i]), tree[i].children)
      {
        if i > 0 { assert tree[i] == rest[i - 1] && nodes[i] == nodes[1..][i - 1]; }
      }
    }
  }

  lemma {:induction false} OnlyOneTree(registry: Registry, nodes: seq<Node>, a: seq<Node>, b: seq<Node>)
    requires Expands(registry, nodes, a) && Expands(registry, nodes, b)
    ensures a == b
    decreases a
  {
    forall i | 0 <= i < |a| ensures a[i] == b[i] {
      OnlyOneTree(registry, Inside(registry, nodes[i]), a[i].children, b[i].children);
    }
  }

  /** The walk yields exactly that tree, and it does so if and only if no component is nested in one of its own tag or
      in one under way. */
  lemma ExpansionIff(registry: Registry, nodes: seq<Node>, stack: set<string>, tree: seq<Node>)
    ensures Expand(registry, nodes, stack) == Ok(tree) <==>
      Expands(registry, nodes, tree) && !exists path :: Nested(registry, nodes, path) && Repeats(path, stack)
  {
    CircularIffRepeated(registry, nodes, stack);
    if Expand(registry, nodes, stack).Ok? {
      ExpansionIsThatTree(registry, nodes, stack);
      if Expands(registry, nodes, tree) { OnlyOneTree(registry, nodes, tree, Expand(registry, nodes, stack).value); }
    }
  }

  // ---- by position ------------------------------------------------------------------------------------

  /** The element at a position: the place at the top, the place inside that element, and so on. */
  function ElementAt(nodes: seq<Node>, position: seq<nat>): Option<Node>
    decreases |position|
  {
    if position == [] || position[0] >= |nodes| then None
    else if |position| == 1 then Some(nodes[position[0]])
    else ElementAt(nodes[position[0]].children, position[1..])
  }

  /** The element that belongs at a position: inside a component its filled template counts. */
  function MeantAt(registry: Registry, nodes: seq<Node>, position: seq<nat>): Option<Node>
    decreases |position|
  {
    if position == [] || position[0] >= |nodes| then None
    else if |position| == 1 then Some(nodes[position[0]])
    else MeantAt(registry, Inside(registry, nodes[position[0]]), position[1..])
  }

  lemma {:induction false} PositionsOfTree(registry: Registry, nodes: seq<Node>, tree: seq<Node>, position: seq<nat>)
    requires Expands(registry, nodes, tree)
    ensures var found, meant := ElementAt(tree, position), MeantAt(registry, nodes, position);
      (found.None? <==> meant.None?) && (found.Some? ==> SameElement(found.value, meant.value))
    decreases |position|
  {
    if |position| > 1 && position[0] < |nodes| {
      var i := position[0];
      PositionsOfTree(registry, Inside(registry, nodes[i]), tree[i].children, position[1..]);
    }
  }

  /** At every position of the expansion stands the element that belongs there, and nowhere else stands any. */
  lemma EveryElementInItsPlace(registry: Registry, nodes: seq<Node>, stack: set<string>, position: seq<nat>)
    requires Expand(registry, nodes, stack).Ok?
    ensures
      var found, meant := ElementAt(Expand(registry, nodes, stack).value, position), MeantAt(registry, nodes, position);
      (found.None? <==> meant.None?) && (found.Some? ==> SameElement(found.value, meant.value))
  {
    ExpansionIsThatTree(registry, nodes, stack);
    PositionsOfTree(registry, nodes, Expand(registry, nodes, stack).value, position);
  }

  // ---- without and with components -----------------------------------------------------------------------

  lemma {:induction false} PlainTreeStays(registry: Registry, nodes: seq<Node>)
    requires TagsIn(nodes) !! registry.Keys
    ensures Expands(registry, nodes, nodes)
    decreases nodes
  {
    forall i | 0 <= i < |nodes| ensures Expands(registry, Inside(registry, nodes[i]), nodes[i].children) {
      TagsAt(nodes, i);
      PlainTreeStays(registry, nodes[i].children);
    }
  }

  lemma {:induction false} TagsAt(nodes: seq<Node>, i: nat)
    requires i < |nodes|
    ensures {nodes[i].tag} + TagsIn(nodes[i].children) <= TagsIn(nodes)
  {
    if i > 0 { TagsAt(nodes[1..], i - 1); }
  }

  /** Where no registered tag occurs the walk gives back what it was given. */
  lemma NoComponentNothingChanges(registry: Registry, nodes: seq<Node>, stack: set<string>)
    requires TagsIn(nodes) !! registry.Keys
    ensures Expand(registry, nodes, stack) == Ok(nodes)
  {
    PlainTreeStays(registry, nodes);
    if path :| Nested(registry, nodes, path) && Repeats(path, stack) {
      FrontierTags(registry, nodes, path[0]);
    }
    ExpansionIff(registry, nodes, stack, nodes);
  }

  lemma OneElement(registry: Registry, n: Node, stack: set<string>, tree: seq<Node>)
    requires n.tag in registry && n.tag !in stack
    requires Expand(registry, Filled(registry, n), stack + {n.tag}) == Ok(tree)
    ensures Expand(registry, [n], stack) == Ok([n.(children := tree)])
  {
    var nodes := [n];
    assert nodes[1..] == [] && Expand(registry, [], stack) == Ok([]);
    assert [n.(children := tree)] + [] == [n.(children := tree)];
  }

  /** A component whose template is a paragraph holds that paragraph. */
  lemma CardHoldsItsTemplate(card: Node, p: Node)
    requires card == Node(card.id, "my-card", "", "", []) && p == Node(p.id, "p", "", "", [])
    ensures Expand(map["my-card" := [p]], [card], {}) == Ok([card.(children := [p])])
  {
    var registry: Registry := map["my-card" := [p]];
    var template := [p];
    assert template[1..] == [];
    assert Fill([], [], {}) == [] && Fill(template, [], {}) == [p] + [];
    assert TagsIn([]) == {} && TagsIn(template) == {"p"} && registry.Keys == {"my-card"};
    NoComponentNothingChanges(registry, template, {} + {"my-card"});
    OneElement(registry, card, {}, template);
  }
}
