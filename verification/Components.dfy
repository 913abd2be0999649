/** Component expansion: slots are filled, templates walked, and a stack of the tags under way stops circular
    nesting. */
module Components {
  import opened Prelude

  /** An element; `name` is what a `<slot>` is called, `slot` the slot an element asks for. */
  datatype Node = Node(id: nat, tag: string, name: string, slot: string, children: seq<Node>)

  type Registry = map<string, seq<Node>>

  function Size(nodes: seq<Node>): nat {
    if nodes == [] then 0 else 1 + Size(nodes[0].children) + Size(nodes[1..])
  }

  predicate IsSlot(n: Node) { n.tag == "slot" }

  function OrDefault(s: string): string { if s == "" then "default" else s }

  // ---- slots -------------------------------------------------------------------------------------

  /** The children that ask for the slot, in order. */
  function Group(given: seq<Node>, name: string): seq<Node> {
    if given == [] then []
    else (if OrDefault(given[0].slot) == name then [given[0]] else []) + Group(given[1..], name)
  }

  lemma {:induction false} GroupAppend(given: seq<Node>, n: Node, name: string)
    ensures Group(given + [n], name) == Group(given, name) + if OrDefault(n.slot) == name then [n] else []
  {
    var all, last := given + [n], if OrDefault(n.slot) == name then [n] else [];
    if given == [] {
      assert all == [n] && all[1..] == [];
      assert Group(all, name) == last + Group([], name) == [] + last;
    } else {
      var first := if OrDefault(given[0].slot) == name then [given[0]] else [];
      assert Group(all, name) == first + Group(all[1..], name);
      assert first + (Group(given[1..], name) + last) == (first + Group(given[1..], name)) + last;
      assert all[0] == given[0] && all[1..] == given[1..] + [n];
      GroupAppend(given[1..], n, name);
    }
  }

  function Lookup(contents: map<string, seq<Node>>, name: string): seq<Node> {
    if name in contents then contents[name] else []
  }

  ghost predicate Groups(contents: map<string, seq<Node>>, given: seq<Node>) {
    forall name :: Lookup(contents, name) == Group(given, name)
  }

  lemma GroupsAppend(before: map<string, seq<Node>>, given: seq<Node>, n: Node, after: map<string, seq<Node>>)
    requires Groups(before, given)
    requires after == before[OrDefault(n.slot) := Lookup(before, OrDefault(n.slot)) + [n]]
    ensures Groups(after, given + [n])
  {
    forall name ensures Lookup(after, name) == Group(given + [n], name) {
      GroupAppend(given, n, name);
      assert Lookup(before, name) == Group(given, name);
    }
  }

  /** Afterwards every slot name leads to the children that ask for it. */
  method BuildSlotContents(given: seq<Node>) returns (contents: map<string, seq<Node>>)
    ensures "default" in contents
    ensures Groups(contents, given)
  {
    contents := map["default" := []];
    for i := 0 to |given|
      invariant "default" in contents && Groups(contents, given[..i])
    {
      var slotName := OrDefault(given[i].slot);
      ghost var before := contents;
      if slotName !in contents {
        contents := contents[slotName := []];
      }
      contents := contents[slotName := contents[slotName] + [given[i]]];
      assert given[..i + 1] == given[..i] + [given[i]];
      GroupsAppend(before, given[..i], given[i], contents);
    }
    assert given[..|given|] == given;
  }

  /** The names of all slot elements, those inside other slots included. */
  function SlotNames(nodes: seq<Node>): set<string> {
    if nodes == [] then {}
    else
      (if IsSlot(nodes[0]) then {OrDefault(nodes[0].name)} else {})
      + SlotNames(nodes[0].children) + SlotNames(nodes[1..])
  }

  /** The template after its slots are filled one by one in document order. Children move, so they end up at the last
      slot of their name; every slot element goes, together with what is inside it. `after` names the slots that
      follow. */
  function Fill(nodes: seq<Node>, given: seq<Node>, after: set<string>): seq<Node> {
    if nodes == [] then []
    else
      var n, later := nodes[0], SlotNames(nodes[1..]) + after;
      (if !IsSlot(n) then [n.(children := Fill(n.children, given, later))]
       else if OrDefault(n.name) in SlotNames(n.children) + later then []
       else Group(given, OrDefault(n.name)))
      + Fill(nodes[1..], given, after)
  }

  // ---- what filling keeps, moves and loses -----------------------------------------------------------

  function Count(nodes: seq<Node>, id: nat): nat {
    if nodes == [] then 0
    else (if nodes[0].id == id then 1 else 0) + Count(nodes[0].children, id) + Count(nodes[1..], id)
  }

  lemma {:induction false} CountConcat(a: seq<Node>, b: seq<Node>, id: nat)
    ensures Count(a + b, id) == Count(a, id) + Count(b, id)
  {
    if a == [] {
      assert a + b == b;
    } else {
      assert (a + b)[1..] == a[1..] + b;
      CountConcat(a[1..], b, id);
    }
  }

  /** The last slot element of this name stands outside every other slot element. */
  predicate HasRoom(nodes: seq<Node>, name: string, after: set<string>) {
    nodes != [] &&
    (HasRoom(nodes[1..], name, after) ||
     (name !in SlotNames(nodes[1..]) + after &&
      if !IsSlot(nodes[0]) then HasRoom(nodes[0].children, name, SlotNames(nodes[1..]) + after)
      else OrDefault(nodes[0].name) == name && name !in SlotNames(nodes[0].children)))
  }

  lemma {:induction false} NoRoomWhenLater(nodes: seq<Node>, name: string, after: set<string>)
    requires name in after || name !in SlotNames(nodes)
    ensures !HasRoom(nodes, name, after)
    decreases Size(nodes)
  {
    if nodes != [] {
      NoRoomWhenLater(nodes[1..], name, after);
      NoRoomWhenLater(nodes[0].children, name, SlotNames(nodes[1..]) + after);
    }
  }

  lemma {:induction false} GroupCounts(given: seq<Node>, name: string, id: nat)
    requires forall i :: 0 <= i < |given| && OrDefault(given[i].slot) == name ==> Count([given[i]], id) == 0
    ensures Count(Group(given, name), id) == 0
  {
    if given != [] {
      assert forall i :: 0 <= i < |given[1..]| ==> given[1..][i] == given[i + 1];
      GroupCounts(given[1..], name, id);
      CountConcat(if OrDefault(given[0].slot) == name then [given[0]] else [], Group(given[1..], name), id);
    }
  }

  /** A given child lands in the filled template exactly once if the last slot of its name stands outside other
      slots, and nowhere otherwise: with several slots of one name it goes to the last, and inside another slot it is
      lost. */
  lemma {:induction false} ChildrenLandOnceOrAreLost(nodes: seq<Node>, given: seq<Node>, after: set<string>,
                                                     name: string, id: nat)
    requires Count(nodes, id) == 0
    requires forall i :: 0 <= i < |given| && OrDefault(given[i].slot) != name ==> Count([given[i]], id) == 0
    ensures Count(Fill(nodes, given, after), id) ==
      if HasRoom(nodes, name, after) then Count(Group(given, name), id) else 0
    decreases Size(nodes)
  {
    if nodes != [] {
      var n, later := nodes[0], SlotNames(nodes[1..]) + after;
      ChildrenLandOnceOrAreLost(nodes[1..], given, after, name, id);
      var first :=
        if !IsSlot(n) then [n.(children := Fill(n.children, given, later))]
        else if OrDefault(n.name) in SlotNames(n.children) + later then []
        else Group(given, OrDefault(n.name));
      CountConcat(first, Fill(nodes[1..], given, after), id);
      if name !in SlotNames(nodes[1..]) || name in after { NoRoomWhenLater(nodes[1..], name, after); }
      if !IsSlot(n) {
        ChildrenLandOnceOrAreLost(n.children, given, later, name, id);
        assert first[1..] == [];
        if name in later { NoRoomWhenLater(n.children, name, later); }
      } else if first != [] && OrDefault(n.name) != name {
        GroupCounts(given, OrDefault(n.name), id);
      }
    }
  }

  lemma {:induction false} SlotNamesConcat(a: seq<Node>, b: seq<Node>)
    ensures SlotNames(a + b) == SlotNames(a) + SlotNames(b)
  {
    if a == [] {
      assert a + b == b;
    } else {
      assert (a + b)[1..] == a[1..] + b;
      SlotNamesConcat(a[1..], b);
    }
  }

  /** A child that found room brought a slot called `x`. */
  ghost predicate Brought(nodes: seq<Node>, given: seq<Node>, after: set<string>, x: string) {
    exists name :: HasRoom(nodes, name, after) && x in SlotNames(Group(given, name))
  }

  lemma BroughtStep(nodes: seq<Node>, given: seq<Node>, after: set<string>, x: string)
    requires nodes != []
    ensures var n, later, asked := nodes[0], SlotNames(nodes[1..]) + after, OrDefault(nodes[0].name);
      Brought(nodes, given, after, x) <==>
        || Brought(nodes[1..], given, after, x)
        || if !IsSlot(n) then Brought(n.children, given, later, x)
           else asked !in SlotNames(n.children) + later && x in SlotNames(Group(given, asked))
  {
    var n, later, asked := nodes[0], SlotNames(nodes[1..]) + after, OrDefault(nodes[0].name);
    forall name ensures HasRoom(nodes, name, after) <==>
      || HasRoom(nodes[1..], name, after)
      || if !IsSlot(n) then HasRoom(n.children, name, later)
         else name == asked && asked !in SlotNames(n.children) + later
    {
      if name in later { NoRoomWhenLater(n.children, name, later); }
    }
    if IsSlot(n) && asked !in SlotNames(n.children) + later { assert HasRoom(nodes, asked, after); }
  }

  /** A slot name is found after the filling if and only if it came with a child that found room: no slot of the
      template survives. */
  lemma {:induction false} SlotsLeftWereBrought(nodes: seq<Node>, given: seq<Node>, after: set<string>, x: string)
    ensures x in SlotNames(Fill(nodes, given, after)) <==> Brought(nodes, given, after, x)
    decreases Size(nodes)
  {
    if nodes != [] {
      var n, later, asked := nodes[0], SlotNames(nodes[1..]) + after, OrDefault(nodes[0].name);
      BroughtStep(nodes, given, after, x);
      SlotsLeftWereBrought(nodes[1..], given, after, x);
      var first :=
        if !IsSlot(n) then [n.(children := Fill(n.children, given, later))]
        else if asked in SlotNames(n.children) + later then []
        else Group(given, asked);
      SlotNamesConcat(first, Fill(nodes[1..], given, after));
      if !IsSlot(n) {
        SlotsLeftWereBrought(n.children, given, later, x);
        assert first[0].tag == n.tag && first[1..] == [];
      }
    }
  }

  // ---- the warning about slot content without a slot -------------------------------------------------

  /** What the code warns about: there is slot content, and no slot is found, after the filling. */
  predicate Warns(template: seq<Node>, given: seq<Node>) {
    given != [] && SlotNames(Fill(template, given, {})) == {}
  }

  method LacksSlot(template: seq<Node>, given: seq<Node>) returns (warn: bool)
    ensures warn == Warns(template, given)
  {
    var contents := BuildSlotContents(given);
    var hasSlotContent := exists name | name in contents :: contents[name] != [];
    assert hasSlotContent == (given != []) by {
      if given != [] {
        var name := OrDefault(given[0].slot);
        assert Lookup(contents, name) == Group(given, name) != [];
      }
      forall name | name in contents ensures contents[name] == Group(given, name) {
        assert Lookup(contents, name) == contents[name];
      }
    }
    var content := Fill(template, given, {});
    warn := hasSlotContent && SlotNames(content) == {};
  }

  /** Some child that found room brought a slot of its own. */
  ghost predicate ContentHasSlot(template: seq<Node>, given: seq<Node>) {
    exists name :: HasRoom(template, name, {}) && SlotNames(Group(given, name)) != {}
  }

  lemma SlotsLeftIff(template: seq<Node>, given: seq<Node>)
    ensures SlotNames(Fill(template, given, {})) != {} <==> ContentHasSlot(template, given)
  {
    var left := SlotNames(Fill(template, given, {}));
    if ContentHasSlot(template, given) {
      var name :| HasRoom(template, name, {}) && SlotNames(Group(given, name)) != {};
      var x :| x in SlotNames(Group(given, name));
      assert Brought(template, given, {}, x);
      SlotsLeftWereBrought(template, given, {}, x);
    }
    if left != {} {
      var x :| x in left;
      SlotsLeftWereBrought(template, given, {}, x);
      var name :| HasRoom(template, name, {}) && x in SlotNames(Group(given, name));
      assert SlotNames(Group(given, name)) != {};
    }
  }

  /** The warning tells whether the template lacks a slot exactly if there is no slot content, or really no slot, or
      a child that found room brought a slot of its own. */
  lemma WarningIsRightIff(template: seq<Node>, given: seq<Node>)
    ensures (Warns(template, given) <==> given != [] && SlotNames(template) == {}) <==>
      given == [] || SlotNames(template) == {} || ContentHasSlot(template, given)
  {
    SlotsLeftIff(template, given);
    if SlotNames(template) == {} {
      forall name ensures !HasRoom(template, name, {}) { NoRoomWhenLater(template, name, {}); }
    }
  }

  /** A template that is a lone slot, with one child that fills it: the code warns that there is no slot. */
  lemma WarnsAboutFilledSlot(slot: Node, child: Node)
    requires slot == Node(slot.id, "slot", "", "", []) && child.tag != "slot" && child.slot == ""
    requires child.children == []
    ensures Warns([slot], [child]) && SlotNames([slot]) == {"default"}
  {
    var template, one := [slot], [child];
    assert template[1..] == [] && one[1..] == [];
    assert SlotNames([]) == {} && Group(one, "default") == one;
    assert Fill(template, one, {}) == one + [];
    assert SlotNames(one) == {};
  }

  // ---- the context of slot content --------------------------------------------------------------------

  /** How often element `id` is walked with the context of the place of use (`use`), or with the component's own: the
      walk compares the direct children of the component with the given ones, and what is inside them follows suit. */
  function WalkedIn(content: seq<Node>, given: seq<Node>, use: bool, id: nat): nat {
    if content == [] then 0
    else (if (content[0] in given) == use then Count([content[0]], id) else 0) + WalkedIn(content[1..], given, use, id)
  }

  /** The last slot element of this name is a direct child of the template. */
  predicate RoomAtTop(nodes: seq<Node>, name: string, after: set<string>) {
    nodes != [] &&
    (RoomAtTop(nodes[1..], name, after) ||
     (IsSlot(nodes[0]) && OrDefault(nodes[0].name) == name &&
      name !in SlotNames(nodes[0].children) + SlotNames(nodes[1..]) + after))
  }

  lemma {:induction false} TopRoomIsLast(nodes: seq<Node>, name: string, after: set<string>)
    ensures RoomAtTop(nodes, name, after) ==> HasRoom(nodes, name, after) && name in SlotNames(nodes) && name !in after
  {
    if nodes != [] { TopRoomIsLast(nodes[1..], name, after); }
  }

  lemma {:induction false} WalkedInConcat(a: seq<Node>, b: seq<Node>, given: seq<Node>, use: bool, id: nat)
    ensures WalkedIn(a + b, given, use, id) == WalkedIn(a, given, use, id) + WalkedIn(b, given, use, id)
  {
    if a == [] {
      assert a + b == b;
    } else {
      assert (a + b)[1..] == a[1..] + b;
      WalkedInConcat(a[1..], b, given, use, id);
    }
  }

  lemma {:induction false} WalkedInEither(content: seq<Node>, given: seq<Node>, id: nat)
    ensures WalkedIn(content, given, true, id) + WalkedIn(content, given, false, id) == Count(content, id)
  {
    if content != [] {
      WalkedInEither(content[1..], given, id);
      assert content == [content[0]] + content[1..];
      CountConcat([content[0]], content[1..], id);
    }
  }

  lemma {:induction false} GivenAreWalkedInUse(some: seq<Node>, given: seq<Node>, id: nat)
    requires forall n :: n in some ==> n in given
    ensures WalkedIn(some, given, true, id) == Count(some, id)
  {
    if some != [] {
      GivenAreWalkedInUse(some[1..], given, id);
      assert some == [some[0]] + some[1..];
      CountConcat([some[0]], some[1..], id);
    }
  }

  lemma {:induction false} GroupIsGiven(given: seq<Node>, name: string)
    ensures forall n :: n in Group(given, name) ==> n in given
  {
    if given != [] { GroupIsGiven(given[1..], name); }
  }

  lemma {:induction false} OnlyTopRoomIsInUse(nodes: seq<Node>, given: seq<Node>, after: set<string>, name: string,
                                              id: nat)
    requires forall g :: g in given ==> Count(nodes, g.id) == 0
    requires forall i :: 0 <= i < |given| && OrDefault(given[i].slot) != name ==> Count([given[i]], id) == 0
    ensures WalkedIn(Fill(nodes, given, after), given, true, id) ==
      if RoomAtTop(nodes, name, after) then Count(Group(given, name), id) else 0
  {
    if nodes != [] {
      var n, later, asked := nodes[0], SlotNames(nodes[1..]) + after, OrDefault(nodes[0].name);
      OnlyTopRoomIsInUse(nodes[1..], given, after, name, id);
      TopRoomIsLast(nodes[1..], name, after);
      var first :=
        if !IsSlot(n) then [n.(children := Fill(n.children, given, later))]
        else if asked in SlotNames(n.children) + later then []
        else Group(given, asked);
      WalkedInConcat(first, Fill(nodes[1..], given, after), given, true, id);
      if !IsSlot(n) {
        assert first[0].id == n.id && first[0] !in given && first[1..] == [];
      } else if first != [] {
        GroupIsGiven(given, asked);
        GivenAreWalkedInUse(first, given, id);
        if asked != name { GroupCounts(given, asked, id); }
      }
    }
  }

  /** Slot content is walked with the context of the place of use, as it should be, if and only if the last slot of
      its name is a direct child of the template; in a deeper slot it is walked with the component's own context. */
  lemma SlotContentKeepsItsContextIff(template: seq<Node>, given: seq<Node>, name: string, id: nat)
    requires forall g :: g in given ==> Count(template, g.id) == 0
    requires Count(template, id) == 0 && Count(Group(given, name), id) == 1
    requires forall i :: 0 <= i < |given| && OrDefault(given[i].slot) != name ==> Count([given[i]], id) == 0
    ensures var content := Fill(template, given, {});
      && WalkedIn(content, given, true, id) == (if RoomAtTop(template, name, {}) then 1 else 0)
      && WalkedIn(content, given, false, id) ==
        (if HasRoom(template, name, {}) && !RoomAtTop(template, name, {}) then 1 else 0)
  {
    OnlyTopRoomIsInUse(template, given, {}, name, id);
    ChildrenLandOnceOrAreLost(template, given, {}, name, id);
    WalkedInEither(Fill(template, given, {}), given, id);
    TopRoomIsLast(template, name, {});
  }

  // ---- expansion ------------------------------------------------------------------------------------------

  function Filled(registry: Registry, n: Node): seq<Node>
    requires n.tag in registry
  {
    Fill(registry[n.tag], n.children, {})
  }

  lemma OneLess(registry: Registry, stack: set<string>, tag: string)
    requires tag in registry && tag !in stack
    ensures |registry.Keys - (stack + {tag})| < |registry.Keys - stack|
  {
    assert registry.Keys - (stack + {tag}) == registry.Keys - stack - {tag};
  }

  /** The walk, with the stack passed down: the expanded nodes, or the tag a circular nesting was found at. */
  function Expand(registry: Registry, nodes: seq<Node>, stack: set<string>): Result<seq<Node>, string>
    decreases |registry.Keys - stack|, Size(nodes)
  {
    if nodes == [] then Ok([])
    else
      var n := nodes[0];
      var inner :=
        if n.tag !in registry then Expand(registry, n.children, stack)
        else if n.tag in stack then Err(n.tag)
        else (OneLess(registry, stack, n.tag); Expand(registry, Filled(registry, n), stack + {n.tag}));
      if inner.Err? then inner
      else
        var rest := Expand(registry, nodes[1..], stack);
        if rest.Err? then rest else Ok([n.(children := inner.value)] + rest.value)
  }

  class Processor {
    const registry: Registry
    var processingStack: set<string>

    constructor (registry: Registry)
      ensures this.registry == registry && processingStack == {}
    {
      this.registry, processingStack := registry, {};
    }

    /** Terminates for every finite registry, circular ones included, and leaves the stack as it was, error or not. */
    method Walk(nodes: seq<Node>) returns (r: Result<seq<Node>, string>)
      modifies this`processingStack
      ensures processingStack == old(processingStack)
      ensures r == Expand(registry, nodes, processingStack)
      decreases |registry.Keys - processingStack|, Size(nodes)
    {
      if nodes == [] {
        return Ok([]);
      }
      var n := nodes[0];
      var inner;
      if n.tag in registry {
        inner := ProcessComponent(n);
      } else {
        inner := Walk(n.children);
      }
      if inner.Err? {
        return inner;
      }
      var rest := Walk(nodes[1..]);
      if rest.Err? {
        return rest;
      }
      r := Ok([n.(children := inner.value)] + rest.value);
    }

    /** Throws exactly when the tag is already being processed, or deeper down. */
    method ProcessComponent(el: Node) returns (r: Result<seq<Node>, string>)
      requires el.tag in registry
      modifies this`processingStack
      ensures processingStack == old(processingStack)
      ensures el.tag in processingStack ==> r == Err(el.tag)
      ensures el.tag !in processingStack ==> r == Expand(registry, Filled(registry, el), processingStack + {el.tag})
      decreases |registry.Keys - processingStack|, 0
    {
      if el.tag in processingStack {
        return Err(el.tag);
      }
      OneLess(registry, processingStack, el.tag);
      processingStack := processingStack + {el.tag};
      r := Walk(Filled(registry, el));
      processingStack := processingStack - {el.tag};
    }
  }

  // ---- when it fails ------------------------------------------------------------------------------------------

  /** The outermost component elements. */
  function Frontier(registry: Registry, nodes: seq<Node>): seq<Node>
    decreases Size(nodes)
  {
    if nodes == [] then []
    else
      (if nodes[0].tag in registry then [nodes[0]] else Frontier(registry, nodes[0].children))
      + Frontier(registry, nodes[1..])
  }

  /** Components nested in one another: each stands in the filled template of the one before. */
  ghost predicate Nested(registry: Registry, nodes: seq<Node>, path: seq<Node>)
    decreases |path|
  {
    path == [] ||
    (path[0] in Frontier(registry, nodes) && path[0].tag in registry &&
     Nested(registry, Filled(registry, path[0]), path[1..]))
  }

  function Tags(path: seq<Node>): seq<string> { seq(|path|, i requires 0 <= i < |path| => path[i].tag) }

  /** The innermost component has the tag of one further out, or of one under way before. */
  ghost predicate Repeats(path: seq<Node>, stack: set<string>) {
    path != [] && (Last(path).tag in stack || exists i :: 0 <= i < |path| - 1 && path[i].tag == Last(path).tag)
  }

  lemma RepeatsInside(path: seq<Node>, stack: set<string>)
    requires |path| > 1
    ensures Repeats(path, stack) <==> Repeats(path[1..], stack + {path[0].tag})
  {
    var inner := path[1..];
    var last := Last(path).tag;
    assert Last(inner).tag == last;
    if i :| 0 <= i < |path| - 1 && path[i].tag == last {
      if i > 0 { assert inner[i - 1].tag == last; }
    }
    if i :| 0 <= i < |inner| - 1 && inner[i].tag == last {
      assert path[i + 1].tag == last;
    }
  }

  /** The nodes met at the top are met by the walk. */
  lemma {:induction false} FrontierFails(registry: Registry, nodes: seq<Node>, stack: set<string>, n: Node)
    requires n in Frontier(registry, nodes) && n.tag in registry
    requires n.tag in stack || Expand(registry, Filled(registry, n), stack + {n.tag}).Err?
    ensures Expand(registry, nodes, stack).Err?
    decreases Size(nodes)
  {
    if nodes[0].tag in registry {
      if n != nodes[0] { FrontierFails(registry, nodes[1..], stack, n); }
    } else if n in Frontier(registry, nodes[0].children) {
      FrontierFails(registry, nodes[0].children, stack, n);
    } else {
      FrontierFails(registry, nodes[1..], stack, n);
    }
  }

  lemma {:induction false} RepetitionFails(registry: Registry, nodes: seq<Node>, stack: set<string>, path: seq<Node>)
    requires Nested(registry, nodes, path) && Repeats(path, stack)
    ensures Expand(registry, nodes, stack).Err?
    decreases |path|
  {
    if |path| > 1 && path[0].tag !in stack {
      RepeatsInside(path, stack);
      RepetitionFails(registry, Filled(registry, path[0]), stack + {path[0].tag}, path[1..]);
    }
    FrontierFails(registry, nodes, stack, path[0]);
  }

  lemma {:induction false} FailureHasCause(registry: Registry, nodes: seq<Node>, stack: set<string>)
    returns (path: seq<Node>)
    requires Expand(registry, nodes, stack).Err?
    ensures Nested(registry, nodes, path) && Repeats(path, stack)
    ensures Last(path).tag == Expand(registry, nodes, stack).error
    decreases |registry.Keys - stack|, Size(nodes)
  {
    var n := nodes[0];
    if n.tag !in registry && Expand(registry, n.children, stack).Err? {
      path := FailureHasCause(registry, n.children, stack);
    } else if n.tag in registry && n.tag in stack {
      path := [n];
      assert path[1..] == [];
    } else if n.tag in registry && Expand(registry, Filled(registry, n), stack + {n.tag}).Err? {
      OneLess(registry, stack, n.tag);
      var inner := FailureHasCause(registry, Filled(registry, n), stack + {n.tag});
      path := [n] + inner;
      assert path[1..] == inner;
      RepeatsInside(path, stack);
    } else {
      path := FailureHasCause(registry, nodes[1..], stack);
    }
  }

  /** The circular error is raised if and only if some component is nested, through filled templates, in one of its
      own tag or in one already under way. */
  lemma CircularIffRepeated(registry: Registry, nodes: seq<Node>, stack: set<string>)
    ensures Expand(registry, nodes, stack).Err? <==>
      exists path :: Nested(registry, nodes, path) && Repeats(path, stack)
  {
    if Expand(registry, nodes, stack).Err? {
      var path := FailureHasCause(registry, nodes, stack);
    }
    if path :| Nested(registry, nodes, path) && Repeats(path, stack) {
      RepetitionFails(registry, nodes, stack, path);
    }
  }

  lemma {:induction false} NestedPrefix(registry: Registry, nodes: seq<Node>, path: seq<Node>, k: nat)
    requires Nested(registry, nodes, path) && k <= |path|
    ensures Nested(registry, nodes, path[..k])
    decreases |path|
  {
    if k > 0 {
      NestedPrefix(registry, Filled(registry, path[0]), path[1..], k - 1);
      assert path[..k][1..] == path[1..][..k - 1];
    }
  }

  lemma {:induction false} NestedRegistered(registry: Registry, nodes: seq<Node>, path: seq<Node>)
    requires Nested(registry, nodes, path)
    ensures forall i :: 0 <= i < |path| ==> path[i].tag in registry
    decreases |path|
  {
    if path != [] { NestedRegistered(registry, Filled(registry, path[0]), path[1..]); }
  }

  /** Where expansion succeeds, components are never nested deeper than there are registered tags not yet under way. */
  lemma NestingIsBounded(registry: Registry, nodes: seq<Node>, stack: set<string>, path: seq<Node>)
    requires Expand(registry, nodes, stack).Ok? && Nested(registry, nodes, path)
    ensures |path| <= |registry.Keys - stack|
  {
    var tags := Tags(path);
    NestedRegistered(registry, nodes, path);
    forall j | 0 <= j < |path|
      ensures path[j].tag !in stack && forall i :: 0 <= i < j ==> path[i].tag != path[j].tag
    {
      NestedPrefix(registry, nodes, path, j + 1);
      var upto := path[..j + 1];
      if Repeats(upto, stack) { RepetitionFails(registry, nodes, stack, upto); }
      assert Last(upto) == path[j];
      forall i | 0 <= i < j ensures path[i].tag != path[j].tag { assert upto[i] == path[i]; }
    }
    DistinctCardinality(tags);
    assert Elements(tags) <= registry.Keys - stack;
    SubsetIsSmaller(Elements(tags), registry.Keys - stack);
  }

  lemma {:induction false} SubsetIsSmaller<T>(a: set<T>, b: set<T>)
    requires a <= b
    ensures |a| <= |b|
    decreases a
  {
    if x :| x in a { SubsetIsSmaller(a - {x}, b - {x}); }
  }

  /** The stack does not tell slot content from the template: a component given to another of the same tag is
      reported as circular, though its template, a lone slot, names no component at all. */
  lemma GivenToItselfIsCalledCircular(tag: string, outer: Node, inner: Node, slot: Node)
    requires tag != "slot" && slot == Node(slot.id, "slot", "", "", [])
    requires inner == Node(inner.id, tag, "", "", []) && outer == Node(outer.id, tag, "", "", [inner])
    ensures Expand(map[tag := [slot]], [inner], {}).Ok?
    ensures Expand(map[tag := [slot]], [outer], {}) == Err(tag)
  {
    var registry: Registry := map[tag := [slot]];
    var template, one := [slot], [inner];
    assert template[1..] == [] && one[1..] == [];
    assert OrDefault(slot.name) == "default" == OrDefault(inner.slot);
    assert SlotNames([]) == {} && Group([], "default") == [];
    assert Fill(template, [], {}) == [];
    assert Group(one, "default") == one;
    assert Fill(template, one, {}) == one;
    assert Filled(registry, outer) == one && Filled(registry, inner) == [];
    OneLess(registry, {}, tag);
    assert Expand(registry, one, {} + {tag}) == Err(tag);
    var two := [outer];
    assert two[1..] == [];
    assert Expand(registry, [], {}) == Ok([]);
  }

  // ---- when the error is a false alarm -----------------------------------------------------------------------

  /** The tags of all elements. */
  function TagsIn(nodes: seq<Node>): set<string> {
    if nodes == [] then {} else {nodes[0].tag} + TagsIn(nodes[0].children) + TagsIn(nodes[1..])
  }

  /** The template of `a` mentions component `b`. */
  predicate Refers(registry: Registry, a: string, b: string) {
    a in registry && b in registry && b in TagsIn(registry[a])
  }

  /** Some component refers to itself, directly or through others: what the error message speaks of. */
  ghost predicate Circular(registry: Registry) {
    exists chain: seq<string> :: |chain| > 1 && Last(chain) == chain[0] && IsChain(registry, chain)
  }

  ghost predicate IsChain(registry: Registry, chain: seq<string>) {
    forall i :: 0 <= i < |chain| - 1 ==> Refers(registry, chain[i], chain[i + 1])
  }

  lemma {:induction false} TagsInConcat(a: seq<Node>, b: seq<Node>)
    ensures TagsIn(a + b) == TagsIn(a) + TagsIn(b)
  {
    if a == [] {
      assert a + b == b;
    } else {
      assert (a + b)[1..] == a[1..] + b;
      TagsInConcat(a[1..], b);
    }
  }

  lemma {:induction false} GroupTags(given: seq<Node>, name: string)
    ensures TagsIn(Group(given, name)) <= TagsIn(given)
  {
    if given != [] {
      var first := if OrDefault(given[0].slot) == name then [given[0]] else [];
      GroupTags(given[1..], name);
      TagsInConcat(first, Group(given[1..], name));
    }
  }

  /** Filling brings in no tag that is neither in the template nor in the content. */
  lemma {:induction false} FillTags(nodes: seq<Node>, given: seq<Node>, after: set<string>)
    ensures TagsIn(Fill(nodes, given, after)) <= TagsIn(nodes) + TagsIn(given)
    decreases Size(nodes)
  {
    if nodes != [] {
      var n, later := nodes[0], SlotNames(nodes[1..]) + after;
      FillTags(nodes[1..], given, after);
      var first :=
        if !IsSlot(n) then [n.(children := Fill(n.children, given, later))]
        else if OrDefault(n.name) in SlotNames(n.children) + later then []
        else Group(given, OrDefault(n.name));
      TagsInConcat(first, Fill(nodes[1..], given, after));
      if !IsSlot(n) {
        FillTags(n.children, given, later);
        assert first[1..] == [];
      } else {
        GroupTags(given, OrDefault(n.name));
      }
    }
  }

  lemma {:induction false} FrontierTags(registry: Registry, nodes: seq<Node>, n: Node)
    requires n in Frontier(registry, nodes)
    ensures n.tag in TagsIn(nodes) && n.tag in registry
    decreases Size(nodes)
  {
    if nodes[0].tag in registry && n == nodes[0] {
    } else if nodes[0].tag !in registry && n in Frontier(registry, nodes[0].children) {
      FrontierTags(registry, nodes[0].children, n);
    } else {
      FrontierTags(registry, nodes[1..], n);
    }
  }

  /** Of two components nested in one another the inner one is mentioned in the template of the outer one or given to
      it as slot content. */
  lemma {:induction false} NestedStep(registry: Registry, nodes: seq<Node>, path: seq<Node>, j: nat)
    requires Nested(registry, nodes, path) && j + 1 < |path|
    ensures Refers(registry, path[j].tag, path[j + 1].tag) || path[j + 1].tag in TagsIn(path[j].children)
    decreases |path|
  {
    var rest, filled := path[1..], Filled(registry, path[0]);
    if j == 0 {
      assert rest[0] == path[1];
      FrontierTags(registry, filled, path[1]);
      FillTags(registry[path[0].tag], path[0].children, {});
    } else {
      assert rest[j - 1] == path[j] && rest[j] == path[j + 1];
      NestedStep(registry, filled, rest, j - 1);
    }
  }

  /** On the way from the component at `i` to the innermost one, which has its tag, the one behind `j` came as slot
      content: the template of `j` does not mention it. */
  ghost predicate ComesAsContent(registry: Registry, path: seq<Node>, i: nat, j: nat) {
    && i <= j < |path| - 1 && path[i].tag == Last(path).tag
    && !Refers(registry, path[j].tag, path[j + 1].tag) && path[j + 1].tag in TagsIn(path[j].children)
  }

  lemma RepetitionIsCircular(registry: Registry, path: seq<Node>, i: nat)
    requires i < |path| - 1 && path[i].tag == Last(path).tag
    requires forall j :: i <= j < |path| - 1 ==> Refers(registry, path[j].tag, path[j + 1].tag)
    ensures Circular(registry)
  {
    var chain := Tags(path[i..]);
    assert forall j :: 0 <= j < |chain| ==> chain[j] == path[i + j].tag;
    assert IsChain(registry, chain) && Last(chain) == chain[0];
  }

  /** Where no template refers back to its own component every circular error is a false alarm. It is raised if and only
      if some component is nested in one of its own tag and, between the two, a component came as slot content. */
  lemma FalseAlarmIffContent(registry: Registry, nodes: seq<Node>)
    requires !Circular(registry)
    ensures Expand(registry, nodes, {}).Err? <==>
      exists path, i, j :: Nested(registry, nodes, path) && ComesAsContent(registry, path, i, j)
  {
    if Expand(registry, nodes, {}).Err? {
      var path := FailureHasCause(registry, nodes, {});
      var i :| 0 <= i < |path| - 1 && path[i].tag == Last(path).tag;
      if forall j :: i <= j < |path| - 1 ==> Refers(registry, path[j].tag, path[j + 1].tag) {
        RepetitionIsCircular(registry, path, i);
      }
      var j :| i <= j < |path| - 1 && !Refers(registry, path[j].tag, path[j + 1].tag);
      NestedStep(registry, nodes, path, j);
      assert ComesAsContent(registry, path, i, j);
    }
    if path, i, j :| Nested(registry, nodes, path) && ComesAsContent(registry, path, i, j) {
      assert Repeats(path, {});
      RepetitionFails(registry, nodes, {}, path);
    }
  }

  /** No component element is given children. */
  predicate Contentless(registry: Registry, nodes: seq<Node>) {
    nodes == [] ||
    ((if nodes[0].tag in registry then nodes[0].children == [] else Contentless(registry, nodes[0].children)) &&
     Contentless(registry, nodes[1..]))
  }

  lemma {:induction false} ContentlessFrontier(registry: Registry, nodes: seq<Node>, n: Node)
    requires Contentless(registry, nodes) && n in Frontier(registry, nodes)
    ensures n.children == []
    decreases Size(nodes)
  {
    if nodes[0].tag in registry && n == nodes[0] {
    } else if nodes[0].tag !in registry && n in Frontier(registry, nodes[0].children) {
      ContentlessFrontier(registry, nodes[0].children, n);
    } else {
      ContentlessFrontier(registry, nodes[1..], n);
    }
  }

  lemma {:induction false} ContentlessConcat(registry: Registry, a: seq<Node>, b: seq<Node>)
    requires Contentless(registry, a) && Contentless(registry, b)
    ensures Contentless(registry, a + b)
  {
    if a == [] {
      assert a + b == b;
    } else {
      assert (a + b)[1..] == a[1..] + b;
      ContentlessConcat(registry, a[1..], b);
    }
  }

  lemma {:induction false} ContentlessFill(registry: Registry, nodes: seq<Node>, after: set<string>)
    requires Contentless(registry, nodes)
    ensures Contentless(registry, Fill(nodes, [], after))
    decreases Size(nodes)
  {
    if nodes != [] {
      var n, later := nodes[0], SlotNames(nodes[1..]) + after;
      ContentlessFill(registry, nodes[1..], after);
      if !IsSlot(n) {
        var m := n.(children := Fill(n.children, [], later));
        if n.tag !in registry { ContentlessFill(registry, n.children, later); }
        assert [m][1..] == [];
        ContentlessConcat(registry, [m], Fill(nodes[1..], [], after));
      } else {
        assert Group([], OrDefault(n.name)) == [];
        assert [] + Fill(nodes[1..], [], after) == Fill(nodes[1..], [], after);
      }
    }
  }

  lemma {:induction false} ContentlessPath(registry: Registry, nodes: seq<Node>, path: seq<Node>, j: nat)
    requires forall tag :: tag in registry ==> Contentless(registry, registry[tag])
    requires Contentless(registry, nodes) && Nested(registry, nodes, path) && j < |path|
    ensures path[j].children == []
    decreases |path|
  {
    ContentlessFrontier(registry, nodes, path[0]);
    if j > 0 {
      ContentlessFill(registry, registry[path[0].tag], {});
      ContentlessPath(registry, Filled(registry, path[0]), path[1..], j - 1);
    }
  }

  /** Where no component is given any content the error is never a false alarm. */
  lemma NoContentNoFalseAlarm(registry: Registry, nodes: seq<Node>)
    requires forall tag :: tag in registry ==> Contentless(registry, registry[tag])
    requires Contentless(registry, nodes) && Expand(registry, nodes, {}).Err?
    ensures Circular(registry)
  {
    if !Circular(registry) {
      FalseAlarmIffContent(registry, nodes);
      var path, i, j :| Nested(registry, nodes, path) && ComesAsContent(registry, path, i, j);
      ContentlessPath(registry, nodes, path, j);
    }
  }
}
