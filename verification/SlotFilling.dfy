/** The loop that fills slots, child by child moved from slot to slot, against the filled template in one go. */
module SlotFilling {
  import opened Prelude
  import opened Components

  // ---- which children a slot gets ------------------------------------------------------------------------

  /** The child asks for the slot by its name, or for the default slot by no name. */
  predicate Asks(n: Node, name: string) { if n.slot == "" then name == "default" else n.slot == name }

  function Askers(given: seq<Node>, name: string): nat {
    if given == [] then 0 else Askers(Front(given), name) + if Asks(Last(given), name) then 1 else 0
  }

  /** A slot gets the children that ask for it, each behind those that ask for it too and were given before. */
  lemma {:induction false} GroupByPosition(given: seq<Node>, name: string)
    ensures |Group(given, name)| == Askers(given, name)
    ensures forall i :: 0 <= i < |given| && Asks(given[i], name) ==>
      Askers(given[..i], name) < Askers(given, name) && Group(given, name)[Askers(given[..i], name)] == given[i]
    decreases |given|
  {
    if given != [] {
      var init := Front(given);
      GroupByPosition(init, name);
      GroupAppend(init, Last(given), name);
      assert given == init + [Last(given)];
      forall i | 0 <= i < |given| && Asks(given[i], name)
        ensures Askers(given[..i], name) < Askers(given, name)
        ensures Group(given, name)[Askers(given[..i], name)] == given[i]
      {
        if i < |init| { assert init[..i] == given[..i]; } else { assert given[..i] == init; }
      }
    }
  }

  // ---- moving and replacing elements -----------------------------------------------------------------

  /** The slot elements in document order. */
  function Slots(nodes: seq<Node>): seq<Node> {
    if nodes == [] then []
    else (if IsSlot(nodes[0]) then [nodes[0]] else []) + (Slots(nodes[0].children) + Slots(nodes[1..]))
  }

  function Ids(nodes: seq<Node>): set<nat> { set n | n in nodes :: n.id }

  /** The tree after elements have been moved out of it. */
  function Without(nodes: seq<Node>, ids: set<nat>): seq<Node> {
    if nodes == [] then []
    else
      (if nodes[0].id in ids then [] else [nodes[0].(children := Without(nodes[0].children, ids))])
      + Without(nodes[1..], ids)
  }

  /** The tree with an element replaced by others, if it is there. */
  function Replace(nodes: seq<Node>, id: nat, group: seq<Node>): seq<Node> {
    if nodes == [] then []
    else
      (if nodes[0].id == id then group else [nodes[0].(children := Replace(nodes[0].children, id, group))])
      + Replace(nodes[1..], id, group)
  }

  /** The children that ask for the slot leave the place where they are and take that of the slot. A slot inside one
      that is already gone takes them out of the tree. */
  function FillOne(content: seq<Node>, slot: Node, group: seq<Node>): seq<Node> {
    Replace(Without(content, Ids(group)), slot.id, group)
  }

  // ---- some slots filled ---------------------------------------------------------------------------------

  function DoneNames(nodes: seq<Node>, done: set<nat>): set<string> {
    if nodes == [] then {}
    else
      (if IsSlot(nodes[0]) && nodes[0].id in done then {OrDefault(nodes[0].name)} else {})
      + DoneNames(nodes[0].children, done) + DoneNames(nodes[1..], done)
  }

  /** The template with only the slots in `done` filled; `after` names such slots further on. */
  function Partly(nodes: seq<Node>, given: seq<Node>, done: set<nat>, after: set<string>): seq<Node>
    decreases nodes, 0
  {
    if nodes == [] then []
    else PartlyOne(nodes[0], given, done, DoneNames(nodes[1..], done) + after) + Partly(nodes[1..], given, done, after)
  }

  function PartlyOne(n: Node, given: seq<Node>, done: set<nat>, later: set<string>): seq<Node>
    decreases n, 1
  {
    if !(IsSlot(n) && n.id in done) then [n.(children := Partly(n.children, given, done, later))]
    else if OrDefault(n.name) in DoneNames(n.children, done) + later then []
    else Group(given, OrDefault(n.name))
  }

  lemma {:induction false} NoNames(nodes: seq<Node>, done: set<nat>)
    requires forall s :: s in Slots(nodes) ==> s.id !in done
    ensures DoneNames(nodes, done) == {}
    decreases nodes
  {
    if nodes != [] {
      assert IsSlot(nodes[0]) ==> nodes[0] in Slots(nodes);
      NoNames(nodes[1..], done);
      NoNames(nodes[0].children, done);
    }
  }

  lemma {:induction false} NoneDone(nodes: seq<Node>, given: seq<Node>, done: set<nat>, after: set<string>)
    requires DoneNames(nodes, done) == {}
    ensures Partly(nodes, given, done, after) == nodes
    decreases nodes
  {
    if nodes != [] {
      var n := nodes[0];
      assert IsSlot(n) && n.id in done ==> OrDefault(n.name) in DoneNames(nodes, done);
      NoneDone(nodes[1..], given, done, after);
      NoneDone(n.children, given, done, DoneNames(nodes[1..], done) + after);
      assert nodes == [n] + nodes[1..];
    }
  }

  lemma {:induction false} AllDone(nodes: seq<Node>, given: seq<Node>, done: set<nat>, after: set<string>)
    requires forall s :: s in Slots(nodes) ==> s.id in done
    ensures DoneNames(nodes, done) == SlotNames(nodes) && Partly(nodes, given, done, after) == Fill(nodes, given, after)
    decreases nodes
  {
    if nodes != [] {
      var n, below, rest := nodes[0], Slots(nodes[0].children), Slots(nodes[1..]);
      assert forall s :: s in below || s in rest ==> s in Slots(nodes);
      assert IsSlot(n) ==> n in Slots(nodes);
      AllDone(nodes[1..], given, done, after);
      AllDone(n.children, given, done, SlotNames(nodes[1..]) + after);
    }
  }

  // ---- elements that are not there -------------------------------------------------------------------------

  lemma {:induction false} ReplaceAbsent(nodes: seq<Node>, id: nat, group: seq<Node>)
    requires Count(nodes, id) == 0
    ensures Replace(nodes, id, group) == nodes
    decreases nodes
  {
    if nodes != [] {
      ReplaceAbsent(nodes[0].children, id, group);
      ReplaceAbsent(nodes[1..], id, group);
      assert nodes == [nodes[0]] + nodes[1..];
    }
  }

  lemma {:induction false} ReplaceConcat(a: seq<Node>, b: seq<Node>, id: nat, group: seq<Node>)
    ensures Replace(a + b, id, group) == Replace(a, id, group) + Replace(b, id, group)
  {
    if a == [] {
      assert a + b == b;
    } else {
      assert (a + b)[1..] == a[1..] + b;
      ReplaceConcat(a[1..], b, id, group);
    }
  }

  lemma {:induction false} WithoutAbsent(nodes: seq<Node>, ids: set<nat>)
    requires forall id :: id in ids ==> Count(nodes, id) == 0
    ensures Without(nodes, ids) == nodes
    decreases nodes
  {
    if nodes != [] {
      WithoutAbsent(nodes[0].children, ids);
      WithoutAbsent(nodes[1..], ids);
      assert nodes == [nodes[0]] + nodes[1..];
    }
  }

  lemma {:induction false} WithoutAll(nodes: seq<Node>, ids: set<nat>)
    requires Ids(nodes) <= ids
    ensures Without(nodes, ids) == []
  {
    if nodes != [] {
      assert nodes[0].id in Ids(nodes);
      assert forall n :: n in nodes[1..] ==> n in nodes && n.id in Ids(nodes);
      WithoutAll(nodes[1..], ids);
    }
  }

  lemma {:induction false} WithoutConcat(a: seq<Node>, b: seq<Node>, ids: set<nat>)
    ensures Without(a + b, ids) == Without(a, ids) + Without(b, ids)
  {
    if a == [] {
      assert a + b == b;
    } else {
      assert (a + b)[1..] == a[1..] + b;
      WithoutConcat(a[1..], b, ids);
    }
  }

  lemma {:induction false} TopIsCounted(nodes: seq<Node>, n: Node)
    requires n in nodes
    ensures Count(nodes, n.id) > 0
  {
    if n != nodes[0] { TopIsCounted(nodes[1..], n); }
  }

  lemma {:induction false} SlotIsCounted(nodes: seq<Node>, s: Node)
    requires s in Slots(nodes)
    ensures Count(nodes, s.id) > 0 && IsSlot(s)
    decreases nodes
  {
    if s in Slots(nodes[0].children) {
      SlotIsCounted(nodes[0].children, s);
    } else if s in Slots(nodes[1..]) {
      SlotIsCounted(nodes[1..], s);
    }
  }

  lemma {:induction false} GroupsShare(given: seq<Node>, a: string, b: string, id: nat)
    ensures Count(Group(given, a), id) <= Count(given, id)
    ensures a != b ==> Count(Group(given, a), id) + Count(Group(given, b), id) <= Count(given, id)
  {
    if given != [] {
      GroupsShare(given[1..], a, b, id);
      var x := if OrDefault(given[0].slot) == a then [given[0]] else [];
      var y := if OrDefault(given[0].slot) == b then [given[0]] else [];
      CountConcat(x, Group(given[1..], a), id);
      CountConcat(y, Group(given[1..], b), id);
      assert [given[0]][1..] == [];
    }
  }

  lemma {:induction false} PartlyCounts(nodes: seq<Node>, given: seq<Node>, done: set<nat>, after: set<string>, id: nat)
    requires Count(given, id) == 0
    ensures Count(Partly(nodes, given, done, after), id) <= Count(nodes, id)
    decreases nodes
  {
    if nodes != [] {
      var n, later := nodes[0], DoneNames(nodes[1..], done) + after;
      PartlyCounts(nodes[1..], given, done, after, id);
      PartlyCounts(n.children, given, done, later, id);
      GroupsShare(given, OrDefault(n.name), "", id);
      var first := PartlyOne(n, given, done, later);
      CountConcat(first, Partly(nodes[1..], given, done, after), id);
      assert !(IsSlot(n) && n.id in done) ==> first[1..] == [];
    }
  }

  // ---- one more slot --------------------------------------------------------------------------------------------

  /** Every element of the template and of the content is there once. */
  ghost predicate Apart(nodes: seq<Node>, given: seq<Node>) {
    forall id :: Count(nodes, id) + Count(given, id) <= 1
  }

  /** Moving the children of one name away leaves the template with no slot of that name filled. */
  lemma {:induction false} MovedAway(nodes: seq<Node>, given: seq<Node>, done: set<nat>, after: set<string>,
                                    name: string)
    requires Apart(nodes, given)
    ensures Without(Partly(nodes, given, done, after), Ids(Group(given, name)))
            == Partly(nodes, given, done, after + {name})
    decreases nodes
  {
    if nodes != [] {
      var n, later, ids := nodes[0], DoneNames(nodes[1..], done) + after, Ids(Group(given, name));
      var asked, rest := OrDefault(n.name), Partly(nodes[1..], given, done, after);
      assert Apart(nodes[1..], given) && Apart(n.children, given);
      MovedAway(nodes[1..], given, done, after, name);
      forall id | id in ids ensures Count(given, id) == 1 == Count(Group(given, name), id) && Count(nodes, id) == 0 {
        var g :| g in Group(given, name) && g.id == id;
        TopIsCounted(Group(given, name), g);
        GroupsShare(given, name, "", id);
      }
      if !(IsSlot(n) && n.id in done) {
        MovedAway(n.children, given, done, later, name);
        assert later + {name} == DoneNames(nodes[1..], done) + (after + {name});
        var kept := n.(children := Partly(n.children, given, done, later));
        WithoutConcat([kept], rest, ids);
        assert n.id !in ids;
        assert [kept][1..] == [];
        assert Without([kept], ids) == [kept.(children := Without(kept.children, ids))] + [];
      } else if asked in DoneNames(n.children, done) + later {
        assert Partly(nodes, given, done, after) == [] + rest == rest;
        assert Partly(nodes, given, done, after + {name}) == Partly(nodes[1..], given, done, after + {name});
      } else {
        WithoutConcat(Group(given, asked), rest, ids);
        if asked == name {
          WithoutAll(Group(given, name), ids);
        } else {
          forall id | id in ids ensures Count(Group(given, asked), id) == 0 { GroupsShare(given, name, asked, id); }
          WithoutAbsent(Group(given, asked), ids);
        }
      }
    }
  }

  /** The first `i` slots are filled, and no others. */
  ghost predicate Upto(nodes: seq<Node>, done: set<nat>, i: nat) {
    forall j :: 0 <= j < |Slots(nodes)| ==> (Slots(nodes)[j].id in done <==> j < i)
  }

  lemma {:induction false} OneMoreDone(nodes: seq<Node>, given: seq<Node>, done: set<nat>, after: set<string>, id: nat)
    requires Count(nodes, id) == 0
    ensures DoneNames(nodes, done + {id}) == DoneNames(nodes, done)
    ensures Partly(nodes, given, done + {id}, after) == Partly(nodes, given, done, after)
    decreases nodes
  {
    if nodes != [] {
      OneMoreDone(nodes[1..], given, done, after, id);
      OneMoreDone(nodes[0].children, given, done, DoneNames(nodes[1..], done) + after, id);
    }
  }

  lemma {:induction false} NameIsDone(nodes: seq<Node>, done: set<nat>, s: Node)
    requires s in Slots(nodes) && Count(nodes, s.id) == 1
    ensures DoneNames(nodes, done + {s.id}) == DoneNames(nodes, done) + {OrDefault(s.name)}
    decreases nodes
  {
    var n, rest := nodes[0], nodes[1..];
    if s in Slots(n.children) {
      SlotIsCounted(n.children, s);
      assert n.id != s.id && Count(rest, s.id) == 0;
      NameIsDone(n.children, done, s);
      OneMoreDone(rest, [], done, {}, s.id);
    } else if s in Slots(rest) {
      SlotIsCounted(rest, s);
      assert n.id != s.id && Count(n.children, s.id) == 0;
      NameIsDone(rest, done, s);
      OneMoreDone(n.children, [], done, {}, s.id);
    } else {
      assert s == n && IsSlot(n);
      OneMoreDone(n.children, [], done, {}, s.id);
      OneMoreDone(rest, [], done, {}, s.id);
    }
  }

  /** The slot at `i` is the next to be filled, and no slot of its name further on is. */
  ghost predicate Next(nodes: seq<Node>, given: seq<Node>, done: set<nat>, after: set<string>, i: nat) {
    && i < |Slots(nodes)| && Upto(nodes, done, i) && OrDefault(Slots(nodes)[i].name) !in after
    && Count(nodes, Slots(nodes)[i].id) == 1 && Count(given, Slots(nodes)[i].id) == 0
  }

  /** What `FillOne` makes of a tree from which the slot's children are already gone. */
  ghost predicate FillsNext(nodes: seq<Node>, given: seq<Node>, done: set<nat>, after: set<string>, s: Node) {
    Replace(Partly(nodes, given, done, after + {OrDefault(s.name)}), s.id, Group(given, OrDefault(s.name)))
    == Partly(nodes, given, done + {s.id}, after)
  }

  lemma SlotsSplit(nodes: seq<Node>, i: nat)
    requires i < |Slots(nodes)|
    ensures var s, n, below := Slots(nodes)[i], nodes[0], Slots(nodes[0].children);
      var h := if IsSlot(n) then 1 else 0;
      && (i < h ==> s == n)
      && (h <= i < h + |below| ==> s == below[i - h])
      && (h + |below| <= i ==> i - h - |below| < |Slots(nodes[1..])| && s == Slots(nodes[1..])[i - h - |below|])
  {
    var below, rest := Slots(nodes[0].children), Slots(nodes[1..]);
    var head := if IsSlot(nodes[0]) then [nodes[0]] else [];
    var all := Slots(nodes);
    assert all == head + (below + rest);
    if i < |head| {
      assert all[i] == head[i];
    } else if i < |head| + |below| {
      assert all[i] == (below + rest)[i - |head|] == below[i - |head|];
    } else {
      assert all[i] == (below + rest)[i - |head|] == rest[i - |head| - |below|];
    }
  }

  lemma UptoSplits(nodes: seq<Node>, done: set<nat>, i: nat)
    requires nodes != [] && Upto(nodes, done, i)
    ensures var h := if IsSlot(nodes[0]) then 1 else 0;
      && (h == 1 ==> (nodes[0].id in done <==> 0 < i))
      && Upto(nodes[0].children, done, Max(0, i - h))
      && Upto(nodes[1..], done, Max(0, i - h - |Slots(nodes[0].children)|))
  {
    var below, rest := Slots(nodes[0].children), Slots(nodes[1..]);
    var h := if IsSlot(nodes[0]) then 1 else 0;
    var all := Slots(nodes);
    assert h == 1 ==> all[0] == nodes[0];
    forall j | 0 <= j < |below| ensures below[j].id in done <==> j < Max(0, i - h) { assert below[j] == all[h + j]; }
    forall j | 0 <= j < |rest| ensures rest[j].id in done <==> j < Max(0, i - h - |below|) {
      assert rest[j] == all[h + |below| + j];
    }
  }

  lemma NothingAfter(nodes: seq<Node>, given: seq<Node>, done: set<nat>, after: set<string>, id: nat)
    requires Upto(nodes, done, 0) && Count(nodes, id) == 0
    ensures DoneNames(nodes, done) == DoneNames(nodes, done + {id}) == {}
    ensures Partly(nodes, given, done, after) == Partly(nodes, given, done + {id}, after) == nodes
  {
    forall s | s in Slots(nodes) ensures s.id !in done { var j :| 0 <= j < |Slots(nodes)| && Slots(nodes)[j] == s; }
    NoNames(nodes, done);
    NoneDone(nodes, given, done, after);
    OneMoreDone(nodes, given, done, after, id);
  }

  lemma FillsHere(nodes: seq<Node>, given: seq<Node>, done: set<nat>, after: set<string>)
    requires Next(nodes, given, done, after, 0) && IsSlot(nodes[0])
    ensures FillsNext(nodes, given, done, after, nodes[0])
  {
    var s, rest := nodes[0], nodes[1..];
    var name := OrDefault(s.name);
    UptoSplits(nodes, done, 0);
    NothingAfter(s.children, given, done, {} + (after + {name}), s.id);
    NothingAfter(rest, given, done, after + {name}, s.id);
    NothingAfter(rest, given, done, after, s.id);
    assert PartlyOne(s, given, done, {} + (after + {name})) == [s];
    assert [s] + rest == nodes;
    ReplaceAbsent(rest, s.id, Group(given, name));
  }

  /** The part before the slot, in which nothing changes. */
  lemma HeadStays(n: Node, given: seq<Node>, done: set<nat>, later: set<string>, id: nat, group: seq<Node>)
    requires n.id != id && Count(n.children, id) == 0 && Count(given, id) == 0
    ensures Replace(PartlyOne(n, given, done, later), id, group) == PartlyOne(n, given, done + {id}, later)
  {
    var head := PartlyOne(n, given, done, later);
    OneMoreDone(n.children, given, done, later, id);
    PartlyCounts(n.children, given, done, later, id);
    GroupsShare(given, OrDefault(n.name), "", id);
    if !(IsSlot(n) && n.id in done) { assert head[1..] == []; }
    ReplaceAbsent(head, id, group);
  }

  /** The element that holds the slot: a filled slot either stays as it is or loses its children to the new one. */
  lemma HeadFills(n: Node, given: seq<Node>, done: set<nat>, after: set<string>, s: Node)
    requires n.id != s.id && Count(n.children, s.id) == 1 && Count(given, s.id) == 0 && s in Slots(n.children)
    requires !IsSlot(n) ==> FillsNext(n.children, given, done, after, s)
    requires IsSlot(n) ==> n.id in done
    ensures Replace(PartlyOne(n, given, done, after + {OrDefault(s.name)}), s.id, Group(given, OrDefault(s.name)))
            == PartlyOne(n, given, done + {s.id}, after)
  {
    var name, group := OrDefault(s.name), Group(given, OrDefault(s.name));
    var head := PartlyOne(n, given, done, after + {name});
    if IsSlot(n) {
      NameIsDone(n.children, done, s);
      assert DoneNames(n.children, done + {s.id}) + after == DoneNames(n.children, done) + (after + {name});
      GroupsShare(given, OrDefault(n.name), "", s.id);
      ReplaceAbsent(head, s.id, group);
    } else {
      assert head[1..] == [];
    }
  }

  lemma {:induction false} FillsBelow(nodes: seq<Node>, given: seq<Node>, done: set<nat>, after: set<string>, i: nat)
    requires Next(nodes, given, done, after, i)
    requires (if IsSlot(nodes[0]) then 1 else 0) <= i
    requires i - (if IsSlot(nodes[0]) then 1 else 0) < |Slots(nodes[0].children)|
    ensures FillsNext(nodes, given, done, after, Slots(nodes)[i])
    decreases nodes, 0
  {
    var s, n, rest := Slots(nodes)[i], nodes[0], nodes[1..];
    var name, group := OrDefault(s.name), Group(given, OrDefault(s.name));
    SlotsSplit(nodes, i);
    UptoSplits(nodes, done, i);
    SlotIsCounted(n.children, s);
    NothingAfter(rest, given, done, after, s.id);
    NothingAfter(rest, given, done, after + {name}, s.id);
    ReplaceAbsent(rest, s.id, group);
    if !IsSlot(n) { FillsAny(n.children, given, done, after, i); }
    HeadFills(n, given, done, after, s);
    assert {} + after == after && {} + (after + {name}) == after + {name};
    ReplaceConcat(PartlyOne(n, given, done, after + {name}), rest, s.id, group);
  }

  lemma {:induction false} FillsLater(nodes: seq<Node>, given: seq<Node>, done: set<nat>, after: set<string>, i: nat)
    requires Next(nodes, given, done, after, i)
    requires (if IsSlot(nodes[0]) then 1 else 0) + |Slots(nodes[0].children)| <= i
    ensures FillsNext(nodes, given, done, after, Slots(nodes)[i])
    decreases nodes, 0
  {
    var s, n, rest := Slots(nodes)[i], nodes[0], nodes[1..];
    var name, group := OrDefault(s.name), Group(given, OrDefault(s.name));
    SlotsSplit(nodes, i);
    UptoSplits(nodes, done, i);
    SlotIsCounted(rest, s);
    FillsAny(rest, given, done, after, i - (if IsSlot(n) then 1 else 0) - |Slots(n.children)|);
    NameIsDone(rest, done, s);
    var later := DoneNames(rest, done) + (after + {name});
    assert later == DoneNames(rest, done + {s.id}) + after;
    HeadStays(n, given, done, later, s.id, group);
    ReplaceConcat(PartlyOne(n, given, done, later), Partly(rest, given, done, after + {name}), s.id, group);
  }

  /** Filling the next slot of the part where no child of its name is. */
  lemma {:induction false} FillsAny(nodes: seq<Node>, given: seq<Node>, done: set<nat>, after: set<string>, i: nat)
    requires Next(nodes, given, done, after, i)
    ensures FillsNext(nodes, given, done, after, Slots(nodes)[i])
    decreases nodes, 1
  {
    var h := if IsSlot(nodes[0]) then 1 else 0;
    if i < h {
      FillsHere(nodes, given, done, after);
    } else if i - h < |Slots(nodes[0].children)| {
      FillsBelow(nodes, given, done, after, i);
    } else {
      FillsLater(nodes, given, done, after, i);
    }
  }

  // ---- the loop ------------------------------------------------------------------------------------------------

  lemma {:induction false} SlotsDiffer(nodes: seq<Node>, i: nat, j: nat)
    requires i < j < |Slots(nodes)| && Slots(nodes)[i].id == Slots(nodes)[j].id
    ensures Count(nodes, Slots(nodes)[i].id) > 1
    decreases nodes
  {
    var n, s, t := nodes[0], Slots(nodes)[i], Slots(nodes)[j];
    var h, k := if IsSlot(n) then 1 else 0, (if IsSlot(n) then 1 else 0) + |Slots(n.children)|;
    SlotsSplit(nodes, i);
    SlotsSplit(nodes, j);
    if h <= i < k { SlotIsCounted(n.children, s); }
    if h <= j < k { SlotIsCounted(n.children, t); }
    if k <= i { SlotIsCounted(nodes[1..], s); }
    if k <= j { SlotIsCounted(nodes[1..], t); }
    if h <= i && j < k {
      SlotsDiffer(n.children, i - h, j - h);
    } else if k <= i {
      SlotsDiffer(nodes[1..], i - k, j - k);
    }
  }

  lemma OneMoreSlot(nodes: seq<Node>, given: seq<Node>, done: set<nat>, i: nat)
    requires Apart(nodes, given) && i < |Slots(nodes)| && Upto(nodes, done, i)
    ensures Next(nodes, given, done, {}, i) && Upto(nodes, done + {Slots(nodes)[i].id}, i + 1)
  {
    var s := Slots(nodes)[i];
    SlotIsCounted(nodes, s);
    forall j | 0 <= j < |Slots(nodes)| ensures Slots(nodes)[j].id in done + {s.id} <==> j < i + 1 {
      if i < j && Slots(nodes)[j].id == s.id { SlotsDiffer(nodes, i, j); }
    }
  }

  /** The loop over the slots, each of which takes its children from wherever they are, leaves the filled template. */
  method FillSlots(template: seq<Node>, given: seq<Node>) returns (content: seq<Node>)
    requires Apart(template, given)
    ensures content == Fill(template, given, {})
  {
    var contents := BuildSlotContents(given);
    var slots := Slots(template);
    content := template;
    ghost var done: set<nat> := {};
    NoNames(template, done);
    NoneDone(template, given, done, {});
    for i := 0 to |slots|
      invariant Upto(template, done, i) && content == Partly(template, given, done, {})
    {
      var name := OrDefault(slots[i].name);
      var replacements := if name in contents then contents[name] else [];
      assert replacements == Lookup(contents, name) == Group(given, name);
      MovedAway(template, given, done, {}, name);
      OneMoreSlot(template, given, done, i);
      FillsAny(template, given, done, {}, i);
      content := FillOne(content, slots[i], replacements);
      done := done + {slots[i].id};
    }
    forall s | s in slots ensures s.id in done { var j :| 0 <= j < |slots| && slots[j] == s; }
    AllDone(template, given, done, {});
  }
}
